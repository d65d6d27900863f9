# Clinical ED text preprocessing, modelled in Dafny

This project models `preprocess_data.py`, the MIMIC-IV ED preprocessing script.
It turns the ED-stay, diagnosis, medication-reconciliation, Pyxis-dispensing,
triage and vital-sign tables into one clinical text per emergency-department
visit. The model proves what each stage does to the data. It covers these
stages:

- **Visits** (`visits.dfy`). Only visits that ended at `HOME` or `ADMITTED`
  are kept, in order. Each gets the label 1 when admitted and 0 when sent
  home, and the label replaces the disposition under the name `disposition`.
- **Set reducers** (`reducers.dfy`). Diagnoses, medications, dispensations,
  rhythms and pain entries are grouped by stay. Each group keeps its distinct
  lower-cased values, joined with `", "`.
- **Vital extremes** (`vitals.dfy`). Each stay gets its maximum and minimum
  of each of six numeric vitals. The two tables are outer-merged and then
  left-merged with the rhythm and pain sets.
- **Merge chain** (`merge.dfy`, `pipeline.dfy`). Five left merges on
  `stay_id` build `all_df`.
- **Normalisation** (`normalise.dfy`). Columns get readable names, and ESI
  levels 1 to 5 become their sentences.
- **Text** (`serialise.dfy`). `generate_text_df` turns every cell into
  `"<column> : <value>"`. The clinical text of a row is the lower-cased
  `". "`-join of all its cells except `stay_id`, `subject_id` and
  `disposition`.
- **Vitals-free variant**. The same text is built without the
  maximum/minimum columns. It is paired with a 12-entry vector per stay: the
  six maxima, then the six minima, with NaN as 0.

## Behaviour of the code that the model keeps

Each item below is what the code does as written, with the lines that do it.
Several of them are easy to misread as something tidier; the model keeps the
code's behaviour.

- **Missing values after the merges read "nan".** The `fillna('')` calls
  come before the merges (lines 27, 35, 44, 53, 81, 91), and nothing fills
  NaN after the merges at lines 94-98. A visit with no diagnosis, medication,
  dispensing, triage or vital row therefore carries NaN in those columns, and
  `astype(str)` at line 144 renders it as `nan` before the `fillna('')` at
  line 150 can reach it. `Pipeline.NoDiagnosisText` proves that such a text
  contains `diagnosis icd title : nan`.
- **The rename map does not cover every column.** The map at lines 101-123
  has no entry for `gender`, `race`, `acuity`, `chiefcomplaint`,
  `prescription` or `pain`, so line 124 leaves those names raw
  (`Normalise.NormalisedCells`).
- **Only acuity levels 1 to 5 are replaced.** The dictionary replace at
  line 132 changes a cell only when it holds one of the keys of lines
  127-131; any other value stays as it is, such as NaN for a stay without a
  triage row or '' for a triage row without an acuity (`Normalise.AcuityCell`).
- **The vitals-free text uses raw acuity.** Line 170 builds it from the
  renamed `all_df`, not from `all_df_1`, so it holds the raw levels rather
  than the sentences (`Pipeline.RawAcuity`).
- **Stays without vital rows get NaN, not a vector.** The vector table of
  lines 180-182 only has stays that occur in the vital-sign table, so the
  left merge at line 183 gives NaN (`Pipeline.OutputVisit`). The
  `fillna(0)` at lines 163-164 gives zeros only for a vital a stay with
  vital rows never measured.
- **A reduced cell cannot always be split back.** Line 37 joins a stay's
  distinct values with `", "`. ICD titles often contain `", "` themselves
  (such as "chest pain, unspecified"), and then splitting the cell on
  `", "` does not give the values back. `Reducers.SetReduceSplit` proves the
  round trip only for values without `", "`, and
  `Strings.SplitJoinNeedsCommaFreeParts` shows it failing otherwise.
- **Stay time is not in hours.** Line 21 divides the total seconds by
  `24 * 60`, yet line 101 names the column "... stay time in hours". The
  model takes the stay time as an input value (see below).

## Model

| member | source | states |
|---|---|---|
| Visits.Retain | preprocess_data.py:17 | a visit is kept iff its disposition is HOME or ADMITTED; nothing else is added |
| Visits.RetainAppend | preprocess_data.py:17 | the filter works row by row: filtering a concatenation concatenates the filtered parts, in order |
| Visits.RetainIdempotent | preprocess_data.py:17 | filtering an already filtered table changes nothing |
| Visits.Label | preprocess_data.py:22-23 | the label is 0 or 1, and 1 exactly when the disposition is ADMITTED |
| Visits.LabelOfRetained | preprocess_data.py:17-23 | among kept visits, label 0 means exactly "went home" |
| Visits.EdStayTable | preprocess_data.py:15-27 | `edstay_df` has the six kept columns and one row per retained visit |
| Visits.EdStayRow | preprocess_data.py:15-27 | row i holds the i-th retained visit's subject, stay, gender, race and stay time with NaN as '', followed by its label |
| Visits.EdStayKeys | preprocess_data.py:25-27 | the `stay_id` column lists the retained visits' stays, in order |
| Reducers.Dedup | preprocess_data.py:36 | `list(set(x))` keeps each value once and keeps exactly the values of x |
| Reducers.GroupKeysMembership | preprocess_data.py:36 | a stay is a group key iff some counted row has it |
| Reducers.GroupTokensMembership | preprocess_data.py:36 | a group's token list holds exactly the lower-cased values of its rows |
| Reducers.SetReduce | preprocess_data.py:32-37 | the reduced table has columns [stay_id, col] |
| Reducers.SetReduceOneRowPerStay | preprocess_data.py:32-78 | the reduction has one row per stay, for exactly the stays some counted row names; NaN values are filled (diagnoses, medications, dispensations) or dropped (rhythm, pain) |
| Reducers.SetReduceTokens | preprocess_data.py:36-37 | a stay's cell is the ", "-join of a duplicate-free list of exactly its distinct lower-cased values |
| Reducers.SetReduceUniqueKeys | preprocess_data.py:32-37 | the reduction never lists a stay twice |
| Reducers.SetReduceSplit | preprocess_data.py:37 | when no value contains ", ", splitting the cell on ", " recovers exactly the stay's distinct values |
| Reducers.SetReducePart | preprocess_data.py:72-80 | under either null policy, a left merge with a reduction appends the stay's joined distinct values when a counted row names it, and NaN otherwise |
| Reducers.SetReducePresent | preprocess_data.py:73-75 | a stay some counted row names gets the ", "-join of its distinct lower-cased values |
| Reducers.SetReduceAbsent | preprocess_data.py:75 | a stay no counted row names gets NaN |
| Reducers.ReducedValueMissing | preprocess_data.py:94-96 | with NaN stays filled, a stay's reduced value is NaN exactly when no row names the stay |
| Strings.SplitJoinRoundTrip | preprocess_data.py:37 | the ", "-join can be undone by splitting when no part contains ", " |
| Strings.SplitJoinNeedsCommaFreeParts | preprocess_data.py:37 | without that condition the join loses information: the single value "a, b" splits into two |
| Strings.JoinContainsPart | preprocess_data.py:151 | every joined part appears in the joined text |
| Strings.LowerKeepsContains | preprocess_data.py:153 | lower-casing a text keeps every lower-cased part it contained |
| Strings.Lower | preprocess_data.py:34 | the result has the length of the input, no capital letter A-Z, and every other character in place (non-ASCII folding is listed under Left out) |
| Strings.LowerIdempotent | preprocess_data.py:153 | lower-casing an already lower-cased text changes nothing |
| Strings.JoinWith | preprocess_data.py:37 | `", ".join` yields "" for no parts, starts with the first part, and is as long as the parts together plus one separator between each neighbouring pair; `Strings.SplitJoinRoundTrip` and `Strings.JoinContainsPart` complete it |
| Strings.Split | preprocess_data.py:37 | `str.split` always yields at least one piece; `Strings.SplitJoinRoundTrip` shows it inverts `JoinWith` on comma-free parts |
| Strings.NatTextRoundTrip | preprocess_data.py:144 | reading the decimal digits of a natural number back gives the number |
| Strings.IntText | preprocess_data.py:144 | `str(n)` is decimal text that reads back as n, sign included |
| Frames.Render | preprocess_data.py:144 | `astype(str)` renders NaN as "nan" and a number as decimal text that reads back as the number |
| Frames.FillNa | preprocess_data.py:27 | `fillna(v)` keeps names and shape, turns every NaN cell into v and keeps every other cell |
| Frames.DropColumns | preprocess_data.py:90 | `drop(columns = ...)` keeps every row and the row count |
| Frames.DropColumnsMembership | preprocess_data.py:170 | after the drop a name is a column iff it was one and was not dropped |
| Frames.DropKeepsColumn | preprocess_data.py:170 | a column that is not dropped keeps its cells, top to bottom |
| Frames.RenameColumns | preprocess_data.py:124 | `rename(columns = m)` keeps the rows and renames each column in place: to m[c] when m names c, else unchanged |
| Frames.AddPrefix | preprocess_data.py:63 | `add_prefix(p)` keeps the rows and puts p before every column name |
| Vitals.Readings | preprocess_data.py:61 | a stay's readings of a vital are exactly its non-NaN values of that vital |
| Vitals.Maximum | preprocess_data.py:61 | `max` of no readings is NaN; otherwise it is a reading and bounds them all from above |
| Vitals.Minimum | preprocess_data.py:65 | `min` of no readings is NaN; otherwise it is a reading and bounds them all from below |
| Vitals.StayKeys | preprocess_data.py:61 | the group keys are exactly the non-NaN stays of the vital-sign table |
| Vitals.ExtremeColumnNames | preprocess_data.py:63-67 | the columns are the vital names with the prefix max_ or min_, in the table's order |
| Vitals.ExtremeTable | preprocess_data.py:61-67 | the max (min) table has stay_id and the six prefixed vital columns |
| Vitals.ExtremeTableKeys | preprocess_data.py:61-67 | both tables have one row per stay, in the same stay order |
| Vitals.VitalColumnsDistinct | preprocess_data.py:69-80 | no merge in the vital chain sees a clashing column name |
| Vitals.VitalExtremes | preprocess_data.py:69 | the outer merge has stay_id, the six maxima and the six minima |
| Vitals.VitalExtremesRows | preprocess_data.py:69 | each stay's row holds its maxima followed by its minima |
| Merge.OuterJoinCoveredKeys | preprocess_data.py:69 | an outer merge whose right keys all occur on the left equals the left merge, so it adds no rows |
| Merge.OuterJoin | preprocess_data.py:69 | an outer merge has the left columns and then the right non-key columns; `Merge.OuterJoinCoveredKeys` gives its rows at line 69 |
| Vitals.ExtremesKeys | preprocess_data.py:61-69 | the outer merge lists each stay of the vital-sign table once, in order |
| Vitals.WithRhythm | preprocess_data.py:72-75 | the rhythm merge appends one `rhythm` column; `Vitals.WithRhythmRow` gives its rows |
| Vitals.WithRhythmKeys | preprocess_data.py:72-75 | the rhythm merge keeps one row per vital stay, in order |
| Vitals.WithRhythmRow | preprocess_data.py:72-75 | row i of the rhythm merge is the i-th vital stay, its six maxima, its six minima, and its joined distinct lower-cased rhythms, or NaN when it has no rhythm reading |
| Vitals.VitalTable | preprocess_data.py:77-81 | `vital_df` has stay_id, maxima, minima, rhythm and pain; `Vitals.VitalTableRow` gives its rows |
| Vitals.VitalTableKeys | preprocess_data.py:75-81 | `vital_df` has exactly one row per stay of the vital-sign table |
| Vitals.PainJoinedRow | preprocess_data.py:77-80 | row i of the pain merge is row i of the rhythm merge followed by the stay's joined distinct lower-cased pain values, or NaN |
| Vitals.VitalTableRow | preprocess_data.py:59-81 | row i of `vital_df` is the i-th vital stay, its maxima, minima, rhythm set and pain set, with every NaN among them turned into '' |
| Vitals.VitalPart | preprocess_data.py:98 | merging `vital_df` appends a stay's filled row after its key, or NaN in all 14 columns when the vital-sign table has no row for it |
| Vitals.AppendedSets | preprocess_data.py:72-81 | the last two appended cells are the stay's rhythm and pain cells: the joined set, '' when it has no such reading, NaN when it has no vital row |
| Vitals.VitalVector | preprocess_data.py:163-166 | the vector has 12 entries; `Vitals.VitalVectorLayout` says what each holds |
| Vitals.VitalVectorLayout | preprocess_data.py:163-180 | the vector has 12 entries; entry j is the stay's largest reading of vital j and entry 6+j its smallest, both readings and bounding all of them, or 0 when it has none |
| Vitals.VectorTable | preprocess_data.py:180-182 | the vector frame has columns ID and vitals |
| Vitals.VectorTableKeys | preprocess_data.py:180-182 | the vector frame has one row per stay of the vital-sign table |
| Triage.RenamedTriageColumns | preprocess_data.py:85-89 | after the prefix and the renaming the triage names are subject_id, stay_id, the seven triage_ measurements, acuity and chiefcomplaint |
| Triage.SubjectOnlyFirst | preprocess_data.py:90 | subject_id is only the first column, so dropping it removes exactly that column |
| Triage.TriageTable | preprocess_data.py:85-91 | `triage_df` has stay_id followed by the nine triage columns |
| Triage.TriageRow | preprocess_data.py:85-91 | row i is the i-th triage record without its subject, with NaN as '' |
| Triage.TriageKeys | preprocess_data.py:85-91 | with distinct present stays, `triage_df` is keyed by stay in file order |
| Merge.Matching | preprocess_data.py:94-98 | the matching rows are right rows carrying the key |
| Merge.MatchingEmpty | preprocess_data.py:94-98 | no row matches iff no right row carries the key |
| Merge.MatchingAtMostOne | preprocess_data.py:94-98 | on unique right keys at most one row matches |
| Merge.LeftJoin | preprocess_data.py:94-98 | a left merge has the left columns followed by the right non-key columns, and at least the left rows |
| Merge.Lookup | preprocess_data.py:94-98 | a row the lookup finds is a right row with the key |
| Merge.LookupNone | preprocess_data.py:94-98 | the lookup reports no row iff no right row has the key |
| Merge.JoinRowsUnique | preprocess_data.py:94-98 | on unique right keys each left row yields exactly one row: itself followed by the matching right part |
| Merge.LeftJoinKeepsRows | preprocess_data.py:94-98 | on unique right keys the merge keeps the left rows in order, each extended by its right part |
| Merge.LeftJoinKeepsKeys | preprocess_data.py:94-98 | the merge keeps the key column, so unique left keys stay unique |
| Merge.LeftJoinPrefix | preprocess_data.py:94-98 | every left cell is unchanged after the merge |
| Merge.RightPartOfRow | preprocess_data.py:94-98 | a key present on the right contributes that row without its key |
| Merge.RightPartMissing | preprocess_data.py:94-98 | a key absent on the right contributes NaN in every right column |
| Pipeline.Merge1Joinable | preprocess_data.py:94 | the diagnosis merge sees no clashing column name |
| Pipeline.Merge4Joinable | preprocess_data.py:97 | the triage merge sees no clashing column name |
| Pipeline.Merge5Joinable | preprocess_data.py:98 | the vital merge sees no clashing column name |
| Pipeline.AllTable | preprocess_data.py:94-98 | `all_df` has the 32 merged columns |
| Pipeline.WithDiagnoses | preprocess_data.py:94 | `df_1` has the ED-stay columns followed by icd_title; `Pipeline.DiagnosisRow` gives its rows |
| Pipeline.WithMedications | preprocess_data.py:95 | `df_2` has `df_1`'s columns followed by current_med; `Pipeline.MedicationRow` and `Pipeline.MedicationCell` give its rows and what the new cell holds |
| Pipeline.WithDispensations | preprocess_data.py:96 | `df_3` has `df_2`'s columns followed by prescription; `Pipeline.PrescriptionRow` and `Pipeline.PrescriptionCell` give its rows and what the new cell holds |
| Pipeline.WithTriage | preprocess_data.py:97 | `df_4` adds the nine triage columns; `Pipeline.TriageRowPart` gives its rows |
| Pipeline.AllTableVitalPart | preprocess_data.py:98 | row i of `all_df` ends with what `vital_df` holds for the stay of row i of `df_4`, or NaN throughout |
| Pipeline.VisitVitalCells | preprocess_data.py:59-98 | a visit's 14 vital columns in `all_df` hold its stay's filled `vital_df` row after the key, or NaN when the stay has no vital row |
| Pipeline.DiagnosesMerged | preprocess_data.py:94 | `df_1` keeps every ED-stay row and cell |
| Pipeline.MedicationsMerged | preprocess_data.py:95 | `df_2` keeps every row and the first seven cells of `df_1` |
| Pipeline.DispensationsMerged | preprocess_data.py:96 | `df_3` keeps every row of `df_2` and all eight of its cells, current_med included |
| Pipeline.TriageMerged | preprocess_data.py:97 | with one triage row per stay, `df_4` keeps every row of `df_3` and all nine of its cells, current_med and prescription included |
| Pipeline.VitalsMerged | preprocess_data.py:98 | `all_df` keeps every row and the first seven cells of `df_4` |
| Pipeline.TriageCellCarried | preprocess_data.py:98 | the vital merge keeps every cell of `df_4` |
| Pipeline.AllTableLength | preprocess_data.py:94-98 | with one triage row per stay, `all_df` has one row per retained visit |
| Pipeline.AllTableEdStayCells | preprocess_data.py:94-98 | every ED-stay cell reaches `all_df` unchanged, in its row and column |
| Pipeline.AllTableDiagnosisCells | preprocess_data.py:94-98 | the diagnosis cell added by the first merge survives the later merges |
| Pipeline.DiagnosisRow | preprocess_data.py:94 | row i of `df_1` is ED-stay row i followed by its stay's diagnosis part |
| Pipeline.DiagnosisCell | preprocess_data.py:32-94 | a visit's diagnosis cell is `Reducers.ReducedValue` for its stay: the joined distinct titles, or NaN when there are none |
| Pipeline.AllDiagnosisCell | preprocess_data.py:32-98 | the same holds for the visit's diagnosis cell in `all_df` |
| Pipeline.MedicationRow | preprocess_data.py:95 | row i of `df_2` is row i of `df_1` followed by what the medication reduction holds for its stay |
| Pipeline.MedicationCell | preprocess_data.py:39-95 | a visit's current_med cell in `df_2` is the ", "-join of its stay's distinct lower-cased medicine names, or NaN when no medication row names the stay |
| Pipeline.PrescriptionRow | preprocess_data.py:96 | row i of `df_3` is row i of `df_2` followed by what the dispensation reduction holds for its stay |
| Pipeline.PrescriptionCell | preprocess_data.py:48-96 | a visit's prescription cell in `df_3` is the ", "-join of its stay's distinct lower-cased dispensed names, or NaN |
| Pipeline.ReducerCellsCarried | preprocess_data.py:97-98 | the current_med and prescription cells of `df_3` reach `all_df` unchanged |
| Pipeline.AllMedicationCell | preprocess_data.py:39-98 | the visit's medication cell in `all_df` is the same joined set or NaN |
| Pipeline.AllPrescriptionCell | preprocess_data.py:48-98 | the visit's prescription cell in `all_df` is the same joined set or NaN |
| Pipeline.NormalisedReducerColumns | preprocess_data.py:101-124 | in `all_df_1` columns 7 and 8 are "current medication" and "prescription", and the text step keeps both |
| Pipeline.NormalisedReducerCells | preprocess_data.py:95-132 | a visit's medication and prescription cells survive the rename and the acuity replacement |
| Pipeline.TriageRowPart | preprocess_data.py:97 | row i of `df_4` is `df_3`'s row i followed by the triage part for its stay |
| Pipeline.TriageAcuityPart | preprocess_data.py:85-97 | a stay's triage part carries its acuity (NaN as '') |
| Pipeline.DispensationsStayCell | preprocess_data.py:94-96 | `df_3`'s stay cell is the retained visit's stay |
| Pipeline.VisitAcuityCell | preprocess_data.py:85-98 | a visit whose stay has a triage row gets that row's acuity in `all_df` |
| Pipeline.AcuityText | preprocess_data.py:85-153 | a visit triaged at ESI level k from 1 to 5 has "acuity : " followed by level k's sentence in its clinical text |
| Normalise.AcuitySentence | preprocess_data.py:127-131 | only levels 1 to 5 have a sentence, and level k's sentence starts "esi k," |
| Normalise.AcuitySentencesDistinct | preprocess_data.py:127-131 | different levels have different sentences |
| Normalise.AcuityCell | preprocess_data.py:132 | a cell changes iff it holds a level from 1 to 5, and then it becomes that level's sentence |
| Normalise.ReplaceAcuity | preprocess_data.py:132 | only cells of the acuity column change, each as AcuityCell says; names and shape are kept |
| Normalise.ReplaceAcuityIdempotent | preprocess_data.py:132 | replacing twice is replacing once |
| Normalise.RenameKeepsAcuity | preprocess_data.py:101-124 | no column is renamed to or from "acuity" |
| Normalise.EdStayNames | preprocess_data.py:101-102 | the identifier, demographic and label columns keep their names; stay time and diagnosis get their phrases |
| Normalise.NormalisedCells | preprocess_data.py:101-132 | each column is renamed iff the map names it; cells outside acuity are unchanged; acuity cells are replaced |
| Normalise.NormalisedKeeps | preprocess_data.py:132 | a cell outside the acuity column is unchanged |
| Normalise.NormalisedReplaces | preprocess_data.py:132 | an acuity cell becomes AcuityCell of itself |
| Normalise.Normalised | preprocess_data.py:124-132 | renaming and the acuity replacement keep the shape; `Normalise.NormalisedCells` gives names and cells |
| Normalise.VitalSetNames | preprocess_data.py:101-124 | the rhythm column becomes "heart rhythm"; the pain column keeps its name |
| Normalise.RenamedAcuityIndex | preprocess_data.py:124 | renaming keeps the acuity column at its position |
| Pipeline.ReplacedAcuity | preprocess_data.py:124-132 | `all_df_1`'s acuity cell is the sentence for `all_df`'s level |
| Pipeline.RawAcuity | preprocess_data.py:169-170 | the vitals-free table keeps `all_df`'s raw acuity level |
| Pipeline.RenamedHead | preprocess_data.py:124 | the renamed `all_df` starts with subject_id, stay_id, gender, race, the stay-time phrase, disposition and the diagnosis phrase |
| Pipeline.RenamedAll | preprocess_data.py:124 | the renamed `all_df` keeps the rows and the number of columns of `all_df` |
| Pipeline.NormalisedAll | preprocess_data.py:132 | `all_df_1` has the renamed columns and one row per row of `all_df` |
| Pipeline.NormalisedSetColumns | preprocess_data.py:124 | in `all_df_1` columns 30 and 31 are "heart rhythm" and "pain", and the text step keeps both |
| Pipeline.NormalisedSetCells | preprocess_data.py:72-132 | a visit's rhythm and pain cells in `all_df_1` are its stay's rhythm and pain cells |
| Serialise.TextCell | preprocess_data.py:140-144 | a stay_id or disposition cell is copied unchanged; any other cell becomes text that starts with its column name and " : " and ends with the value as `astype(str)` renders it |
| Serialise.TextFrame | preprocess_data.py:135-146 | the text frame has the same columns and rows as its input |
| Serialise.GenerateTextFrame | preprocess_data.py:135-146 | the column-by-column loop builds exactly the text frame |
| Serialise.DroppedFragments | preprocess_data.py:169-173 | dropping columns and then describing a row gives the original row's fragments minus those columns, in column order |
| Serialise.PickedFragments | preprocess_data.py:150-151 | after `fillna('')` and the drop, the rendered cells are exactly the row's fragments |
| Serialise.ClinicalTextTable | preprocess_data.py:149-155 | the clinical text table has columns ID, TEXT and Label and one row per input row |
| Serialise.ClinicalTextRow | preprocess_data.py:149-155 | row i is [stay, lower-cased ". "-join of the fragments, label] |
| Serialise.FragmentsMembership | preprocess_data.py:151 | a fragment is in the text iff it describes a cell whose column is not stay_id, subject_id or disposition |
| Serialise.TextContainsFragment | preprocess_data.py:151-153 | every described cell appears, lower-cased, in its row's text |
| Serialise.DropVitalColumns | preprocess_data.py:169-170 | the vitals-free table keeps exactly the columns whose names contain neither "maximum" nor "minimum" |
| Serialise.NoVitalFragmentsInOrder | preprocess_data.py:169-173 | the vitals-free text describes the original row minus the identifiers and the extreme columns, in order |
| Pipeline.ClinicalText | preprocess_data.py:149-155 | `clinical_text_df` has columns ID, TEXT and Label and one row per `all_df` row |
| Pipeline.AllTableIdCells | preprocess_data.py:15-98 | `all_df`'s stay and label cells are the retained visit's |
| Pipeline.ClinicalTextRows | preprocess_data.py:149-155 | row i of `clinical_text_df` has visit i's stay as ID and its label as Label, and TEXT is the lower-cased ". "-join of its fragments |
| Pipeline.DiagnosisText | preprocess_data.py:32-155 | every visit's text contains "diagnosis icd title : " followed by its distinct titles, or "nan" |
| Pipeline.NoDiagnosisText | preprocess_data.py:94-153 | a visit whose stay gets no diagnosis value (no diagnosis row names it) has "diagnosis icd title : nan" in its text |
| Pipeline.MedicationText | preprocess_data.py:39-153 | every visit's text holds "current medication : " followed by its stay's joined distinct medicines, or "nan" when no medication row names the stay |
| Pipeline.PrescriptionText | preprocess_data.py:48-153 | every visit's text holds "prescription : " followed by its stay's joined distinct dispensed medicines, or "nan" |
| Pipeline.RhythmText | preprocess_data.py:72-153 | every visit's text holds "heart rhythm : " followed by its joined distinct rhythms, by nothing when its vital rows record none, or by "nan" when it has no vital row |
| Pipeline.PainText | preprocess_data.py:77-153 | the same for "pain : " and the stay's pain values |
| Pipeline.NoVitalTable | preprocess_data.py:169-170 | `all_but_vital` keeps exactly the renamed columns that are not extreme-vital columns |
| Pipeline.NoVitalText | preprocess_data.py:171-177 | the vitals-free text table has ID, TEXT and Label |
| Pipeline.NoVitalIdCells | preprocess_data.py:169-170 | dropping the vital columns keeps each row's stay and label |
| Pipeline.NoVitalTextRows | preprocess_data.py:171-177 | row i of the vitals-free text has visit i's stay and label, and TEXT is the lower-cased join of the vitals-free fragments |
| Pipeline.WithVectors | preprocess_data.py:183 | the merged output has columns ID, TEXT, Label and vitals |
| Pipeline.WithVectorsRows | preprocess_data.py:183 | the merge keeps each text row and appends its stay's vector, or NaN when the stay has no vital rows |
| Pipeline.VectorPart | preprocess_data.py:180-183 | the vector merge appends a stay's vector, or NaN when the stay has no vital rows |
| Pipeline.Output | preprocess_data.py:180-183 | the final frame has columns ID, TEXT, Label and vitals |
| Pipeline.OutputVisit | preprocess_data.py:163-183 | output row i holds visit i's stay, its label and its 12-entry vector, or NaN when the stay has no vital rows |

## Left out

- Reading the six compressed CSV files (lines 6-11) is not modelled. The
  tables arrive as sequences of records.
- The display calls `head()` and `shape` (lines 28, 70, 158) have no effect
  on the data and are not modelled.
- `split_train_test_val` (lines 189-204) is not modelled. It samples rows at
  random, calls scikit-learn's `train_test_split` and writes CSV files.
- The stay time (lines 19-21) is an input value of each visit. The model does
  not parse datetimes or round to two decimals.
- Numbers are integers. Float readings, `round` and the float rendering of
  `astype(str)` (such as `3.0`) are not modelled.
- Reducers.Dedup: lists the distinct values at their first occurrence. Python's
  `list(set(x))` has no fixed order, so the model proves set equality and
  distinctness, not the order. The reducer tables (`Reducers.SetReduce`) list
  their stays in first-appearance order too, while `groupby` at lines 36, 45,
  54, 73 and 78 sorts them; row order in those tables is not the source's.
  Every later use is a left merge on unique stays, which does not depend on
  that order.
- Strings.Lower: lower-cases the ASCII letters A-Z only. Python's
  `str.lower()` (lines 34, 43, 52, 73, 78, 153, 175) also folds other
  letters, such as "É" to "é". Case folding of non-ASCII characters is not
  modelled, so values that differ only in such letters stay distinct in the
  reducers and keep their capitals in the text.
- Vitals.StayKeys: lists group keys in first-appearance order. pandas `groupby`
  sorts them, so row order in the vital tables is not the source's.
- Merge.LeftJoin: requires the right table's non-key names to be new to the
  left table. pandas would rename clashes with `_x`/`_y`, and no merge in the
  script has a clash.
- Pipeline.TriageKeyed: the merge-chain lemmas assume at most one triage row
  per stay, each with a stay. With duplicate triage rows pandas would
  duplicate visits; that case is not modelled.
- Duplicate column names are not modelled; every table in the script has
  distinct names.
- Vectors are rendered as `[a, b, ...]` text. The exact pandas/NumPy rendering
  of a list cell is not modelled; the vector only appears in its own column.
