/** The whole preprocessing run: the per-visit tables merged onto the ED stays,
    the readable names and acuity sentences, the clinical text, and the
    vitals-free text paired with the vital-sign vector. */
module Pipeline {
  import opened Strings
  import opened Frames
  import opened Merge
  import opened Reducers
  import opened Visits
  import opened Triage
  import opened Vitals
  import opened Normalise
  import opened Serialise

  /** The six source tables, already read. */
  datatype Sources = Sources(
    visits: seq<Visit>,
    diagnoses: seq<Entry>,
    medications: seq<Entry>,
    dispensations: seq<Entry>,
    triage: seq<TriageRecord>,
    signs: seq<Sign>)

  /** The triage file holds at most one row per stay, and every row has a stay. */
  predicate TriageKeyed(rs: seq<TriageRecord>) {
    && (forall i, j :: 0 <= i < j < |rs| ==> rs[i].stay != rs[j].stay)
    && (forall i :: 0 <= i < |rs| ==> rs[i].stay != Missing)
  }

  function Diagnoses(src: Sources): Table {
    SetReduce(src.diagnoses, "icd_title", FillEmpty)
  }

  function Medications(src: Sources): Table {
    SetReduce(src.medications, "current_med", FillEmpty)
  }

  function Dispensations(src: Sources): Table {
    SetReduce(src.dispensations, "prescription", FillEmpty)
  }

  const Merged1: seq<string> := EdStayColumns + ["icd_title"]
  const Merged2: seq<string> := Merged1 + ["current_med"]
  const Merged3: seq<string> := Merged2 + ["prescription"]
  const Merged4: seq<string> := Merged3 + TriageOwnColumns
  const AllColumns: seq<string> := Merged4 + VitalOwnColumns

  lemma Merge1Joinable(src: Sources)
    ensures Joinable(EdStayTable(src.visits), Diagnoses(src), Key)
  {
    KeyedRightColumns(Diagnoses(src), Key, ["icd_title"]);
    assert CharNotAt(EdStayColumns, 0, 'i');
    NamesApart(["icd_title"], EdStayColumns, 0, 'i');
  }

  /** `df_1`. */
  function WithDiagnoses(src: Sources): (t: Table)
    ensures WellFormed(t) && t.columns == Merged1
  {
    Merge1Joinable(src);
    KeyedRightColumns(Diagnoses(src), Key, ["icd_title"]);
    LeftJoin(EdStayTable(src.visits), Diagnoses(src), Key)
  }

  lemma Merge2Joinable(src: Sources)
    ensures Joinable(WithDiagnoses(src), Medications(src), Key)
  {
    KeyedRightColumns(Medications(src), Key, ["current_med"]);
    assert CharNotAt(Merged1, 0, 'c');
    NamesApart(["current_med"], Merged1, 0, 'c');
  }

  /** `df_2`. */
  function WithMedications(src: Sources): (t: Table)
    ensures WellFormed(t) && t.columns == Merged2
  {
    Merge2Joinable(src);
    KeyedRightColumns(Medications(src), Key, ["current_med"]);
    LeftJoin(WithDiagnoses(src), Medications(src), Key)
  }

  lemma Merge3Joinable(src: Sources)
    ensures Joinable(WithMedications(src), Dispensations(src), Key)
  {
    KeyedRightColumns(Dispensations(src), Key, ["prescription"]);
    assert CharNotAt(Merged2, 0, 'p');
    NamesApart(["prescription"], Merged2, 0, 'p');
  }

  /** `df_3`. */
  function WithDispensations(src: Sources): (t: Table)
    ensures WellFormed(t) && t.columns == Merged3
  {
    Merge3Joinable(src);
    KeyedRightColumns(Dispensations(src), Key, ["prescription"]);
    LeftJoin(WithMedications(src), Dispensations(src), Key)
  }

  /** No triage column other than the key clashes with the columns merged before it. */
  lemma TriageColumnsApart()
    ensures forall c :: c in TriageOwnColumns ==> c !in Merged3
  {
    assert CharNotAt(Merged3, 0, 't') && CharNotAt(Merged3, 0, 'a') && CharNotAt(Merged3, 1, 'h');
    NamesApart(TriageVitalColumns, Merged3, 0, 't');
    NamesApart(["acuity"], Merged3, 0, 'a');
    NamesApart(["chiefcomplaint"], Merged3, 1, 'h');
  }

  lemma Merge4Joinable(src: Sources)
    ensures Joinable(WithDispensations(src), TriageTable(src.triage), Key)
  {
    KeyedRightColumns(TriageTable(src.triage), Key, TriageOwnColumns);
    TriageColumnsApart();
  }

  /** `df_4`. */
  function WithTriage(src: Sources): (t: Table)
    ensures WellFormed(t) && t.columns == Merged4
  {
    Merge4Joinable(src);
    KeyedRightColumns(TriageTable(src.triage), Key, TriageOwnColumns);
    LeftJoin(WithDispensations(src), TriageTable(src.triage), Key)
  }

  /** A character position that tells the parts of `df_4`'s names apart from a
      name tells all of them apart from it. */
  lemma Merged4CharNotAt(k: nat, ch: char)
    requires CharNotAt(Merged3, k, ch) && CharNotAt(TriageVitalColumns, k, ch)
    requires CharNotAt(["acuity", "chiefcomplaint"], k, ch)
    ensures CharNotAt(Merged4, k, ch)
  {
    CharNotAtAppend(Merged3, TriageVitalColumns, k, ch);
    CharNotAtAppend(Merged3 + TriageVitalColumns, ["acuity", "chiefcomplaint"], k, ch);
    assert Merged4 == Merged3 + TriageVitalColumns + ["acuity", "chiefcomplaint"];
  }

  lemma ExtremesApart()
    ensures forall c :: c in MaxColumns + MinColumns ==> c !in Merged4
  {
    assert CharNotAt(Merged3, 0, 'm') && CharNotAt(TriageVitalColumns, 0, 'm');
    assert CharNotAt(["acuity", "chiefcomplaint"], 0, 'm');
    Merged4CharNotAt(0, 'm');
    assert CharAt(MaxColumns + MinColumns, 0, 'm');
    NamesApart(MaxColumns + MinColumns, Merged4, 0, 'm');
  }

  lemma RhythmApart()
    ensures "rhythm" !in Merged4
  {
    assert CharNotAt(Merged3, 2, 'y') && CharNotAt(TriageVitalColumns, 2, 'y');
    assert CharNotAt(["acuity", "chiefcomplaint"], 2, 'y');
    Merged4CharNotAt(2, 'y');
    NamesApart(["rhythm"], Merged4, 2, 'y');
  }

  lemma PainApart()
    ensures "pain" !in Merged4
  {
    assert CharNotAt(Merged3, 3, 'n') && CharNotAt(TriageVitalColumns, 3, 'n');
    assert CharNotAt(["acuity", "chiefcomplaint"], 3, 'n');
    Merged4CharNotAt(3, 'n');
    NamesApart(["pain"], Merged4, 3, 'n');
  }

  /** No vital-sign column other than the key clashes with the columns merged before it. */
  lemma VitalColumnsApart()
    ensures forall c :: c in VitalOwnColumns ==> c !in Merged4
  {
    ExtremesApart();
    RhythmApart();
    PainApart();
    assert VitalOwnColumns == (MaxColumns + MinColumns) + ["rhythm", "pain"];
  }

  lemma Merge5Joinable(src: Sources)
    ensures Joinable(WithTriage(src), VitalTable(src.signs), Key)
  {
    KeyedRightColumns(VitalTable(src.signs), Key, VitalOwnColumns);
    VitalColumnsApart();
  }

  /** `all_df` before renaming. */
  function AllTable(src: Sources): (t: Table)
    ensures WellFormed(t) && t.columns == AllColumns
  {
    Merge5Joinable(src);
    KeyedRightColumns(VitalTable(src.signs), Key, VitalOwnColumns);
    LeftJoin(WithTriage(src), VitalTable(src.signs), Key)
  }

  /** `after` has the rows of `before`, in order, and agrees with it on the
      first `n` cells of every row. */
  predicate Carries(after: Table, before: Table, n: nat) {
    && |after.rows| == |before.rows|
    && forall i :: 0 <= i < |after.rows| ==>
         n <= |after.rows[i]| && n <= |before.rows[i]| && after.rows[i][..n] == before.rows[i][..n]
  }

  lemma CarriesTrans(a: Table, b: Table, c: Table, n: nat)
    requires Carries(a, b, n) && Carries(b, c, n)
    ensures Carries(a, c, n)
  {
  }

  /** Agreeing on the first `n` cells means agreeing on fewer. */
  lemma CarriesFewer(a: Table, b: Table, n: nat, m: nat)
    requires Carries(a, b, n) && m <= n
    ensures Carries(a, b, m)
  {
    forall i | 0 <= i < |a.rows| ensures a.rows[i][..m] == b.rows[i][..m] {
      assert a.rows[i][..m] == a.rows[i][..n][..m];
      assert b.rows[i][..m] == b.rows[i][..n][..m];
    }
  }

  lemma CarriedAt(a: Table, b: Table, n: nat, i: nat, j: nat)
    requires Carries(a, b, n) && i < |a.rows| && j < n
    ensures i < |b.rows| && j < |a.rows[i]| && j < |b.rows[i]| && a.rows[i][j] == b.rows[i][j]
  {
    assert a.rows[i][j] == a.rows[i][..n][j];
    assert b.rows[i][j] == b.rows[i][..n][j];
  }

  /** A left merge on unique right keys keeps the left rows, in order, and
      their first `n` cells. */
  lemma StepKeeps(l: Table, r: Table, n: nat)
    requires Joinable(l, r, Key) && UniqueKeys(r, Key) && n <= |l.columns|
    ensures Carries(LeftJoin(l, r, Key), l, n)
  {
    var j := LeftJoin(l, r, Key);
    LeftJoinPrefix(l, r, Key);
    forall i | 0 <= i < |j.rows|
      ensures n <= |j.rows[i]| && n <= |l.rows[i]| && j.rows[i][..n] == l.rows[i][..n]
    {
      assert |j.rows[i]| == |j.columns| && |l.rows[i]| == |l.columns|;
      assert forall k :: 0 <= k < n ==> j.rows[i][..n][k] == l.rows[i][..n][k];
    }
  }

  lemma MergedWidths()
    ensures |EdStayColumns| == 6 && |Merged1| == 7 && |Merged2| == 8 && |Merged3| == 9 && |Merged4| == 18
  {
  }

  /** One triage row per stay makes `triage_df` keyed by stay. */
  lemma TriageUnique(rs: seq<TriageRecord>)
    requires TriageKeyed(rs)
    ensures UniqueKeys(TriageTable(rs), Key)
  {
    TriageKeys(rs);
  }

  lemma VitalUnique(signs: seq<Sign>)
    ensures UniqueKeys(VitalTable(signs), Key)
  {
    VitalTableKeys(signs);
  }

  /** The first merge keeps one row per visit and its ED-stay cells. */
  lemma DiagnosesMerged(src: Sources)
    ensures Carries(WithDiagnoses(src), EdStayTable(src.visits), 6)
  {
    var l, r := EdStayTable(src.visits), Diagnoses(src);
    Merge1Joinable(src);
    SetReduceUniqueKeys(src.diagnoses, "icd_title", FillEmpty);
    MergedWidths();
    StepKeeps(l, r, 6);
  }

  lemma MedicationsMerged(src: Sources)
    ensures Carries(WithMedications(src), WithDiagnoses(src), 7)
  {
    var l, r := WithDiagnoses(src), Medications(src);
    Merge2Joinable(src);
    SetReduceUniqueKeys(src.medications, "current_med", FillEmpty);
    MergedWidths();
    StepKeeps(l, r, 7);
  }

  lemma DispensationsMerged(src: Sources)
    ensures Carries(WithDispensations(src), WithMedications(src), 8)
  {
    var l, r := WithMedications(src), Dispensations(src);
    Merge3Joinable(src);
    SetReduceUniqueKeys(src.dispensations, "prescription", FillEmpty);
    MergedWidths();
    StepKeeps(l, r, 8);
  }

  lemma TriageMerged(src: Sources)
    requires TriageKeyed(src.triage)
    ensures Carries(WithTriage(src), WithDispensations(src), 9)
  {
    var l, r := WithDispensations(src), TriageTable(src.triage);
    Merge4Joinable(src);
    TriageUnique(src.triage);
    MergedWidths();
    StepKeeps(l, r, 9);
  }

  lemma VitalsMerged(src: Sources)
    ensures Carries(AllTable(src), WithTriage(src), 7)
  {
    var l, r := WithTriage(src), VitalTable(src.signs);
    Merge5Joinable(src);
    VitalUnique(src.signs);
    MergedWidths();
    StepKeeps(l, r, 7);
  }

  /** The four merges after the first keep `df_1`'s rows and first seven cells. */
  lemma LaterMergesCarry(src: Sources)
    requires TriageKeyed(src.triage)
    ensures Carries(AllTable(src), WithDiagnoses(src), 7)
  {
    var all, t4, t3, t2, t1 := AllTable(src), WithTriage(src), WithDispensations(src),
      WithMedications(src), WithDiagnoses(src);
    VitalsMerged(src);
    TriageMerged(src);
    DispensationsMerged(src);
    MedicationsMerged(src);
    CarriesFewer(t3, t2, 8, 7);
    CarriesFewer(t4, t3, 9, 7);
    CarriesTrans(t3, t2, t1, 7);
    CarriesTrans(t4, t3, t1, 7);
    CarriesTrans(all, t4, t1, 7);
  }

  /** A cell in the first seven columns of `df_1` reaches `all_df` unchanged. */
  lemma CarriedCell(src: Sources, i: nat, j: nat)
    requires TriageKeyed(src.triage)
    requires i < |WithDiagnoses(src).rows| && j < 7
    ensures |AllTable(src).rows| == |WithDiagnoses(src).rows|
    ensures AllTable(src).rows[i][j] == WithDiagnoses(src).rows[i][j]
  {
    LaterMergesCarry(src);
    CarriedAt(AllTable(src), WithDiagnoses(src), 7, i, j);
  }

  /** With one triage row per stay, `all_df` has one row per retained visit. */
  lemma AllTableLength(src: Sources)
    requires TriageKeyed(src.triage)
    ensures |AllTable(src).rows| == |WithDiagnoses(src).rows| == |Retain(src.visits)|
  {
    LaterMergesCarry(src);
    DiagnosesMerged(src);
  }

  /** A cell of the ED-stay table reaches `all_df` unchanged. */
  lemma EdStayCellCarried(src: Sources, i: nat, j: nat)
    requires TriageKeyed(src.triage)
    requires i < |Retain(src.visits)| && j < 6
    ensures |AllTable(src).rows| == |Retain(src.visits)|
    ensures AllTable(src).rows[i][j] == EdStayTable(src.visits).rows[i][j]
  {
    AllTableLength(src);
    CarriedCell(src, i, j);
    DiagnosesMerged(src);
    CarriedAt(WithDiagnoses(src), EdStayTable(src.visits), 6, i, j);
  }

  /** With one triage row per stay, every merge keeps one row per retained
      visit, in order, and the ED-stay cells stay where they were. */
  lemma AllTableEdStayCells(src: Sources)
    requires TriageKeyed(src.triage)
    ensures |AllTable(src).rows| == |Retain(src.visits)|
    ensures forall i, j :: 0 <= i < |Retain(src.visits)| && 0 <= j < 6 ==>
      AllTable(src).rows[i][j] == EdStayTable(src.visits).rows[i][j]
  {
    AllTableLength(src);
    forall i, j | 0 <= i < |Retain(src.visits)| && 0 <= j < 6
      ensures AllTable(src).rows[i][j] == EdStayTable(src.visits).rows[i][j]
    {
      EdStayCellCarried(src, i, j);
    }
  }

  /** The diagnosis cell the first merge adds is the one `all_df` holds. */
  lemma AllTableDiagnosisCells(src: Sources)
    requires TriageKeyed(src.triage)
    ensures |AllTable(src).rows| == |Retain(src.visits)|
    ensures forall i :: 0 <= i < |Retain(src.visits)| ==>
      AllTable(src).rows[i][6] == WithDiagnoses(src).rows[i][6]
  {
    AllTableLength(src);
    forall i | 0 <= i < |Retain(src.visits)| ensures AllTable(src).rows[i][6] == WithDiagnoses(src).rows[i][6] {
      CarriedCell(src, i, 6);
    }
  }

  /** Row i of `df_1` is row i of the ED-stay table followed by what the
      diagnosis reducer holds for its stay. */
  lemma DiagnosisRow(src: Sources, i: nat)
    requires i < |EdStayTable(src.visits).rows|
    ensures |WithDiagnoses(src).rows| == |EdStayTable(src.visits).rows|
    ensures WithDiagnoses(src).rows[i] ==
      EdStayTable(src.visits).rows[i] + RightPart(Diagnoses(src), Key, EdStayTable(src.visits).rows[i][1])
  {
    var ed := EdStayTable(src.visits);
    Merge1Joinable(src);
    SetReduceOneRowPerStay(src.diagnoses, "icd_title", FillEmpty);
    LeftJoinKeepsRows(ed, Diagnoses(src), Key);
    assert IndexOf(ed.columns, Key) == 1;
  }

  /** The diagnosis cell `df_1` gives a visit is the one its stay should get. */
  lemma DiagnosisCell(src: Sources, i: nat)
    requires i < |EdStayTable(src.visits).rows|
    ensures |WithDiagnoses(src).rows| == |EdStayTable(src.visits).rows|
    ensures WithDiagnoses(src).rows[i][6] == ReducedValue(src.diagnoses, EdStayTable(src.visits).rows[i][1], FillEmpty)
  {
    var k := EdStayTable(src.visits).rows[i][1];
    DiagnosisRow(src, i);
    SetReducePart(src.diagnoses, "icd_title", FillEmpty, k);
  }

  /** `all_df` after `rename(columns = column_name)`: same rows, readable names. */
  function RenamedAll(src: Sources): (t: Table)
    ensures WellFormed(t) && |t.columns| == |AllColumns| && t.rows == AllTable(src).rows
  {
    RenameColumns(AllTable(src), ColumnNames)
  }

  /** `all_df_1`: the renamed table with the acuity sentences. */
  function NormalisedAll(src: Sources): (t: Table)
    ensures WellFormed(t) && t.columns == RenamedAll(src).columns && |t.rows| == |AllTable(src).rows|
  {
    Normalised(AllTable(src))
  }

  lemma AllColumnsHead()
    ensures AllColumns[..7] == Merged1
  {
    assert Merged2[..7] == Merged1;
    assert Merged3[..7] == Merged1;
    assert Merged4[..7] == Merged1;
  }

  /** The names the renaming gives the columns of `df_1`. */
  const RenamedMerged1: seq<string> :=
    ["subject_id", "stay_id", "gender", "race", "emergency department stay time in hours",
     "disposition", "diagnosis icd title"]

  lemma RenamedPrefix(t: Table)
    requires |t.columns| >= 7 && t.columns[..7] == Merged1
    ensures RenameColumns(t, ColumnNames).columns[..7] == RenamedMerged1
  {
    EdStayNames();
    assert t.columns[0] == "subject_id";
    assert t.columns[1] == "stay_id";
    assert t.columns[2] == "gender";
    assert t.columns[3] == "race";
    assert t.columns[4] == "staytime";
    assert t.columns[5] == "disposition";
    assert t.columns[6] == "icd_title";
  }

  /** The first seven names after the renaming: the identifiers and the label keep
      theirs, the stay time and the diagnosis column get their phrases. */
  lemma RenamedHead(src: Sources)
    ensures |RenamedAll(src).columns| > 6
    ensures RenamedAll(src).columns[..7] == RenamedMerged1
  {
    AllColumnsHead();
    RenamedPrefix(AllTable(src));
  }

  lemma StayIndex(cols: seq<string>)
    requires |cols| > 6 && cols[0] == "subject_id" && cols[1] == "stay_id"
    ensures IndexOf(cols, "stay_id") == 1
  {
    IndexOfFirst(cols, "stay_id", 1);
  }

  lemma LabelIndex(cols: seq<string>)
    requires |cols| > 6 && cols[0] == "subject_id" && cols[1] == "stay_id" && cols[2] == "gender"
    requires cols[3] == "race" && cols[4] == "emergency department stay time in hours" && cols[5] == "disposition"
    ensures IndexOf(cols, "disposition") == 5
  {
    assert "subject_id" != "disposition" && "stay_id" != "disposition" && "gender" != "disposition";
    assert "race" != "disposition" && "emergency department stay time in hours" != "disposition";
    IndexOfFirst(cols, "disposition", 5);
  }

  /** In a table whose first names are those of the renamed `df_1`, the stay is
      column 1 and the label column 5. */
  lemma IdIndices(cols: seq<string>)
    requires |cols| > 6 && cols[..7] == RenamedMerged1
    ensures HasIdColumns(cols)
    ensures IndexOf(cols, "stay_id") == 1 && IndexOf(cols, "disposition") == 5
  {
    RenamedHeadNames(cols);
    LabelIndex(cols);
    StayIndex(cols);
  }

  lemma RenamedHeadNames(cols: seq<string>)
    requires |cols| > 6 && cols[..7] == RenamedMerged1
    ensures cols[0] == "subject_id" && cols[1] == "stay_id" && cols[2] == "gender"
    ensures cols[3] == "race" && cols[4] == "emergency department stay time in hours" && cols[5] == "disposition"
  {
    assert cols[0] == cols[..7][0] && cols[1] == cols[..7][1] && cols[2] == cols[..7][2];
    assert cols[3] == cols[..7][3] && cols[4] == cols[..7][4] && cols[5] == cols[..7][5];
  }

  /** `clinical_text_df`. */
  function ClinicalText(src: Sources): (t: Table)
    ensures WellFormed(t) && t.columns == ["ID", "TEXT", "Label"] && |t.rows| == |AllTable(src).rows|
  {
    RenamedHead(src);
    IdIndices(NormalisedAll(src).columns);
    ClinicalTextTable(NormalisedAll(src))
  }

  lemma AllColumnsIds()
    ensures AllColumns[1] == "stay_id" && AllColumns[5] == "disposition" && AllColumns[6] == "icd_title"
  {
    AllColumnsHead();
    assert AllColumns[1] == AllColumns[..7][1] == "stay_id";
    assert AllColumns[5] == AllColumns[..7][5] == "disposition";
    assert AllColumns[6] == AllColumns[..7][6] == "icd_title";
  }

  /** The acuity replacement leaves the stay and the label of `all_df` alone. */
  lemma NormalisedIdCells(src: Sources, i: nat)
    requires i < |AllTable(src).rows|
    ensures NormalisedAll(src).rows[i][1] == AllTable(src).rows[i][1]
    ensures NormalisedAll(src).rows[i][5] == AllTable(src).rows[i][5]
  {
    NormalisedCell(src, i, 1);
    NormalisedCell(src, i, 5);
  }

  /** A cell of `all_df` outside the acuity column survives the replacement. */
  lemma NormalisedCell(src: Sources, i: nat, j: nat)
    requires i < |AllTable(src).rows| && (j == 1 || j == 5)
    ensures NormalisedAll(src).rows[i][j] == AllTable(src).rows[i][j]
  {
    AllColumnsIds();
    NormalisedKeeps(AllTable(src), i, j);
  }

  /** The stay and label cells of `all_df` are those of the retained visit. */
  lemma AllTableIdCells(src: Sources, i: nat)
    requires TriageKeyed(src.triage) && i < |Retain(src.visits)|
    ensures |AllTable(src).rows| == |Retain(src.visits)|
    ensures AllTable(src).rows[i][1] == Filled(Retain(src.visits)[i].stay, Text(""))
    ensures AllTable(src).rows[i][5] == Num(Label(Retain(src.visits)[i]))
  {
    AllTableStayCell(src, i);
    AllTableLabelCell(src, i);
  }

  lemma AllTableStayCell(src: Sources, i: nat)
    requires TriageKeyed(src.triage) && i < |Retain(src.visits)|
    ensures |AllTable(src).rows| == |Retain(src.visits)|
    ensures AllTable(src).rows[i][1] == Filled(Retain(src.visits)[i].stay, Text(""))
  {
    EdStayStay(src.visits, i);
    EdStayCellCarried(src, i, 1);
  }

  lemma AllTableLabelCell(src: Sources, i: nat)
    requires TriageKeyed(src.triage) && i < |Retain(src.visits)|
    ensures |AllTable(src).rows| == |Retain(src.visits)|
    ensures AllTable(src).rows[i][5] == Num(Label(Retain(src.visits)[i]))
  {
    EdStayLabel(src.visits, i);
    EdStayCellCarried(src, i, 5);
  }

  /** Row i of `clinical_text_df` belongs to the i-th retained visit: its ID is the
      visit's stay, its Label the visit's label (1 for admitted, 0 for home), and
      its TEXT the lower-cased ". "-join of the fragments of `all_df_1`'s row. */
  lemma ClinicalTextRows(src: Sources, i: nat)
    requires TriageKeyed(src.triage) && i < |Retain(src.visits)|
    ensures |ClinicalText(src).rows| == |Retain(src.visits)|
    ensures ClinicalText(src).rows[i][0] == Filled(Retain(src.visits)[i].stay, Text(""))
    ensures ClinicalText(src).rows[i][2] == Num(Label(Retain(src.visits)[i]))
    ensures ClinicalText(src).rows[i][1] ==
      Text(Lower(JoinWith(". ", Fragments(NormalisedAll(src).columns, NormalisedAll(src).rows[i]))))
  {
    var df := NormalisedAll(src);
    AllTableIdCells(src, i);
    NormalisedIdCells(src, i);
    RenamedHead(src);
    IdIndices(df.columns);
    ClinicalTextRow(df, i);
  }

  /** The diagnosis cell of `all_df` for the i-th retained visit. */
  lemma AllDiagnosisCell(src: Sources, i: nat)
    requires TriageKeyed(src.triage) && i < |Retain(src.visits)|
    ensures |AllTable(src).rows| == |Retain(src.visits)|
    ensures AllTable(src).rows[i][6] == ReducedValue(src.diagnoses, Filled(Retain(src.visits)[i].stay, Text("")), FillEmpty)
  {
    AllTableLength(src);
    EdStayRow(src.visits, i);
    CarriedCell(src, i, 6);
    DiagnosisCell(src, i);
  }

  /** The diagnosis cell of `all_df_1` for the i-th retained visit. */
  lemma NormalisedDiagnosisCell(src: Sources, i: nat)
    requires TriageKeyed(src.triage) && i < |Retain(src.visits)|
    ensures |NormalisedAll(src).rows| == |Retain(src.visits)|
    ensures NormalisedAll(src).rows[i][6] == ReducedValue(src.diagnoses, Filled(Retain(src.visits)[i].stay, Text("")), FillEmpty)
  {
    AllDiagnosisCell(src, i);
    AllColumnsIds();
    NormalisedKeeps(AllTable(src), i, 6);
  }

  lemma ShortExcluded()
    ensures forall c :: c in Excluded ==> |c| < 12
  {
  }

  /** `all_df_1` has the identifier columns, and column 6 is the diagnosis. */
  lemma NormalisedHead(src: Sources)
    ensures HasIdColumns(NormalisedAll(src).columns)
    ensures |NormalisedAll(src).columns| > 6 && NormalisedAll(src).columns[6] == "diagnosis icd title"
    ensures NormalisedAll(src).columns[6] !in Excluded
  {
    var cols := NormalisedAll(src).columns;
    RenamedHead(src);
    IdIndices(cols);
    assert cols[6] == cols[..7][6];
    ShortExcluded();
  }

  /** Every visit's text states its diagnoses: "diagnosis icd title : " followed
      by the ", "-join of its distinct titles, or by "nan" when it has none. */
  lemma DiagnosisText(src: Sources, i: nat)
    requires TriageKeyed(src.triage) && i < |Retain(src.visits)|
    ensures |ClinicalText(src).rows| == |Retain(src.visits)|
    ensures ClinicalText(src).rows[i][1].Text?
    ensures Contains(ClinicalText(src).rows[i][1].s,
      Lower(Fragment("diagnosis icd title", ReducedValue(src.diagnoses, Filled(Retain(src.visits)[i].stay, Text("")), FillEmpty))))
  {
    NormalisedDiagnosisCell(src, i);
    NormalisedHead(src);
    TextContainsFragment(NormalisedAll(src), i, 6);
  }

  lemma MissingDiagnosisFragment()
    ensures Lower(Fragment("diagnosis icd title", Missing)) == "diagnosis icd title : nan"
  {
    assert Fragment("diagnosis icd title", Missing) == "diagnosis icd title : nan";
    LowerOfLowerCase("diagnosis icd title : nan");
  }

  /** A visit no diagnosis row names (see `Reducers.ReducedValueMissing`) reads
      "diagnosis icd title : nan". */
  lemma NoDiagnosisText(src: Sources, i: nat)
    requires TriageKeyed(src.triage) && i < |Retain(src.visits)|
    requires ReducedValue(src.diagnoses, Filled(Retain(src.visits)[i].stay, Text("")), FillEmpty) == Missing
    ensures |ClinicalText(src).rows| == |Retain(src.visits)|
    ensures ClinicalText(src).rows[i][1].Text?
    ensures Contains(ClinicalText(src).rows[i][1].s, "diagnosis icd title : nan")
  {
    DiagnosisText(src, i);
    MissingDiagnosisFragment();
  }

  lemma Merged1StayIndex()
    ensures IndexOf(Merged1, Key) == 1
  {
    StayIndex(Merged1);
  }

  lemma Merged2StayIndex()
    ensures IndexOf(Merged2, Key) == 1
  {
    StayIndex(Merged2);
  }

  /** Row i of `df_2` is row i of `df_1` followed by what the medication
      reducer holds for its stay. */
  lemma MedicationRow(src: Sources, i: nat)
    requires i < |WithDiagnoses(src).rows|
    ensures |WithMedications(src).rows| == |WithDiagnoses(src).rows|
    ensures WithMedications(src).rows[i] ==
      WithDiagnoses(src).rows[i] + RightPart(Medications(src), Key, WithDiagnoses(src).rows[i][1])
  {
    var l, r := WithDiagnoses(src), Medications(src);
    Merge2Joinable(src);
    SetReduceUniqueKeys(src.medications, "current_med", FillEmpty);
    LeftJoinKeepsRows(l, r, Key);
    Merged1StayIndex();
  }

  /** Row i of `df_3` is row i of `df_2` followed by what the dispensation
      reducer holds for its stay. */
  lemma PrescriptionRow(src: Sources, i: nat)
    requires i < |WithMedications(src).rows|
    ensures |WithDispensations(src).rows| == |WithMedications(src).rows|
    ensures WithDispensations(src).rows[i] ==
      WithMedications(src).rows[i] + RightPart(Dispensations(src), Key, WithMedications(src).rows[i][1])
  {
    var l, r := WithMedications(src), Dispensations(src);
    Merge3Joinable(src);
    SetReduceUniqueKeys(src.dispensations, "prescription", FillEmpty);
    LeftJoinKeepsRows(l, r, Key);
    Merged2StayIndex();
  }

  /** The stay cell of `df_1` and `df_2` is the retained visit's stay. */
  lemma EarlyStayCells(src: Sources, i: nat)
    requires i < |Retain(src.visits)|
    ensures |WithDiagnoses(src).rows| == |WithMedications(src).rows| == |Retain(src.visits)|
    ensures WithDiagnoses(src).rows[i][1] == Filled(Retain(src.visits)[i].stay, Text(""))
    ensures WithMedications(src).rows[i][1] == Filled(Retain(src.visits)[i].stay, Text(""))
  {
    EdStayStay(src.visits, i);
    DiagnosesMerged(src);
    MedicationsMerged(src);
    CarriedAt(WithDiagnoses(src), EdStayTable(src.visits), 6, i, 1);
    CarriedAt(WithMedications(src), WithDiagnoses(src), 7, i, 1);
  }

  /** The medication cell `df_2` gives the i-th retained visit: the ", "-join of
      its stay's distinct lower-cased medicines, or NaN when no row names it. */
  lemma MedicationCell(src: Sources, i: nat)
    requires i < |Retain(src.visits)|
    ensures |WithMedications(src).rows| == |Retain(src.visits)|
    ensures WithMedications(src).rows[i][7] ==
      ReducedValue(src.medications, Filled(Retain(src.visits)[i].stay, Text("")), FillEmpty)
  {
    var k := Filled(Retain(src.visits)[i].stay, Text(""));
    EarlyStayCells(src, i);
    MedicationRow(src, i);
    SetReducePart(src.medications, "current_med", FillEmpty, k);
    MergedWidths();
  }

  /** The prescription cell `df_3` gives the i-th retained visit: the ", "-join
      of its stay's distinct lower-cased dispensed medicines, or NaN. */
  lemma PrescriptionCell(src: Sources, i: nat)
    requires i < |Retain(src.visits)|
    ensures |WithDispensations(src).rows| == |Retain(src.visits)|
    ensures WithDispensations(src).rows[i][8] ==
      ReducedValue(src.dispensations, Filled(Retain(src.visits)[i].stay, Text("")), FillEmpty)
  {
    var k := Filled(Retain(src.visits)[i].stay, Text(""));
    EarlyStayCells(src, i);
    PrescriptionRow(src, i);
    SetReducePart(src.dispensations, "prescription", FillEmpty, k);
    MergedWidths();
  }

  /** Cells 7 and 8 of `df_3` reach `all_df` unchanged. */
  lemma ReducerCellsCarried(src: Sources, i: nat, j: nat)
    requires TriageKeyed(src.triage) && i < |WithDispensations(src).rows| && (j == 7 || j == 8)
    ensures |AllTable(src).rows| == |WithDispensations(src).rows|
    ensures AllTable(src).rows[i][j] == WithDispensations(src).rows[i][j]
  {
    TriageMerged(src);
    CarriedAt(WithTriage(src), WithDispensations(src), 9, i, j);
    MergedWidths();
    TriageCellCarried(src, i, j);
  }

  /** The medication cell of `all_df` for the i-th retained visit. */
  lemma AllMedicationCell(src: Sources, i: nat)
    requires TriageKeyed(src.triage) && i < |Retain(src.visits)|
    ensures |AllTable(src).rows| == |Retain(src.visits)|
    ensures AllTable(src).rows[i][7] ==
      ReducedValue(src.medications, Filled(Retain(src.visits)[i].stay, Text("")), FillEmpty)
  {
    MedicationCell(src, i);
    DispensationsMerged(src);
    CarriedAt(WithDispensations(src), WithMedications(src), 8, i, 7);
    ReducerCellsCarried(src, i, 7);
  }

  /** The prescription cell of `all_df` for the i-th retained visit. */
  lemma AllPrescriptionCell(src: Sources, i: nat)
    requires TriageKeyed(src.triage) && i < |Retain(src.visits)|
    ensures |AllTable(src).rows| == |Retain(src.visits)|
    ensures AllTable(src).rows[i][8] ==
      ReducedValue(src.dispensations, Filled(Retain(src.visits)[i].stay, Text("")), FillEmpty)
  {
    PrescriptionCell(src, i);
    ReducerCellsCarried(src, i, 8);
  }

  /** Columns 7 and 8 of `all_df` are the medication lists. */
  lemma AllColumnsReducers()
    ensures AllColumns[7] == "current_med" && AllColumns[8] == "prescription"
  {
    MergedWidths();
    assert AllColumns[7] == Merged3[7];
    assert AllColumns[8] == Merged3[8];
  }

  /** In `all_df_1` columns 7 and 8 are called "current medication" and
      "prescription", and the text step drops neither. */
  lemma NormalisedReducerColumns(src: Sources)
    ensures |NormalisedAll(src).columns| > 8
    ensures NormalisedAll(src).columns[7] == "current medication"
    ensures NormalisedAll(src).columns[8] == "prescription"
    ensures "current medication" !in Excluded && "prescription" !in Excluded
  {
    AllColumnsReducers();
    MedicationNames();
    ReducerNamesNotExcluded();
    assert RenamedAll(src).columns[7] == Renamed(AllColumns[7], ColumnNames);
    assert RenamedAll(src).columns[8] == Renamed(AllColumns[8], ColumnNames);
  }

  lemma ReducerNamesNotExcluded()
    ensures "current medication" !in Excluded && "prescription" !in Excluded
  {
    assert forall c :: c in Excluded ==> 6 < |c| < 12;
  }

  /** A visit's medication and prescription cells in `all_df_1`. */
  lemma NormalisedReducerCells(src: Sources, i: nat)
    requires TriageKeyed(src.triage) && i < |Retain(src.visits)|
    ensures |NormalisedAll(src).rows| == |Retain(src.visits)|
    ensures NormalisedAll(src).rows[i][7] ==
      ReducedValue(src.medications, Filled(Retain(src.visits)[i].stay, Text("")), FillEmpty)
    ensures NormalisedAll(src).rows[i][8] ==
      ReducedValue(src.dispensations, Filled(Retain(src.visits)[i].stay, Text("")), FillEmpty)
  {
    AllMedicationCell(src, i);
    AllPrescriptionCell(src, i);
    AllColumnsReducers();
    NormalisedKeeps(AllTable(src), i, 7);
    NormalisedKeeps(AllTable(src), i, 8);
  }

  /** Every visit's text states its current medicines: "current medication : "
      followed by the ", "-join of their distinct lower-cased names, or by
      "nan" when no medication row names the stay. */
  lemma MedicationText(src: Sources, i: nat)
    requires TriageKeyed(src.triage) && i < |Retain(src.visits)|
    ensures |ClinicalText(src).rows| == |Retain(src.visits)|
    ensures ClinicalText(src).rows[i][1].Text?
    ensures Contains(ClinicalText(src).rows[i][1].s,
      Lower(Fragment("current medication",
        ReducedValue(src.medications, Filled(Retain(src.visits)[i].stay, Text("")), FillEmpty))))
  {
    NormalisedReducerCells(src, i);
    NormalisedReducerColumns(src);
    NormalisedHead(src);
    TextContainsFragment(NormalisedAll(src), i, 7);
  }

  /** Every visit's text states its dispensed medicines in the same way, under
      "prescription". */
  lemma PrescriptionText(src: Sources, i: nat)
    requires TriageKeyed(src.triage) && i < |Retain(src.visits)|
    ensures |ClinicalText(src).rows| == |Retain(src.visits)|
    ensures ClinicalText(src).rows[i][1].Text?
    ensures Contains(ClinicalText(src).rows[i][1].s,
      Lower(Fragment("prescription",
        ReducedValue(src.dispensations, Filled(Retain(src.visits)[i].stay, Text("")), FillEmpty))))
  {
    NormalisedReducerCells(src, i);
    NormalisedReducerColumns(src);
    NormalisedHead(src);
    TextContainsFragment(NormalisedAll(src), i, 8);
  }

  /** The identifier and label columns mention neither a maximum nor a minimum. */
  lemma IdColumnsNotVital()
    ensures !IsVitalColumn("stay_id") && !IsVitalColumn("subject_id") && !IsVitalColumn("disposition")
  {
    MissingCharNotContains("stay_id", "maximum", 0);
    MissingCharNotContains("stay_id", "minimum", 0);
    MissingCharNotContains("subject_id", "maximum", 0);
    MissingCharNotContains("subject_id", "minimum", 0);
    MissingCharNotContains("disposition", "maximum", 0);
    MissingCharNotContains("disposition", "minimum", 0);
  }

  /** `all_but_vital`: the renamed `all_df` (raw acuity levels, since the
      replacement went into `all_df_1`) without its maximum/minimum columns. */
  function NoVitalTable(src: Sources): (t: Table)
    ensures WellFormed(t) && |t.rows| == |AllTable(src).rows|
    ensures HasIdColumns(t.columns)
    ensures forall c :: c in t.columns <==> c in RenamedAll(src).columns && !IsVitalColumn(c)
  {
    var cols := RenamedAll(src).columns;
    RenamedHead(src);
    IdIndices(cols);
    IdColumnsNotVital();
    DropVitalColumns(RenamedAll(src))
  }

  /** `clinical_no_vital_df` before the vectors are merged in. */
  function NoVitalText(src: Sources): (t: Table)
    ensures WellFormed(t) && t.columns == ["ID", "TEXT", "Label"] && |t.rows| == |AllTable(src).rows|
  {
    ClinicalTextTable(NoVitalTable(src))
  }

  /** Dropping the vital columns keeps the stay and label of every row. */
  lemma NoVitalIdCells(src: Sources, i: nat)
    requires i < |AllTable(src).rows|
    ensures var t := NoVitalTable(src);
      && t.rows[i][IndexOf(t.columns, "stay_id")] == AllTable(src).rows[i][1]
      && t.rows[i][IndexOf(t.columns, "disposition")] == AllTable(src).rows[i][5]
  {
    var r := RenamedAll(src);
    var names := VitalColumnNames(r.columns);
    RenamedHead(src);
    IdIndices(r.columns);
    IdColumnsNotVital();
    DropKeepsColumn(r, names, "stay_id");
    DropKeepsColumn(r, names, "disposition");
  }

  /** Row i of the vitals-free text belongs to the i-th retained visit: its ID is
      the visit's stay, its Label the visit's label, and its TEXT the lower-cased
      ". "-join of the fragments of the columns that are neither vital extremes
      nor identifiers. */
  lemma NoVitalTextRows(src: Sources, i: nat)
    requires TriageKeyed(src.triage) && i < |Retain(src.visits)|
    ensures |NoVitalText(src).rows| == |Retain(src.visits)|
    ensures NoVitalText(src).rows[i][0] == Filled(Retain(src.visits)[i].stay, Text(""))
    ensures NoVitalText(src).rows[i][2] == Num(Label(Retain(src.visits)[i]))
    ensures NoVitalText(src).rows[i][1] ==
      Text(Lower(JoinWith(". ", Fragments(NoVitalTable(src).columns, NoVitalTable(src).rows[i]))))
  {
    AllTableIdCells(src, i);
    NoVitalIdCells(src, i);
    ClinicalTextRow(NoVitalTable(src), i);
  }

  lemma VectorsJoinable(l: Table, signs: seq<Sign>)
    requires WellFormed(l) && l.columns == ["ID", "TEXT", "Label"]
    ensures Joinable(l, VectorTable(signs), "ID")
    ensures RightColumns(VectorTable(signs), "ID") == ["vitals"]
  {
    KeyedRightColumns(VectorTable(signs), "ID", ["vitals"]);
  }

  /** `pd.merge(text_df, vitals, on = 'ID', how = 'left')`. */
  function WithVectors(l: Table, signs: seq<Sign>): (t: Table)
    requires WellFormed(l) && l.columns == ["ID", "TEXT", "Label"]
    ensures WellFormed(t) && t.columns == ["ID", "TEXT", "Label", "vitals"]
  {
    VectorsJoinable(l, signs);
    LeftJoin(l, VectorTable(signs), "ID")
  }

  /** The merge keeps every text row, in order, and appends the stay's vital
      vector, or NaN when the stay has no vital-sign rows. */
  lemma WithVectorsRows(l: Table, signs: seq<Sign>, i: nat)
    requires WellFormed(l) && l.columns == ["ID", "TEXT", "Label"] && i < |l.rows|
    ensures |WithVectors(l, signs).rows| == |l.rows|
    ensures WithVectors(l, signs).rows[i] == l.rows[i] +
      [if l.rows[i][0] in VitalStays(signs) then Vector(VitalVector(signs, l.rows[i][0])) else Missing]
  {
    VectorsJoinable(l, signs);
    VectorTableKeys(signs);
    LeftJoinKeepsRows(l, VectorTable(signs), "ID");
    assert IndexOf(l.columns, "ID") == 0;
    VectorPart(signs, l.rows[i][0]);
  }

  /** What the merge appends for stay `id`: its vector, or NaN. */
  lemma VectorPart(signs: seq<Sign>, id: Value)
    ensures RightPart(VectorTable(signs), "ID", id) ==
      [if id in VitalStays(signs) then Vector(VitalVector(signs, id)) else Missing]
  {
    var r := VectorTable(signs);
    KeyedRightColumns(r, "ID", ["vitals"]);
    VectorTableKeys(signs);
    var stays := VitalStays(signs);
    if id in stays {
      var j :| 0 <= j < |stays| && stays[j] == id;
      RightPartOfRow(r, "ID", j);
      assert RemoveAt(r.rows[j], 0) == [r.rows[j][1]];
    } else {
      RightPartMissing(r, "ID", id);
    }
  }

  lemma WithVectorsCells(l: Table, signs: seq<Sign>, i: nat)
    requires WellFormed(l) && l.columns == ["ID", "TEXT", "Label"] && i < |l.rows|
    ensures |WithVectors(l, signs).rows| == |l.rows|
    ensures WithVectors(l, signs).rows[i][0] == l.rows[i][0]
    ensures WithVectors(l, signs).rows[i][2] == l.rows[i][2]
    ensures WithVectors(l, signs).rows[i][3] ==
      (if l.rows[i][0] in VitalStays(signs) then Vector(VitalVector(signs, l.rows[i][0])) else Missing)
  {
    WithVectorsRows(l, signs, i);
  }

  /** `clinical_no_vital_df` after the vectors are merged in. */
  function Output(src: Sources): (t: Table)
    ensures WellFormed(t) && t.columns == ["ID", "TEXT", "Label", "vitals"]
  {
    WithVectors(NoVitalText(src), src.signs)
  }

  /** Each output row pairs a retained visit's stay, vitals-free text and label
      with the 12-entry vector of its extreme vital signs (NaN without readings). */
  lemma OutputVisit(src: Sources, i: nat)
    requires TriageKeyed(src.triage) && i < |Retain(src.visits)|
    ensures |Output(src).rows| == |Retain(src.visits)|
    ensures var v := Retain(src.visits)[i];
      var id := Filled(v.stay, Text(""));
      && Output(src).rows[i][0] == id
      && Output(src).rows[i][2] == Num(Label(v))
      && Output(src).rows[i][3] ==
        (if id in VitalStays(src.signs) then Vector(VitalVector(src.signs, id)) else Missing)
  {
    NoVitalTextRows(src, i);
    WithVectorsCells(NoVitalText(src), src.signs, i);
  }

  /** `all_df`'s acuity column is column 16, the first name starting with 'a'. */
  lemma AllColumnsAcuity()
    ensures |AllColumns| > 16 && AllColumns[16] == Acuity && IndexOf(AllColumns, Acuity) == 16
  {
    assert Merged4[16] == TriageOwnColumns[7] == "acuity";
    assert CharNotAt(Merged3, 0, 'a') && CharNotAt(TriageVitalColumns, 0, 'a');
    CharNotAtAppend(Merged3, TriageVitalColumns, 0, 'a');
    var front := Merged3 + TriageVitalColumns;
    assert forall j :: 0 <= j < 16 ==> AllColumns[j] == front[j];
    assert forall j :: 0 <= j < 16 ==> AllColumns[j][0] != Acuity[0];
    IndexOfFirst(AllColumns, Acuity, 16);
  }

  lemma AcuityNotVital()
    ensures !IsVitalColumn(Acuity)
  {
    MissingCharNotContains("acuity", "maximum", 0);
    MissingCharNotContains("acuity", "minimum", 0);
  }

  /** `all_df_1`, which feeds the clinical text, holds the ESI sentence where
      `all_df` holds an acuity level. */
  lemma ReplacedAcuity(src: Sources, i: nat)
    requires i < |AllTable(src).rows|
    ensures Acuity in NormalisedAll(src).columns
    ensures ColumnValues(NormalisedAll(src), Acuity)[i] == AcuityCell(AllTable(src).rows[i][16])
  {
    AllColumnsAcuity();
    RenamedAcuityIndex(AllTable(src));
    NormalisedReplaces(AllTable(src), i, 16);
  }

  /** The vitals-free text is built from the renamed `all_df`, so its acuity
      cells are the raw levels, not the ESI sentences. */
  lemma RawAcuity(src: Sources, i: nat)
    requires i < |AllTable(src).rows|
    ensures Acuity in NoVitalTable(src).columns
    ensures ColumnValues(NoVitalTable(src), Acuity)[i] == AllTable(src).rows[i][16]
  {
    var r := RenamedAll(src);
    AllColumnsAcuity();
    RenamedAcuityIndex(AllTable(src));
    AcuityNotVital();
    DropKeepsColumn(r, VitalColumnNames(r.columns), Acuity);
  }

  /** The last merge keeps every cell of `df_4`. */
  lemma TriageCellCarried(src: Sources, i: nat, j: nat)
    requires i < |WithTriage(src).rows| && j < |Merged4|
    ensures |AllTable(src).rows| == |WithTriage(src).rows|
    ensures AllTable(src).rows[i][j] == WithTriage(src).rows[i][j]
  {
    Merge5Joinable(src);
    VitalTableKeys(src.signs);
    LeftJoinPrefix(WithTriage(src), VitalTable(src.signs), Key);
  }

  lemma Merged4StayIndex()
    ensures IndexOf(Merged4, Key) == 1
  {
    Merged3StayIndex();
    IndexOfAppend(Merged3, TriageOwnColumns, Key);
  }

  /** Row i of `all_df` ends with what `vital_df` holds for the stay of row i
      of `df_4`, or NaN throughout when the vital-sign table has no row for it. */
  lemma AllTableVitalPart(src: Sources, i: nat)
    requires i < |WithTriage(src).rows|
    ensures |AllTable(src).rows| == |WithTriage(src).rows|
    ensures |AllTable(src).rows[i]| == |Merged4| + |VitalOwnColumns|
    ensures AllTable(src).rows[i][|Merged4|..] == VitalAppended(src.signs, WithTriage(src).rows[i][1])
  {
    var l, r := WithTriage(src), VitalTable(src.signs);
    Merge5Joinable(src);
    VitalUnique(src.signs);
    Merged4StayIndex();
    LeftJoinKeepsRows(l, r, Key);
    VitalPart(src.signs, l.rows[i][1]);
    assert (l.rows[i] + RightPart(r, Key, l.rows[i][1]))[|Merged4|..] == RightPart(r, Key, l.rows[i][1]);
  }

  /** A visit's vital columns in `all_df` hold its stay's extremes, rhythm set
      and pain set, NaN filled with '', or NaN throughout when the vital-sign
      table has no row for the stay. */
  lemma VisitVitalCells(src: Sources, i: nat)
    requires TriageKeyed(src.triage) && i < |Retain(src.visits)|
    ensures |AllTable(src).rows| == |Retain(src.visits)|
    ensures |AllTable(src).rows[i]| == |Merged4| + |VitalOwnColumns|
    ensures AllTable(src).rows[i][|Merged4|..] == VitalAppended(src.signs, Filled(Retain(src.visits)[i].stay, Text("")))
  {
    AllTableStayCell(src, i);
    MergedWidths();
    TriageCellCarried(src, i, 1);
    AllTableVitalPart(src, i);
  }

  /** The rhythm and pain columns close `all_df`. */
  lemma AllColumnsSets()
    ensures |AllColumns| == 32 && AllColumns[30] == "rhythm" && AllColumns[31] == "pain"
  {
    MergedWidths();
    assert AllColumns[30] == VitalOwnColumns[12];
    assert AllColumns[31] == VitalOwnColumns[13];
  }

  /** In `all_df_1` the rhythm column is called "heart rhythm" and the pain column
      "pain", and the text step drops neither. */
  lemma NormalisedSetColumns(src: Sources)
    ensures |NormalisedAll(src).columns| == 32
    ensures NormalisedAll(src).columns[30] == "heart rhythm" && NormalisedAll(src).columns[31] == "pain"
    ensures "heart rhythm" !in Excluded && "pain" !in Excluded
  {
    AllColumnsSets();
    VitalSetNames();
    SetNamesNotExcluded();
    assert RenamedAll(src).columns[30] == Renamed(AllColumns[30], ColumnNames);
    assert RenamedAll(src).columns[31] == Renamed(AllColumns[31], ColumnNames);
  }

  lemma SetNamesNotExcluded()
    ensures "heart rhythm" !in Excluded && "pain" !in Excluded
  {
    assert forall c :: c in Excluded ==> 6 < |c| < 12;
  }

  /** A visit's rhythm and pain cells in `all_df_1`. */
  lemma NormalisedSetCells(src: Sources, i: nat)
    requires TriageKeyed(src.triage) && i < |Retain(src.visits)|
    ensures |NormalisedAll(src).rows| == |Retain(src.visits)|
    ensures NormalisedAll(src).rows[i][30] == RhythmCell(src.signs, Filled(Retain(src.visits)[i].stay, Text("")))
    ensures NormalisedAll(src).rows[i][31] == PainCell(src.signs, Filled(Retain(src.visits)[i].stay, Text("")))
  {
    var k := Filled(Retain(src.visits)[i].stay, Text(""));
    VisitVitalCells(src, i);
    AppendedSets(src.signs, k);
    AllColumnsSets();
    MergedWidths();
    assert AllTable(src).rows[i][30] == AllTable(src).rows[i][|Merged4|..][12];
    assert AllTable(src).rows[i][31] == AllTable(src).rows[i][|Merged4|..][13];
    NormalisedKeeps(AllTable(src), i, 30);
    NormalisedKeeps(AllTable(src), i, 31);
  }

  /** Every visit's text states its heart rhythms: "heart rhythm : " followed by
      the ", "-join of its distinct lower-cased rhythms, by nothing when its
      vital rows record none, or by "nan" when it has no vital rows. */
  lemma RhythmText(src: Sources, i: nat)
    requires TriageKeyed(src.triage) && i < |Retain(src.visits)|
    ensures |ClinicalText(src).rows| == |Retain(src.visits)|
    ensures ClinicalText(src).rows[i][1].Text?
    ensures Contains(ClinicalText(src).rows[i][1].s,
      Lower(Fragment("heart rhythm", RhythmCell(src.signs, Filled(Retain(src.visits)[i].stay, Text(""))))))
  {
    NormalisedSetCells(src, i);
    NormalisedSetColumns(src);
    NormalisedHead(src);
    TextContainsFragment(NormalisedAll(src), i, 30);
  }

  /** Every visit's text states its pain scores in the same way, under "pain". */
  lemma PainText(src: Sources, i: nat)
    requires TriageKeyed(src.triage) && i < |Retain(src.visits)|
    ensures |ClinicalText(src).rows| == |Retain(src.visits)|
    ensures ClinicalText(src).rows[i][1].Text?
    ensures Contains(ClinicalText(src).rows[i][1].s,
      Lower(Fragment("pain", PainCell(src.signs, Filled(Retain(src.visits)[i].stay, Text(""))))))
  {
    NormalisedSetCells(src, i);
    NormalisedSetColumns(src);
    NormalisedHead(src);
    TextContainsFragment(NormalisedAll(src), i, 31);
  }

  lemma Merged3StayIndex()
    ensures IndexOf(Merged3, Key) == 1
  {
    StayIndex(Merged3);
  }

  /** Row i of `df_4` is row i of `df_3` followed by what the triage table holds
      for its stay. */
  lemma TriageRowPart(src: Sources, i: nat)
    requires TriageKeyed(src.triage) && i < |WithDispensations(src).rows|
    ensures |WithTriage(src).rows| == |WithDispensations(src).rows|
    ensures WithTriage(src).rows[i] ==
      WithDispensations(src).rows[i] + RightPart(TriageTable(src.triage), Key, WithDispensations(src).rows[i][1])
  {
    var l, r := WithDispensations(src), TriageTable(src.triage);
    Merge4Joinable(src);
    TriageKeys(src.triage);
    LeftJoinKeepsRows(l, r, Key);
    Merged3StayIndex();
    assert LeftJoin(l, r, Key).rows[i] == l.rows[i] + RightPart(r, Key, l.rows[i][IndexOf(l.columns, Key)]);
  }

  /** For a stay with triage row j, the triage part of the merge carries that
      row's acuity (NaN filled with '') at position 7. */
  lemma TriageAcuityPart(rs: seq<TriageRecord>, j: nat)
    requires TriageKeyed(rs) && j < |rs|
    ensures |RightPart(TriageTable(rs), Key, rs[j].stay)| == 9
    ensures RightPart(TriageTable(rs), Key, rs[j].stay)[7] == Filled(rs[j].acuity, Text(""))
  {
    var t := TriageTable(rs);
    TriageKeys(rs);
    KeyedRightColumns(t, Key, TriageOwnColumns);
    RightPartOfRow(t, Key, j);
    TriageRow(rs, j);
    assert RemoveAt(t.rows[j], 0)[7] == t.rows[j][8];
  }

  /** `df_3` keeps the ED-stay rows and their cells. */
  lemma DispensationsEdStayCell(src: Sources, i: nat, j: nat)
    requires i < |Retain(src.visits)| && j < 6
    ensures |WithDispensations(src).rows| == |Retain(src.visits)|
    ensures WithDispensations(src).rows[i][j] == EdStayTable(src.visits).rows[i][j]
  {
    var t3, t2, t1, ed := WithDispensations(src), WithMedications(src), WithDiagnoses(src), EdStayTable(src.visits);
    DiagnosesMerged(src);
    MedicationsMerged(src);
    DispensationsMerged(src);
    CarriesFewer(t3, t2, 8, 7);
    CarriesTrans(t3, t2, t1, 7);
    CarriedAt(t3, t1, 7, i, j);
    CarriedAt(t1, ed, 6, i, j);
  }

  /** The stay cell of `df_3` is the retained visit's stay. */
  lemma DispensationsStayCell(src: Sources, i: nat)
    requires i < |Retain(src.visits)|
    ensures |WithDispensations(src).rows| == |Retain(src.visits)|
    ensures WithDispensations(src).rows[i][1] == Filled(Retain(src.visits)[i].stay, Text(""))
  {
    DispensationsEdStayCell(src, i, 1);
    EdStayStay(src.visits, i);
  }

  /** A visit whose stay has triage row j gets that row's acuity in `df_4`. */
  lemma TriageAcuityCell(src: Sources, i: nat, j: nat)
    requires TriageKeyed(src.triage) && i < |Retain(src.visits)| && j < |src.triage|
    requires src.triage[j].stay == Filled(Retain(src.visits)[i].stay, Text(""))
    ensures |WithTriage(src).rows| == |Retain(src.visits)|
    ensures WithTriage(src).rows[i][16] == Filled(src.triage[j].acuity, Text(""))
  {
    DispensationsStayCell(src, i);
    TriageRowPart(src, i);
    TriageAcuityPart(src.triage, j);
    MergedWidths();
  }

  /** A visit whose stay has triage row j gets that row's acuity in `all_df`. */
  lemma VisitAcuityCell(src: Sources, i: nat, j: nat)
    requires TriageKeyed(src.triage) && i < |Retain(src.visits)| && j < |src.triage|
    requires src.triage[j].stay == Filled(Retain(src.visits)[i].stay, Text(""))
    ensures |AllTable(src).rows| == |Retain(src.visits)|
    ensures AllTable(src).rows[i][16] == Filled(src.triage[j].acuity, Text(""))
  {
    TriageAcuityCell(src, i, j);
    TriageCellCarried(src, i, 16);
  }

  /** The acuity column of `all_df_1` is described under its own name. */
  lemma NormalisedAcuityColumn(src: Sources)
    ensures |NormalisedAll(src).columns| > 16 && NormalisedAll(src).columns[16] == Acuity
  {
    AllColumnsAcuity();
    RenameKeepsAcuity(Acuity);
    assert RenamedAll(src).columns[16] == Renamed(AllColumns[16], ColumnNames);
  }

  /** The text step drops no column called `acuity`. */
  lemma AcuityNotExcluded()
    ensures Acuity !in Excluded
  {
    assert forall c :: c in Excluded ==> |c| > 6;
  }

  /** In `all_df_1`, a visit whose triage row gives ESI level k (1 to 5) holds
      that level's sentence in the acuity column. */
  lemma NormalisedAcuityCell(src: Sources, i: nat, j: nat, k: int)
    requires TriageKeyed(src.triage) && i < |Retain(src.visits)| && j < |src.triage|
    requires src.triage[j].stay == Filled(Retain(src.visits)[i].stay, Text(""))
    requires src.triage[j].acuity == Num(k) && 1 <= k <= 5
    ensures |NormalisedAll(src).rows| == |Retain(src.visits)|
    ensures NormalisedAll(src).rows[i][16] == Text(AcuitySentence(k).value)
  {
    VisitAcuityCell(src, i, j);
    AllColumnsAcuity();
    NormalisedReplaces(AllTable(src), i, 16);
  }

  /** A visit whose triage row gives ESI level k (1 to 5) has the fragment
      "acuity : " followed by the level's sentence in its clinical text. */
  lemma AcuityText(src: Sources, i: nat, j: nat, k: int)
    requires TriageKeyed(src.triage) && i < |Retain(src.visits)| && j < |src.triage|
    requires src.triage[j].stay == Filled(Retain(src.visits)[i].stay, Text(""))
    requires src.triage[j].acuity == Num(k) && 1 <= k <= 5
    ensures |ClinicalText(src).rows| == |Retain(src.visits)|
    ensures ClinicalText(src).rows[i][1].Text?
    ensures Contains(ClinicalText(src).rows[i][1].s, Lower(Fragment(Acuity, Text(AcuitySentence(k).value))))
  {
    NormalisedAcuityCell(src, i, j, k);
    NormalisedAcuityColumn(src);
    AcuityNotExcluded();
    NormalisedHead(src);
    TextContainsFragment(NormalisedAll(src), i, 16);
  }

}
