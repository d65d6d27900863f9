/** Readable column names and the acuity sentences applied to the merged table. */
module Normalise {
  import opened Strings
  import opened Frames

  /** `column_name`: raw column name to the phrase the text uses. */
  const ColumnNames: map<string, string> := map[
    "staytime" := "emergency department stay time in hours",
    "icd_title" := "diagnosis icd title",
    "current_med" := "current medication",
    "triage_temperature" := "temperature at triage",
    "triage_heartrate" := "heartrate at triage",
    "triage_resprate" := "respiratory rate at triage",
    "triage_o2sat" := "oxygen saturation at triage",
    "triage_sbp" := "sbp at triage",
    "triage_dbp" := "dbp at triage",
    "triage_pain" := "pain level at triage",
    "max_temperature" := "maximum temperature",
    "max_heartrate" := "maximum heartrate",
    "max_resprate" := "maximum respiratory rate",
    "max_o2sat" := "maximum oxygen saturation",
    "max_sbp" := "maximum sbp",
    "max_dbp" := "maximum dbp",
    "min_temperature" := "minimum temperature",
    "min_heartrate" := "minimum heartrate",
    "min_resprate" := "minimum respiratory rate",
    "min_o2sat" := "minimum oxygen saturation",
    "min_sbp" := "minimum sbp",
    "min_dbp" := "minimum dbp",
    "rhythm" := "heart rhythm"]

  /** The acuity column keeps its name through the renaming. */
  const Acuity: string := "acuity"

  /** What `acuity_dict` says after "esi k, " for ESI level k. The words are
      kept as the dictionary has them, misspellings included. */
  function AcuityDescription(k: int): string
    requires 1 <= k <= 5
  {
    if k == 1 then "triage process stops, patient taken directly to a room and imeediate physician intervention requrested"
    else if k == 2 then "triage nurse notifies resource nurse and appropriate placement tbd"
    else if k == 3 then "patient requires two or more resources"
    else if k == 4 then "patient requires one resource"
    else "patient not requires any resource"
  }

  /** `acuity_dict`: the sentence for ESI level `k` (keys 1.0 to 5.0), None for any other value. */
  function AcuitySentence(k: int): (s: Option<string>)
    ensures s.Some? <==> 1 <= k <= 5
    ensures s.Some? ==> |s.value| > 6 && s.value[..4] == "esi " && s.value[4] == DigitChar(k) && s.value[5] == ','
  {
    if 1 <= k <= 5 then Some("esi " + [DigitChar(k)] + ", " + AcuityDescription(k)) else None
  }

  /** Different levels get different sentences, so the replacement loses nothing. */
  lemma AcuitySentencesDistinct(a: int, b: int)
    requires AcuitySentence(a).Some? && AcuitySentence(b).Some?
    requires AcuitySentence(a) == AcuitySentence(b)
    ensures a == b
  {
    assert DigitChar(a) == AcuitySentence(a).value[4] == DigitChar(b);
  }

  /** `replace` on one acuity cell: a level 1-5 becomes its sentence; anything
      else (a blank, NaN from the merge, another number) is kept. */
  function AcuityCell(v: Value): (r: Value)
    ensures r != v <==> v.Num? && 1 <= v.n <= 5
    ensures v.Num? && 1 <= v.n <= 5 ==> r == Text(AcuitySentence(v.n).value)
  {
    match v
    case Num(k) => if 1 <= k <= 5 then Text(AcuitySentence(k).value) else v
    case _ => v
  }

  /** `replace({'acuity' : acuity_dict})`: only cells of a column named acuity may change. */
  function ReplaceAcuity(t: Table): (r: Table)
    requires WellFormed(t)
    ensures WellFormed(r) && r.columns == t.columns && |r.rows| == |t.rows|
    ensures forall i, j :: 0 <= i < |t.rows| && 0 <= j < |t.columns| && t.columns[j] != Acuity ==>
      r.rows[i][j] == t.rows[i][j]
    ensures forall i, j :: 0 <= i < |t.rows| && 0 <= j < |t.columns| && t.columns[j] == Acuity ==>
      r.rows[i][j] == AcuityCell(t.rows[i][j])
  {
    Table(t.columns, seq(|t.rows|, i requires 0 <= i < |t.rows| =>
      seq(|t.rows[i]|, j requires 0 <= j < |t.rows[i]| =>
        if t.columns[j] == Acuity then AcuityCell(t.rows[i][j]) else t.rows[i][j])))
  }

  /** Replacing twice is replacing once: a sentence is not a level. */
  lemma ReplaceAcuityIdempotent(t: Table)
    requires WellFormed(t)
    ensures ReplaceAcuity(ReplaceAcuity(t)) == ReplaceAcuity(t)
  {
    var r := ReplaceAcuity(t);
    var rr := ReplaceAcuity(r);
    forall i | 0 <= i < |t.rows| ensures rr.rows[i] == r.rows[i] {
      forall j | 0 <= j < |t.columns| ensures rr.rows[i][j] == r.rows[i][j] {
        if t.columns[j] == Acuity {
          assert AcuityCell(AcuityCell(t.rows[i][j])) == AcuityCell(t.rows[i][j]);
        }
      }
    }
  }

  /** No raw name is renamed to "acuity", and "acuity" itself is not renamed. */
  lemma RenameKeepsAcuity(c: string)
    ensures Renamed(c, ColumnNames) == Acuity <==> c == Acuity
  {
    NoNameRenamedToAcuity();
    AcuityNameKept();
  }

  lemma NoNameRenamedToAcuity() ensures forall k :: k in ColumnNames ==> |ColumnNames[k]| != 6 {}
  lemma AcuityNameKept() ensures Acuity !in ColumnNames {}

  /** The identifier, demographic and label columns keep their names; the stay
      time and the diagnosis title get their phrases. */
  lemma EdStayNames()
    ensures Renamed("subject_id", ColumnNames) == "subject_id" && Renamed("stay_id", ColumnNames) == "stay_id"
    ensures Renamed("gender", ColumnNames) == "gender" && Renamed("race", ColumnNames) == "race"
    ensures Renamed("disposition", ColumnNames) == "disposition"
    ensures Renamed("staytime", ColumnNames) == "emergency department stay time in hours"
    ensures Renamed("icd_title", ColumnNames) == "diagnosis icd title"
  {
    SubjectNameKept();
    StayNameKept();
    GenderNameKept();
    RaceNameKept();
    LabelNameKept();
  }

  lemma SubjectNameKept() ensures "subject_id" !in ColumnNames {}
  lemma StayNameKept() ensures "stay_id" !in ColumnNames {}
  lemma GenderNameKept() ensures "gender" !in ColumnNames {}
  lemma RaceNameKept() ensures "race" !in ColumnNames {}
  lemma LabelNameKept() ensures "disposition" !in ColumnNames {}

  /** The rhythm column gets its phrase; the pain column keeps its name. */
  lemma VitalSetNames()
    ensures Renamed("rhythm", ColumnNames) == "heart rhythm" && Renamed("pain", ColumnNames) == "pain"
  {
    PainNameKept();
  }

  lemma PainNameKept() ensures "pain" !in ColumnNames {}

  /** The medication column gets its phrase; the prescription column keeps its name. */
  lemma MedicationNames()
    ensures Renamed("current_med", ColumnNames) == "current medication"
    ensures Renamed("prescription", ColumnNames) == "prescription"
  {
    PrescriptionNameKept();
  }

  lemma PrescriptionNameKept() ensures "prescription" !in ColumnNames {}

  /** `all_df.rename(columns = column_name)` and then the acuity replacement. */
  function Normalised(t: Table): (r: Table)
    requires WellFormed(t)
    ensures WellFormed(r) && |r.columns| == |t.columns| && |r.rows| == |t.rows|
  {
    ReplaceAcuity(RenameColumns(t, ColumnNames))
  }

  /** A cell outside the acuity column comes through normalising unchanged. */
  lemma NormalisedKeeps(t: Table, i: nat, j: nat)
    requires WellFormed(t) && i < |t.rows| && j < |t.columns| && t.columns[j] != Acuity
    ensures Normalised(t).rows[i][j] == t.rows[i][j]
  {
    RenameKeepsAcuity(t.columns[j]);
  }

  /** The acuity column keeps its position through the renaming. */
  lemma RenamedAcuityIndex(t: Table)
    requires Acuity in t.columns
    ensures Acuity in RenameColumns(t, ColumnNames).columns
    ensures IndexOf(RenameColumns(t, ColumnNames).columns, Acuity) == IndexOf(t.columns, Acuity)
  {
    var cols := RenameColumns(t, ColumnNames).columns;
    var k := IndexOf(t.columns, Acuity);
    forall j | 0 <= j <= k ensures cols[j] == Acuity <==> t.columns[j] == Acuity {
      RenameKeepsAcuity(t.columns[j]);
    }
    assert t.columns[k] == Acuity;
    assert forall j :: 0 <= j < k ==> t.columns[..k][j] == t.columns[j];
    IndexOfFirst(cols, Acuity, k);
  }

  /** A cell of the acuity column goes through the replacement. */
  lemma NormalisedReplaces(t: Table, i: nat, j: nat)
    requires WellFormed(t) && i < |t.rows| && j < |t.columns| && t.columns[j] == Acuity
    ensures Normalised(t).rows[i][j] == AcuityCell(t.rows[i][j])
  {
    RenameKeepsAcuity(t.columns[j]);
  }

  /** Normalising renames exactly the mapped columns, in place, and changes no
      cell outside the acuity column; acuity levels 1-5 become their sentences. */
  lemma NormalisedCells(t: Table)
    requires WellFormed(t)
    ensures forall j :: 0 <= j < |t.columns| ==>
      Normalised(t).columns[j] == (if t.columns[j] in ColumnNames then ColumnNames[t.columns[j]] else t.columns[j])
    ensures forall i, j :: 0 <= i < |t.rows| && 0 <= j < |t.columns| && t.columns[j] != Acuity ==>
      Normalised(t).rows[i][j] == t.rows[i][j]
    ensures forall i, j :: 0 <= i < |t.rows| && 0 <= j < |t.columns| && t.columns[j] == Acuity ==>
      Normalised(t).rows[i][j] == AcuityCell(t.rows[i][j])
  {
    forall j | 0 <= j < |t.columns| ensures (RenameColumns(t, ColumnNames).columns[j] == Acuity <==> t.columns[j] == Acuity) {
      RenameKeepsAcuity(t.columns[j]);
    }
  }
}
