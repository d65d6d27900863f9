/** The triage table: every triage column gets the prefix `triage_`, except the
    keys, acuity and chief complaint, which keep their names; `subject_id` is
    dropped and NaN becomes ''. */
module Triage {
  import opened Frames

  /** One row of the triage file, in the file's column order. */
  datatype TriageRecord = TriageRecord(
    subject: Value, stay: Value,
    temperature: Value, heartrate: Value, resprate: Value, o2sat: Value,
    sbp: Value, dbp: Value, pain: Value, acuity: Value, chiefComplaint: Value)

  const TriageFileColumns: seq<string> :=
    ["subject_id", "stay_id", "temperature", "heartrate", "resprate", "o2sat",
     "sbp", "dbp", "pain", "acuity", "chiefcomplaint"]

  function RecordCells(r: TriageRecord): seq<Value> {
    [r.subject, r.stay, r.temperature, r.heartrate, r.resprate, r.o2sat,
     r.sbp, r.dbp, r.pain, r.acuity, r.chiefComplaint]
  }

  /** The triage file as a table. */
  function TriageFile(rs: seq<TriageRecord>): (t: Table)
    ensures WellFormed(t) && t.columns == TriageFileColumns && |t.rows| == |rs|
  {
    Table(TriageFileColumns, seq(|rs|, i requires 0 <= i < |rs| => RecordCells(rs[i])))
  }

  /** The names taken back after `add_prefix('triage_')`. */
  const TriageRenames: map<string, string> :=
    map["triage_subject_id" := "subject_id", "triage_stay_id" := "stay_id",
        "triage_acuity" := "acuity", "triage_chiefcomplaint" := "chiefcomplaint"]

  /** The triage measurements, under their prefixed names. */
  const TriageVitalColumns: seq<string> :=
    ["triage_temperature", "triage_heartrate", "triage_resprate", "triage_o2sat",
     "triage_sbp", "triage_dbp", "triage_pain"]

  /** The columns a merge with `triage_df` adds. */
  const TriageOwnColumns: seq<string> := TriageVitalColumns + ["acuity", "chiefcomplaint"]

  /** The columns of `triage_df`. */
  const TriageColumns: seq<string> := [Key] + TriageOwnColumns

  /** The column names after the prefix and the renaming. */
  const RenamedColumns: seq<string> := ["subject_id"] + TriageColumns

  /** Column j of the file is called RenamedColumns[j] after the prefix and the renaming. */
  lemma RenamedAt(j: nat)
    requires j < |TriageFileColumns|
    ensures Renamed("triage_" + TriageFileColumns[j], TriageRenames) == RenamedColumns[j]
  {
    if j < 6 {
      RenamedAtFirst(j);
    } else {
      RenamedAtLast(j);
    }
  }

  lemma RenamedAtFirst(j: nat)
    requires j < 6
    ensures Renamed("triage_" + TriageFileColumns[j], TriageRenames) == RenamedColumns[j]
  {
    if j == 0 {
      assert "triage_" + TriageFileColumns[0] == "triage_subject_id";
    } else if j == 1 {
      assert "triage_" + TriageFileColumns[1] == "triage_stay_id";
    } else if j == 2 {
      assert "triage_" + TriageFileColumns[2] == "triage_temperature";
    } else if j == 3 {
      assert "triage_" + TriageFileColumns[3] == "triage_heartrate";
    } else if j == 4 {
      assert "triage_" + TriageFileColumns[4] == "triage_resprate";
    } else {
      assert "triage_" + TriageFileColumns[5] == "triage_o2sat";
    }
  }

  lemma RenamedAtLast(j: nat)
    requires 6 <= j < |TriageFileColumns|
    ensures Renamed("triage_" + TriageFileColumns[j], TriageRenames) == RenamedColumns[j]
  {
    if j == 6 {
      assert "triage_" + TriageFileColumns[6] == "triage_sbp";
    } else if j == 7 {
      assert "triage_" + TriageFileColumns[7] == "triage_dbp";
    } else if j == 8 {
      assert "triage_" + TriageFileColumns[8] == "triage_pain";
    } else if j == 9 {
      assert "triage_" + TriageFileColumns[9] == "triage_acuity";
    } else {
      assert "triage_" + TriageFileColumns[10] == "triage_chiefcomplaint";
    }
  }

  lemma RenamedTriageColumns(t: Table)
    requires t.columns == TriageFileColumns
    ensures RenameColumns(AddPrefix(t, "triage_"), TriageRenames).columns == RenamedColumns
  {
    forall j | 0 <= j < |TriageFileColumns|
      ensures RenameColumns(AddPrefix(t, "triage_"), TriageRenames).columns[j] == RenamedColumns[j]
    {
      RenamedAt(j);
    }
  }

  lemma SubjectOnlyFirst()
    ensures RenamedColumns[0] == "subject_id" && "subject_id" !in RenamedColumns[1..]
  {
    assert CharAt(["subject_id"], 1, 'u');
    assert CharNotAt(RenamedColumns[1..], 1, 'u');
    NamesApart(["subject_id"], RenamedColumns[1..], 1, 'u');
  }

  /** `triage_df`. */
  function TriageTable(rs: seq<TriageRecord>): (t: Table)
    ensures WellFormed(t) && t.columns == TriageColumns && |t.rows| == |rs|
  {
    var renamed := RenameColumns(AddPrefix(TriageFile(rs), "triage_"), TriageRenames);
    RenamedTriageColumns(TriageFile(rs));
    SubjectOnlyFirst();
    DropFirstColumn(renamed, "subject_id");
    FillNa(DropColumns(renamed, {"subject_id"}), Text(""))
  }

  /** Row i of `triage_df` is the i-th record without its subject, NaN as ''. */
  lemma TriageRow(rs: seq<TriageRecord>, i: nat)
    requires i < |rs|
    ensures TriageTable(rs).rows[i] ==
      seq(10, j requires 0 <= j < 10 => Filled(RecordCells(rs[i])[j + 1], Text("")))
  {
    var renamed := RenameColumns(AddPrefix(TriageFile(rs), "triage_"), TriageRenames);
    RenamedTriageColumns(TriageFile(rs));
    SubjectOnlyFirst();
    DropFirstColumn(renamed, "subject_id");
  }

  /** Distinct, present triage stays make `triage_df` keyed by stay. */
  lemma TriageKeys(rs: seq<TriageRecord>)
    requires forall i, j :: 0 <= i < j < |rs| ==> rs[i].stay != rs[j].stay
    requires forall i :: 0 <= i < |rs| ==> rs[i].stay != Missing
    ensures ColumnValues(TriageTable(rs), Key) == seq(|rs|, i requires 0 <= i < |rs| => rs[i].stay)
    ensures UniqueKeys(TriageTable(rs), Key)
  {
    var t := TriageTable(rs);
    assert IndexOf(t.columns, Key) == 0;
    forall i | 0 <= i < |rs| ensures t.rows[i][0] == rs[i].stay {
      TriageRow(rs, i);
    }
  }
}
