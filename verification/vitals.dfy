/** The vital-sign table: per-stay maximum and minimum of each numeric vital,
    outer-merged, with the stay's rhythm and pain sets; and the numeric vector
    (maxima then minima, NaN as 0) paired with the vitals-free text. */
module Vitals {
  import opened Frames
  import opened Merge
  import opened Reducers

  /** The numeric vitals of the vital-sign table. */
  datatype Vital = Temperature | HeartRate | RespRate | O2Sat | Sbp | Dbp

  /** The numeric vital columns in the order of the vital-sign table. */
  const VitalOrder: seq<Vital> := [Temperature, HeartRate, RespRate, O2Sat, Sbp, Dbp]

  function VitalName(v: Vital): string {
    match v
    case Temperature => "temperature"
    case HeartRate => "heartrate"
    case RespRate => "resprate"
    case O2Sat => "o2sat"
    case Sbp => "sbp"
    case Dbp => "dbp"
  }

  /** One row of the vital-sign table. `charttime` and `subject_id` are left out:
      the script drops both before it uses the table. Readings are NaN or a number. */
  datatype Sign = Sign(
    stay: Value,
    temperature: Option<int>, heartrate: Option<int>, resprate: Option<int>,
    o2sat: Option<int>, sbp: Option<int>, dbp: Option<int>,
    rhythm: Option<string>, pain: Option<string>)

  function Reading(s: Sign, v: Vital): Option<int> {
    match v
    case Temperature => s.temperature
    case HeartRate => s.heartrate
    case RespRate => s.resprate
    case O2Sat => s.o2sat
    case Sbp => s.sbp
    case Dbp => s.dbp
  }

  /** The readings of vital `v` that stay `k` has (NaN skipped), in row order. */
  function Readings(signs: seq<Sign>, k: Value, v: Vital): (xs: seq<int>)
    ensures forall x :: x in xs <==> exists s :: s in signs && s.stay == k && Reading(s, v) == Some(x)
  {
    if signs == [] then []
    else
      var s := signs[0];
      var rest := Readings(signs[1..], k, v);
      assert forall t :: t in signs <==> t == s || t in signs[1..];
      if s.stay == k && Reading(s, v).Some? then [Reading(s, v).value] + rest else rest
  }

  /** The largest element; NaN (None) for no readings, as pandas' `max` gives. */
  function Maximum(xs: seq<int>): (m: Option<int>)
    ensures m.None? <==> xs == []
    ensures m.Some? ==> m.value in xs && forall x :: x in xs ==> x <= m.value
  {
    if xs == [] then None
    else
      assert forall x :: x in xs <==> x == xs[0] || x in xs[1..];
      match Maximum(xs[1..])
      case None => Some(xs[0])
      case Some(n) => Some(if xs[0] >= n then xs[0] else n)
  }

  /** The smallest element; NaN (None) for no readings, as pandas' `min` gives. */
  function Minimum(xs: seq<int>): (m: Option<int>)
    ensures m.None? <==> xs == []
    ensures m.Some? ==> m.value in xs && forall x :: x in xs ==> m.value <= x
  {
    if xs == [] then None
    else
      assert forall x :: x in xs <==> x == xs[0] || x in xs[1..];
      match Minimum(xs[1..])
      case None => Some(xs[0])
      case Some(n) => Some(if xs[0] <= n then xs[0] else n)
  }

  function AsCell(o: Option<int>): Value {
    match o
    case None => Missing
    case Some(n) => Num(n)
  }

  /** The stays of the vital-sign table: `groupby` keys, NaN dropped, each once. */
  function StayKeys(signs: seq<Sign>): (ks: seq<Value>)
    ensures forall k :: k in ks <==> k != Missing && exists s :: s in signs && s.stay == k
  {
    if signs == [] then []
    else
      assert forall t :: t in signs <==> t == signs[0] || t in signs[1..];
      (if signs[0].stay != Missing then [signs[0].stay] else []) + StayKeys(signs[1..])
  }

  function VitalStays(signs: seq<Sign>): seq<Value> {
    Dedup(StayKeys(signs))
  }

  /** Which reduction a table holds. */
  datatype Extreme = Max | Min

  const MaxColumns: seq<string> :=
    ["max_temperature", "max_heartrate", "max_resprate", "max_o2sat", "max_sbp", "max_dbp"]
  const MinColumns: seq<string> :=
    ["min_temperature", "min_heartrate", "min_resprate", "min_o2sat", "min_sbp", "min_dbp"]

  /** The column names are `add_prefix('max_')` / `add_prefix('min_')` of the vital names. */
  lemma ExtremeColumnNames()
    ensures forall j :: 0 <= j < 6 ==> MaxColumns[j] == "max_" + VitalName(VitalOrder[j])
    ensures forall j :: 0 <= j < 6 ==> MinColumns[j] == "min_" + VitalName(VitalOrder[j])
  {
    MaxColumnNames();
    MinColumnNames();
  }

  lemma MaxColumnNames()
    ensures forall j :: 0 <= j < 6 ==> MaxColumns[j] == "max_" + VitalName(VitalOrder[j])
  {
    assert "max_" + "temperature" == "max_temperature";
    assert "max_" + "heartrate" == "max_heartrate";
    assert "max_" + "resprate" == "max_resprate";
    assert "max_" + "o2sat" == "max_o2sat";
    assert "max_" + "sbp" == "max_sbp";
    assert "max_" + "dbp" == "max_dbp";
  }

  lemma MinColumnNames()
    ensures forall j :: 0 <= j < 6 ==> MinColumns[j] == "min_" + VitalName(VitalOrder[j])
  {
    assert "min_" + "temperature" == "min_temperature";
    assert "min_" + "heartrate" == "min_heartrate";
    assert "min_" + "resprate" == "min_resprate";
    assert "min_" + "o2sat" == "min_o2sat";
    assert "min_" + "sbp" == "min_sbp";
    assert "min_" + "dbp" == "min_dbp";
  }

  /** A stay's six maxima or minima, in vital order; NaN where it has no reading. */
  function ExtremeCells(signs: seq<Sign>, k: Value, e: Extreme): (cells: seq<Value>)
    ensures |cells| == 6
  {
    seq(6, j requires 0 <= j < 6 =>
      var xs := Readings(signs, k, VitalOrder[j]);
      AsCell(if e == Max then Maximum(xs) else Minimum(xs)))
  }

  /** `vital_1.groupby(by = 'stay_id').max()` (or `.min()`), with `subject_id`
      dropped and the prefix added. */
  function ExtremeTable(signs: seq<Sign>, e: Extreme): (t: Table)
    ensures WellFormed(t) && t.columns == [Key] + (if e == Max then MaxColumns else MinColumns)
  {
    var stays := VitalStays(signs);
    Table([Key] + (if e == Max then MaxColumns else MinColumns),
          seq(|stays|, i requires 0 <= i < |stays| => [stays[i]] + ExtremeCells(signs, stays[i], e)))
  }

  /** The names the vital merges bring together never clash. */
  lemma VitalColumnsDistinct()
    ensures forall c :: c in MinColumns ==> c !in [Key] + MaxColumns
    ensures "rhythm" !in [Key] + MaxColumns + MinColumns
    ensures "pain" !in [Key] + MaxColumns + MinColumns + ["rhythm"]
  {
    MinNamesApart();
    RhythmNameApart();
    PainNameApart();
  }

  /** The minimum columns are named like none of the maximum columns or the key. */
  lemma MinNamesApart()
    ensures forall c :: c in MinColumns ==> c !in [Key] + MaxColumns
  {
    assert CharAt(MinColumns, 1, 'i');
    assert CharNotAt(MaxColumns, 1, 'i') && CharNotAt([Key], 1, 'i');
    CharNotAtAppend([Key], MaxColumns, 1, 'i');
    NamesApart(MinColumns, [Key] + MaxColumns, 1, 'i');
  }

  lemma RhythmNameApart()
    ensures "rhythm" !in [Key] + MaxColumns + MinColumns
  {
    assert CharNotAt(MaxColumns, 0, 'r') && CharNotAt(MinColumns, 0, 'r') && CharNotAt([Key], 0, 'r');
    CharNotAtAppend([Key], MaxColumns, 0, 'r');
    CharNotAtAppend([Key] + MaxColumns, MinColumns, 0, 'r');
    NamesApart(["rhythm"], [Key] + MaxColumns + MinColumns, 0, 'r');
  }

  lemma PainNameApart()
    ensures "pain" !in [Key] + MaxColumns + MinColumns + ["rhythm"]
  {
    assert CharNotAt(MaxColumns, 0, 'p') && CharNotAt(MinColumns, 0, 'p');
    assert CharNotAt([Key], 0, 'p') && CharNotAt(["rhythm"], 0, 'p');
    CharNotAtAppend([Key], MaxColumns, 0, 'p');
    CharNotAtAppend([Key] + MaxColumns, MinColumns, 0, 'p');
    CharNotAtAppend([Key] + MaxColumns + MinColumns, ["rhythm"], 0, 'p');
    NamesApart(["pain"], [Key] + MaxColumns + MinColumns + ["rhythm"], 0, 'p');
  }

  /** `pd.merge(max, min, on = ['stay_id'], how = 'outer')`. */
  function VitalExtremes(signs: seq<Sign>): (t: Table)
    ensures WellFormed(t) && t.columns == [Key] + MaxColumns + MinColumns
  {
    MinNamesApart();
    KeyedRightColumns(ExtremeTable(signs, Min), Key, MinColumns);
    KeyedRightColumns(ExtremeTable(signs, Max), Key, MaxColumns);
    OuterJoin(ExtremeTable(signs, Max), ExtremeTable(signs, Min), Key)
  }

  lemma ExtremeTableKeys(signs: seq<Sign>, e: Extreme)
    ensures IndexOf(ExtremeTable(signs, e).columns, Key) == 0
    ensures ColumnValues(ExtremeTable(signs, e), Key) == VitalStays(signs)
    ensures UniqueKeys(ExtremeTable(signs, e), Key)
  {
    var t := ExtremeTable(signs, e);
    assert IndexOf(t.columns, Key) == 0;
    assert ColumnValues(t, Key) == VitalStays(signs);
  }

  /** The max and min tables hold the same stays, so the outer merge is one row
      per stay of the vital-sign table: the stay, its six maxima, its six minima. */
  lemma VitalExtremesRows(signs: seq<Sign>)
    ensures |VitalExtremes(signs).rows| == |VitalStays(signs)|
    ensures forall i :: 0 <= i < |VitalStays(signs)| ==>
      VitalExtremes(signs).rows[i] ==
        [VitalStays(signs)[i]] + ExtremeCells(signs, VitalStays(signs)[i], Max) + ExtremeCells(signs, VitalStays(signs)[i], Min)
  {
    var mx := ExtremeTable(signs, Max);
    var mn := ExtremeTable(signs, Min);
    var stays := VitalStays(signs);
    MinNamesApart();
    KeyedRightColumns(mn, Key, MinColumns);
    KeyedRightColumns(mx, Key, MaxColumns);
    ExtremeTableKeys(signs, Max);
    ExtremeTableKeys(signs, Min);
    OuterJoinCoveredKeys(mx, mn, Key);
    LeftJoinKeepsRows(mx, mn, Key);
    forall i | 0 <= i < |stays|
      ensures VitalExtremes(signs).rows[i] == [stays[i]] + ExtremeCells(signs, stays[i], Max) + ExtremeCells(signs, stays[i], Min)
    {
      RightPartOfRow(mn, Key, i);
      assert mn.rows[i] == [stays[i]] + ExtremeCells(signs, stays[i], Min);
      assert RemoveAt(mn.rows[i], 0) == ExtremeCells(signs, stays[i], Min);
    }
  }

  function RhythmEntries(signs: seq<Sign>): seq<Entry> {
    seq(|signs|, i requires 0 <= i < |signs| => Entry(signs[i].stay, signs[i].rhythm))
  }

  function PainEntries(signs: seq<Sign>): seq<Entry> {
    seq(|signs|, i requires 0 <= i < |signs| => Entry(signs[i].stay, signs[i].pain))
  }

  /** The columns a merge with `vital_df` adds. */
  const VitalOwnColumns: seq<string> := MaxColumns + MinColumns + ["rhythm", "pain"]

  /** The columns of `vital_df`. */
  const VitalColumns: seq<string> := [Key] + VitalOwnColumns

  /** The extremes left-merged with the rhythm set. */
  function WithRhythm(signs: seq<Sign>): (t: Table)
    ensures WellFormed(t) && t.columns == [Key] + MaxColumns + MinColumns + ["rhythm"]
  {
    RhythmJoinable(signs);
    LeftJoin(VitalExtremes(signs), SetReduce(RhythmEntries(signs), "rhythm", DropNull), Key)
  }

  /** The rhythm sets merge into the extremes on the stay, without a clash. */
  lemma RhythmJoinable(signs: seq<Sign>)
    ensures Joinable(VitalExtremes(signs), SetReduce(RhythmEntries(signs), "rhythm", DropNull), Key)
    ensures RightColumns(SetReduce(RhythmEntries(signs), "rhythm", DropNull), Key) == ["rhythm"]
    ensures UniqueKeys(SetReduce(RhythmEntries(signs), "rhythm", DropNull), Key)
  {
    var rhythm := SetReduce(RhythmEntries(signs), "rhythm", DropNull);
    RhythmNameApart();
    KeyedRightColumns(rhythm, Key, ["rhythm"]);
    SetReduceUniqueKeys(RhythmEntries(signs), "rhythm", DropNull);
  }

  /** `vital_df`: the extremes, left-merged with the rhythm and pain sets, NaN filled with ''. */
  function VitalTable(signs: seq<Sign>): (t: Table)
    ensures WellFormed(t) && t.columns == VitalColumns
  {
    var pain := SetReduce(PainEntries(signs), "pain", DropNull);
    PainNameApart();
    KeyedRightColumns(pain, Key, ["pain"]);
    assert [Key] + MaxColumns + MinColumns + ["rhythm"] + ["pain"] == VitalColumns;
    FillNa(LeftJoin(WithRhythm(signs), pain, Key), Text(""))
  }

  lemma WithRhythmKeys(signs: seq<Sign>)
    ensures ColumnValues(WithRhythm(signs), Key) == VitalStays(signs)
    ensures UniqueKeys(WithRhythm(signs), Key)
  {
    RhythmJoinable(signs);
    ExtremesKeys(signs);
    LeftJoinKeepsKeys(VitalExtremes(signs), SetReduce(RhythmEntries(signs), "rhythm", DropNull), Key);
  }

  /** The merged extremes hold one row per stay of the vital-sign table. */
  lemma ExtremesKeys(signs: seq<Sign>)
    ensures Key in VitalExtremes(signs).columns
    ensures ColumnValues(VitalExtremes(signs), Key) == VitalStays(signs)
    ensures UniqueKeys(VitalExtremes(signs), Key)
  {
    var mx := ExtremeTable(signs, Max);
    var mn := ExtremeTable(signs, Min);
    MinNamesApart();
    KeyedRightColumns(mn, Key, MinColumns);
    KeyedRightColumns(mx, Key, MaxColumns);
    ExtremeTableKeys(signs, Max);
    ExtremeTableKeys(signs, Min);
    OuterJoinCoveredKeys(mx, mn, Key);
    LeftJoinKeepsKeys(mx, mn, Key);
  }

  /** `vital_df` holds one row per stay of the vital-sign table, keyed by it. */
  lemma VitalTableKeys(signs: seq<Sign>)
    ensures ColumnValues(VitalTable(signs), Key) == VitalStays(signs)
    ensures UniqueKeys(VitalTable(signs), Key)
  {
    var pain := SetReduce(PainEntries(signs), "pain", DropNull);
    VitalJoinKeys(signs);
    var joined := LeftJoin(WithRhythm(signs), pain, Key);
    assert forall v :: v in VitalStays(signs) ==> v in StayKeys(signs);
    FillNaKeepsColumn(joined, Text(""), Key);
  }

  /** The pain sets merge into the extremes and rhythm on the stay, without a clash. */
  lemma PainJoinable(signs: seq<Sign>)
    ensures Joinable(WithRhythm(signs), SetReduce(PainEntries(signs), "pain", DropNull), Key)
    ensures UniqueKeys(SetReduce(PainEntries(signs), "pain", DropNull), Key)
  {
    var pain := SetReduce(PainEntries(signs), "pain", DropNull);
    PainNameApart();
    KeyedRightColumns(pain, Key, ["pain"]);
    SetReduceUniqueKeys(PainEntries(signs), "pain", DropNull);
  }

  /** Merging the pain sets into the extremes and rhythm keeps their stays. */
  lemma VitalJoinKeys(signs: seq<Sign>)
    ensures var pain := SetReduce(PainEntries(signs), "pain", DropNull);
      && Joinable(WithRhythm(signs), pain, Key)
      && ColumnValues(LeftJoin(WithRhythm(signs), pain, Key), Key) == VitalStays(signs)
      && UniqueKeys(LeftJoin(WithRhythm(signs), pain, Key), Key)
  {
    PainJoinable(signs);
    WithRhythmKeys(signs);
    LeftJoinKeepsKeys(WithRhythm(signs), SetReduce(PainEntries(signs), "pain", DropNull), Key);
  }

  /** What `vital_df` holds for stay `k` before `fillna('')`: the stay, its six
      maxima, its six minima, then its joined rhythm set and its joined pain
      set, each NaN when the stay has no such reading. */
  function VitalCells(signs: seq<Sign>, k: Value): (cells: seq<Value>)
    ensures |cells| == |VitalColumns|
  {
    RhythmCells(signs, k) + [ReducedValue(PainEntries(signs), k, DropNull)]
  }

  /** What the rhythm merge holds for stay `k`: the stay, its maxima, its
      minima and its joined rhythm set (NaN when it has none). */
  function RhythmCells(signs: seq<Sign>, k: Value): (cells: seq<Value>)
    ensures |cells| == |VitalColumns| - 1
  {
    [k] + ExtremeCells(signs, k, Max) + ExtremeCells(signs, k, Min) + [ReducedValue(RhythmEntries(signs), k, DropNull)]
  }

  /** Row i of the rhythm merge: the stay, its maxima, its minima, and its
      rhythm value. */
  lemma WithRhythmRow(signs: seq<Sign>, i: nat)
    requires i < |VitalStays(signs)|
    ensures |WithRhythm(signs).rows| == |VitalStays(signs)|
    ensures WithRhythm(signs).rows[i] == RhythmCells(signs, VitalStays(signs)[i])
  {
    var x := VitalExtremes(signs);
    var rhythm := SetReduce(RhythmEntries(signs), "rhythm", DropNull);
    RhythmJoinable(signs);
    VitalExtremesRows(signs);
    assert IndexOf(x.columns, Key) == 0;
    LeftJoinKeepsRows(x, rhythm, Key);
    SetReducePart(RhythmEntries(signs), "rhythm", DropNull, VitalStays(signs)[i]);
  }

  /** Row i of `vital_df` is the i-th stay's cells with NaN filled with '': the
      extremes it lacks, and the rhythm or pain set it lacks, read ''. */
  lemma VitalTableRow(signs: seq<Sign>, i: nat)
    requires i < |VitalStays(signs)|
    ensures |VitalTable(signs).rows| == |VitalStays(signs)|
    ensures VitalTable(signs).rows[i] == FillRow(VitalCells(signs, VitalStays(signs)[i]), Text(""))
  {
    PainJoinedRow(signs, i);
    FillNaRow(LeftJoin(WithRhythm(signs), SetReduce(PainEntries(signs), "pain", DropNull), Key), Text(""), i);
  }

  /** Row i of the pain merge, before `fillna('')`, is the i-th stay's cells. */
  lemma PainJoinedRow(signs: seq<Sign>, i: nat)
    requires i < |VitalStays(signs)|
    ensures var pain := SetReduce(PainEntries(signs), "pain", DropNull);
      && Joinable(WithRhythm(signs), pain, Key)
      && |LeftJoin(WithRhythm(signs), pain, Key).rows| == |VitalStays(signs)|
      && LeftJoin(WithRhythm(signs), pain, Key).rows[i] == VitalCells(signs, VitalStays(signs)[i])
  {
    var pain := SetReduce(PainEntries(signs), "pain", DropNull);
    var k := VitalStays(signs)[i];
    PainJoinable(signs);
    WithRhythmRow(signs, i);
    assert IndexOf(WithRhythm(signs).columns, Key) == 0;
    LeftJoinKeepsRows(WithRhythm(signs), pain, Key);
    SetReducePart(PainEntries(signs), "pain", DropNull, k);
  }

  /** What a left merge with `vital_df` appends for stay `k`: the stay's filled
      cells after the key, or NaN throughout when the vital-sign table has no
      row for it. */
  function VitalAppended(signs: seq<Sign>, k: Value): (cells: seq<Value>)
    ensures |cells| == |VitalOwnColumns|
  {
    if k in VitalStays(signs) then FillRow(VitalCells(signs, k), Text(""))[1..] else Nulls(|VitalOwnColumns|)
  }

  /** Merging `vital_df` on the stay appends `VitalAppended`. */
  lemma VitalPart(signs: seq<Sign>, k: Value)
    ensures RightPart(VitalTable(signs), Key, k) == VitalAppended(signs, k)
  {
    var t := VitalTable(signs);
    VitalTableKeys(signs);
    KeyedRightColumns(t, Key, VitalOwnColumns);
    if k in VitalStays(signs) {
      var i :| 0 <= i < |VitalStays(signs)| && VitalStays(signs)[i] == k;
      RightPartOfRow(t, Key, i);
      VitalTableRow(signs, i);
    } else {
      RightPartMissing(t, Key, k);
    }
  }

  /** The rhythm cell a visit with stay `k` gets from the merge with `vital_df`:
      the stay's joined rhythm set, '' when it has no rhythm reading, or NaN when
      the vital-sign table has no row for the stay. */
  function RhythmCell(signs: seq<Sign>, k: Value): Value {
    if k in VitalStays(signs) then Filled(ReducedValue(RhythmEntries(signs), k, DropNull), Text("")) else Missing
  }

  /** The pain cell, in the same way. */
  function PainCell(signs: seq<Sign>, k: Value): Value {
    if k in VitalStays(signs) then Filled(ReducedValue(PainEntries(signs), k, DropNull), Text("")) else Missing
  }

  /** The last two appended cells are the rhythm and the pain cell. */
  lemma AppendedSets(signs: seq<Sign>, k: Value)
    ensures |VitalAppended(signs, k)| == 14
    ensures VitalAppended(signs, k)[12] == RhythmCell(signs, k)
    ensures VitalAppended(signs, k)[13] == PainCell(signs, k)
  {
    if k in VitalStays(signs) {
      var cells := VitalCells(signs, k);
      assert cells[13] == RhythmCells(signs, k)[13] == ReducedValue(RhythmEntries(signs), k, DropNull);
      assert cells[14] == ReducedValue(PainEntries(signs), k, DropNull);
    }
  }

  /** `fillna(0)`. */
  function ZeroFilled(o: Option<int>): int {
    match o
    case None => 0
    case Some(n) => n
  }

  /** `max.fillna(0)` row followed by `min.fillna(0)` row: `vital_max + vital_min`. */
  function VitalVector(signs: seq<Sign>, k: Value): (v: seq<int>)
    ensures |v| == 12
  {
    seq(6, j requires 0 <= j < 6 => ZeroFilled(Maximum(Readings(signs, k, VitalOrder[j]))))
    + seq(6, j requires 0 <= j < 6 => ZeroFilled(Minimum(Readings(signs, k, VitalOrder[j]))))
  }

  /** The `vitals` frame: one [ID, vector] row per stay of the vital-sign table. */
  function VectorTable(signs: seq<Sign>): (t: Table)
    ensures WellFormed(t) && t.columns == ["ID", "vitals"]
  {
    var stays := VitalStays(signs);
    Table(["ID", "vitals"], seq(|stays|, i requires 0 <= i < |stays| => [stays[i], Vector(VitalVector(signs, stays[i]))]))
  }

  /** The vector has 12 entries: entry j is the stay's largest reading of the
      j-th vital and entry 6 + j its smallest, 0 when it has none; when it has
      readings, the largest bounds them all from above, the smallest from below,
      both are readings, and so smallest <= largest. */
  lemma VitalVectorLayout(signs: seq<Sign>, k: Value)
    ensures |VitalVector(signs, k)| == 12
    ensures forall j :: 0 <= j < 6 && Readings(signs, k, VitalOrder[j]) == [] ==>
      VitalVector(signs, k)[j] == 0 && VitalVector(signs, k)[6 + j] == 0
    ensures forall j, x :: 0 <= j < 6 && x in Readings(signs, k, VitalOrder[j]) ==>
      VitalVector(signs, k)[6 + j] <= x <= VitalVector(signs, k)[j]
    ensures forall j :: 0 <= j < 6 && Readings(signs, k, VitalOrder[j]) != [] ==>
      VitalVector(signs, k)[j] in Readings(signs, k, VitalOrder[j]) &&
      VitalVector(signs, k)[6 + j] in Readings(signs, k, VitalOrder[j])
  {
    forall j | 0 <= j < 6
      ensures VitalVector(signs, k)[j] == ZeroFilled(Maximum(Readings(signs, k, VitalOrder[j])))
      ensures VitalVector(signs, k)[6 + j] == ZeroFilled(Minimum(Readings(signs, k, VitalOrder[j])))
    {
      VitalVectorAt(signs, k, j);
    }
  }

  lemma VitalVectorAt(signs: seq<Sign>, k: Value, j: nat)
    requires j < 6
    ensures |VitalVector(signs, k)| == 12
    ensures VitalVector(signs, k)[j] == ZeroFilled(Maximum(Readings(signs, k, VitalOrder[j])))
    ensures VitalVector(signs, k)[6 + j] == ZeroFilled(Minimum(Readings(signs, k, VitalOrder[j])))
  {
  }

  /** The vector frame has one row per stay with vital rows, and no stay twice. */
  lemma VectorTableKeys(signs: seq<Sign>)
    ensures ColumnValues(VectorTable(signs), "ID") == VitalStays(signs)
    ensures UniqueKeys(VectorTable(signs), "ID")
  {
    var t := VectorTable(signs);
    assert IndexOf(t.columns, "ID") == 0;
    assert ColumnValues(t, "ID") == VitalStays(signs);
  }
}
