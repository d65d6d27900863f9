/** Turning the merged table into one text per visit: every cell becomes
    "<column> : <value>", the cells of a row are joined with ". " and lower-cased,
    and the visit identifier and label travel alongside as ID and Label. */
module Serialise {
  import opened Strings
  import opened Frames

  /** The two columns `generate_text_df` copies instead of describing. */
  predicate Copied(col: string) {
    col == "stay_id" || col == "disposition"
  }

  /** "<column> : <value>", with the value as `astype(str)` renders it. */
  function Fragment(col: string, v: Value): string {
    col + " : " + Render(v)
  }

  /** One output cell of `generate_text_df`: a copied cell is unchanged; any
      other cell becomes text that starts with the column name and " : " and
      ends with the rendered value. */
  function TextCell(col: string, v: Value): (r: Value)
    ensures Copied(col) ==> r == v
    ensures !Copied(col) ==> r.Text? && |r.s| >= |col| + 3 && r.s[..|col| + 3] == col + " : " && r.s[|col| + 3..] == Render(v)
  {
    if Copied(col) then v else Text(Fragment(col, v))
  }

  function TextRow(cols: seq<string>, row: seq<Value>): (r: seq<Value>)
    requires |row| == |cols|
    ensures |r| == |cols|
  {
    seq(|cols|, j requires 0 <= j < |cols| => TextCell(cols[j], row[j]))
  }

  /** The frame `generate_text_df` returns: same columns, same rows, every cell
      described except the copied ones. */
  function TextFrame(df: Table): (out: Table)
    requires WellFormed(df)
    ensures WellFormed(out) && out.columns == df.columns && |out.rows| == |df.rows|
  {
    Table(df.columns, seq(|df.rows|, i requires 0 <= i < |df.rows| => TextRow(df.columns, df.rows[i])))
  }

  /** `generate_text_df`: starts from an empty frame and adds the columns one at a time. */
  method GenerateTextFrame(df: Table) returns (out: Table)
    requires WellFormed(df)
    ensures out == TextFrame(df)
  {
    var cols := df.columns;
    out := Table([], seq(|df.rows|, _ => []));
    for i := 0 to |cols|
      invariant out.columns == cols[..i]
      invariant |out.rows| == |df.rows|
      invariant forall r :: 0 <= r < |df.rows| ==> out.rows[r] == TextRow(cols[..i], df.rows[r][..i])
    {
      var c := cols[i];
      out := Table(out.columns + [c], seq(|out.rows|, r requires 0 <= r < |out.rows| =>
        out.rows[r] + [TextCell(c, df.rows[r][i])]));
      assert cols[..i + 1] == cols[..i] + [c];
      forall r | 0 <= r < |df.rows| ensures out.rows[r] == TextRow(cols[..i + 1], df.rows[r][..i + 1]) {
        assert df.rows[r][..i + 1] == df.rows[r][..i] + [df.rows[r][i]];
      }
    }
    assert cols[..|cols|] == cols;
    forall r | 0 <= r < |df.rows| ensures df.rows[r][..|cols|] == df.rows[r] {
    }
  }

  /** Columns left out of the concatenated text. */
  const Excluded: set<string> := {"stay_id", "subject_id", "disposition"}

  /** The frame has the identifier, subject and label columns the text step drops. */
  predicate HasIdColumns(cols: seq<string>) {
    "stay_id" in cols && "subject_id" in cols && "disposition" in cols
  }

  /** The fragments of the columns not named in `skip`, in column order. */
  function FragmentsExcept(cols: seq<string>, row: seq<Value>, skip: set<string>): seq<string>
    requires |row| == |cols|
  {
    if cols == [] then []
    else (if cols[0] in skip then [] else [Fragment(cols[0], row[0])]) + FragmentsExcept(cols[1..], row[1..], skip)
  }

  /** The fragments of a row that enter its text, in column order. */
  function Fragments(cols: seq<string>, row: seq<Value>): seq<string>
    requires |row| == |cols|
  {
    FragmentsExcept(cols, row, Excluded)
  }

  /** Dropping the columns in `names` and then describing the rest gives the
      fragments of the original row minus those columns, still in column order. */
  lemma {:induction false} DroppedFragments(cols: seq<string>, row: seq<Value>, names: set<string>, skip: set<string>)
    requires |row| == |cols|
    ensures FragmentsExcept(Pick(cols, KeepMask(cols, names)), Pick(row, KeepMask(cols, names)), skip) ==
      FragmentsExcept(cols, row, skip + names)
    decreases |cols|
  {
    if cols != [] {
      var keep := KeepMask(cols, names);
      assert keep[1..] == KeepMask(cols[1..], names);
      DroppedFragments(cols[1..], row[1..], names, skip);
      var pc, pr := Pick(cols, keep), Pick(row, keep);
      if keep[0] {
        assert pc[0] == cols[0] && pc[1..] == Pick(cols[1..], keep[1..]);
        assert pr[0] == row[0] && pr[1..] == Pick(row[1..], keep[1..]);
      } else {
        assert pc == Pick(cols[1..], keep[1..]);
        assert pr == Pick(row[1..], keep[1..]);
      }
    }
  }

  /** `[str(x) for x in row]`. */
  function RenderAll(vs: seq<Value>): (r: seq<string>)
    ensures |r| == |vs|
  {
    seq(|vs|, k requires 0 <= k < |vs| => Render(vs[k]))
  }

  /** The clinical-text table: ID, the lower-cased ". "-join of the row's
      remaining cells, and Label. */
  function ClinicalTextTable(df: Table): (t: Table)
    requires WellFormed(df) && HasIdColumns(df.columns)
    ensures WellFormed(t) && t.columns == ["ID", "TEXT", "Label"] && |t.rows| == |df.rows|
  {
    var text := FillNa(TextFrame(df), Text(""));
    var body := DropColumns(text, Excluded);
    var ids := ColumnValues(text, "stay_id");
    var labels := ColumnValues(text, "disposition");
    Table(["ID", "TEXT", "Label"], seq(|text.rows|, i requires 0 <= i < |text.rows| =>
      [ids[i], Text(Lower(JoinWith(". ", RenderAll(body.rows[i])))), labels[i]]))
  }

  /** A text row after `fillna('')`. */
  function FilledTextRow(cols: seq<string>, row: seq<Value>): (r: seq<Value>)
    requires |row| == |cols|
    ensures |r| == |cols|
  {
    seq(|cols|, j requires 0 <= j < |cols| => Filled(TextCell(cols[j], row[j]), Text("")))
  }

  lemma RenderAllAppend(a: seq<Value>, b: seq<Value>)
    ensures RenderAll(a + b) == RenderAll(a) + RenderAll(b)
  {
  }

  /** Dropping the excluded columns of a filled text row and rendering what is
      left gives exactly the row's fragments. */
  lemma {:induction false} PickedFragments(cols: seq<string>, row: seq<Value>)
    requires |row| == |cols|
    ensures RenderAll(Pick(FilledTextRow(cols, row), KeepMask(cols, Excluded))) == Fragments(cols, row)
    decreases |cols|
  {
    if cols != [] {
      var ft := FilledTextRow(cols, row);
      var keep := KeepMask(cols, Excluded);
      assert ft[1..] == FilledTextRow(cols[1..], row[1..]);
      assert keep[1..] == KeepMask(cols[1..], Excluded);
      PickedFragments(cols[1..], row[1..]);
      var head := if keep[0] then [ft[0]] else [];
      assert Pick(ft, keep) == head + Pick(ft[1..], keep[1..]);
      RenderAllAppend(head, Pick(ft[1..], keep[1..]));
      if keep[0] {
        assert RenderAll(head) == [Fragment(cols[0], row[0])];
      }
    }
  }

  /** Row i of the clinical-text table: ID is the visit's stay, TEXT is the
      lower-cased ". "-join of the fragments of every column but the stay,
      subject and label, in column order, and Label is the visit's label. */
  lemma ClinicalTextRow(df: Table, i: nat)
    requires WellFormed(df) && HasIdColumns(df.columns) && i < |df.rows|
    ensures ClinicalTextTable(df).rows[i] ==
      [Filled(df.rows[i][IndexOf(df.columns, "stay_id")], Text("")),
       Text(Lower(JoinWith(". ", Fragments(df.columns, df.rows[i])))),
       Filled(df.rows[i][IndexOf(df.columns, "disposition")], Text(""))]
  {
    var text := FillNa(TextFrame(df), Text(""));
    assert text.rows[i] == FilledTextRow(df.columns, df.rows[i]);
    PickedFragments(df.columns, df.rows[i]);
  }

  /** A fragment enters the text exactly when its column is not excluded. */
  lemma {:induction false} FragmentsMembership(cols: seq<string>, row: seq<Value>, f: string)
    requires |row| == |cols|
    ensures f in Fragments(cols, row) <==>
      exists j :: 0 <= j < |cols| && cols[j] !in Excluded && f == Fragment(cols[j], row[j])
    decreases |cols|
  {
    if cols != [] {
      FragmentsMembership(cols[1..], row[1..], f);
      if exists j :: 0 <= j < |cols| && cols[j] !in Excluded && f == Fragment(cols[j], row[j]) {
        var j :| 0 <= j < |cols| && cols[j] !in Excluded && f == Fragment(cols[j], row[j]);
        if j > 0 {
          assert cols[1..][j - 1] == cols[j] && row[1..][j - 1] == row[j];
        }
      }
      if f in Fragments(cols[1..], row[1..]) {
        var j :| 0 <= j < |cols[1..]| && cols[1..][j] !in Excluded && f == Fragment(cols[1..][j], row[1..][j]);
        assert cols[j + 1] !in Excluded && f == Fragment(cols[j + 1], row[j + 1]);
      }
    }
  }

  /** Every described cell shows up, lower-cased, in the visit's text. */
  lemma TextContainsFragment(df: Table, i: nat, j: nat)
    requires WellFormed(df) && HasIdColumns(df.columns) && i < |df.rows| && j < |df.columns|
    requires df.columns[j] !in Excluded
    ensures ClinicalTextTable(df).rows[i][1].Text?
    ensures Contains(ClinicalTextTable(df).rows[i][1].s, Lower(Fragment(df.columns[j], df.rows[i][j])))
  {
    var frags := Fragments(df.columns, df.rows[i]);
    var f := Fragment(df.columns[j], df.rows[i][j]);
    ClinicalTextRow(df, i);
    FragmentsMembership(df.columns, df.rows[i], f);
    var k :| 0 <= k < |frags| && frags[k] == f;
    JoinContainsPart(". ", frags, k);
    LowerKeepsContains(JoinWith(". ", frags), f);
  }

  /** Columns whose name mentions a maximum or a minimum. */
  predicate IsVitalColumn(c: string) {
    Contains(c, "maximum") || Contains(c, "minimum")
  }

  /** `drop_vital`, as a set of names. */
  function VitalColumnNames(cols: seq<string>): set<string> {
    set c | c in cols && IsVitalColumn(c)
  }

  /** `all_df.drop(columns = drop_vital)`: exactly the maximum/minimum columns go. */
  function DropVitalColumns(t: Table): (r: Table)
    requires WellFormed(t)
    ensures WellFormed(r) && |r.rows| == |t.rows|
    ensures forall c :: c in r.columns <==> c in t.columns && !IsVitalColumn(c)
  {
    var r := DropColumns(t, VitalColumnNames(t.columns));
    assert forall c :: c in r.columns <==> c in t.columns && !IsVitalColumn(c) by {
      forall c ensures c in r.columns <==> c in t.columns && !IsVitalColumn(c) {
        DropColumnsMembership(t, VitalColumnNames(t.columns), c);
      }
    }
    r
  }

  /** The vitals-free text describes the original row's columns minus the
      identifiers and the maximum/minimum columns, in the original order. */
  lemma NoVitalFragmentsInOrder(t: Table, i: nat)
    requires WellFormed(t) && i < |t.rows|
    ensures Fragments(DropVitalColumns(t).columns, DropVitalColumns(t).rows[i]) ==
      FragmentsExcept(t.columns, t.rows[i], Excluded + VitalColumnNames(t.columns))
  {
    DroppedFragments(t.columns, t.rows[i], VitalColumnNames(t.columns), Excluded);
  }
}
