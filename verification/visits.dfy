/** The ED-stay table: keep the visits that ended at home or in admission, label
    them, and lay them out as the per-visit base table every other table is
    merged into. */
module Visits {
  import opened Frames

  /** One row of the ED-stay table, restricted to the columns the script keeps.
      `stayTime` is the value the script derives from the in and out timestamps;
      it is taken as given (see README). */
  datatype Visit = Visit(
    subject: Value, stay: Value, disposition: Value,
    gender: Value, race: Value, stayTime: Value)

  /** The two outcomes the script keeps. */
  predicate Retained(v: Visit) {
    v.disposition == Text("HOME") || v.disposition == Text("ADMITTED")
  }

  /** The boolean mask filter: retained visits, in their order. */
  function Retain(vs: seq<Visit>): (r: seq<Visit>)
    ensures |r| <= |vs|
    ensures forall v :: v in r <==> v in vs && Retained(v)
  {
    if vs == [] then []
    else
      assert forall v :: v in vs <==> v == vs[0] || v in vs[1..];
      (if Retained(vs[0]) then [vs[0]] else []) + Retain(vs[1..])
  }

  /** Filtering a concatenation filters each part and keeps their order. */
  lemma {:induction false} RetainAppend(a: seq<Visit>, b: seq<Visit>)
    ensures Retain(a + b) == Retain(a) + Retain(b)
    decreases |a|
  {
    if a == [] {
      assert a + b == b;
    } else {
      assert (a + b)[0] == a[0] && (a + b)[1..] == a[1..] + b;
      RetainAppend(a[1..], b);
    }
  }

  /** Filtering twice is filtering once. */
  lemma {:induction false} RetainIdempotent(vs: seq<Visit>)
    ensures Retain(Retain(vs)) == Retain(vs)
    decreases |vs|
  {
    if vs != [] {
      RetainIdempotent(vs[1..]);
      if Retained(vs[0]) {
        assert Retain(vs) == [vs[0]] + Retain(vs[1..]);
        assert Retain(vs)[0] == vs[0] && Retain(vs)[1..] == Retain(vs[1..]);
        assert Retain(Retain(vs)) == [vs[0]] + Retain(Retain(vs[1..]));
      } else {
        assert Retain(vs) == [] + Retain(vs[1..]) == Retain(vs[1..]);
      }
    }
  }

  /** `(disposition == 'ADMITTED').astype(int)`. */
  function Label(v: Visit): (l: int)
    ensures l == 0 || l == 1
    ensures l == 1 <==> v.disposition == Text("ADMITTED")
  {
    if v.disposition == Text("ADMITTED") then 1 else 0
  }

  /** A retained visit is labelled 0 exactly when it went home. */
  lemma LabelOfRetained(v: Visit)
    requires Retained(v)
    ensures Label(v) == 0 <==> v.disposition == Text("HOME")
  {
  }

  /** `edstay_df`: the label replaces the disposition, under its name. */
  const EdStayColumns: seq<string> := ["subject_id", "stay_id", "gender", "race", "staytime", "disposition"]

  function RawRow(v: Visit): seq<Value> {
    [v.subject, v.stay, v.gender, v.race, v.stayTime, Num(Label(v))]
  }

  /** `edstay_df`: the retained visits, in order, with NaN filled with ''. */
  function EdStayTable(vs: seq<Visit>): (t: Table)
    ensures WellFormed(t) && t.columns == EdStayColumns && |t.rows| == |Retain(vs)|
  {
    var kept := Retain(vs);
    FillNa(Table(EdStayColumns, seq(|kept|, i requires 0 <= i < |kept| => RawRow(kept[i]))), Text(""))
  }

  /** Row i of `edstay_df` is the i-th retained visit: its cells with NaN as '',
      and a label 1 for admitted and 0 for home. */
  lemma EdStayRow(vs: seq<Visit>, i: nat)
    requires i < |Retain(vs)|
    ensures |EdStayTable(vs).rows| == |Retain(vs)|
    ensures var v := Retain(vs)[i];
      && Retained(v)
      && EdStayTable(vs).rows[i] == [Filled(v.subject, Text("")), Filled(v.stay, Text("")),
           Filled(v.gender, Text("")), Filled(v.race, Text("")), Filled(v.stayTime, Text("")),
           Num(if v.disposition == Text("ADMITTED") then 1 else 0)]
  {
    var kept := Retain(vs);
    var v := kept[i];
    assert v in kept;
    var row := EdStayTable(vs).rows[i];
    assert |row| == 6;
    assert row[5] == Num(Label(v));
  }

  /** The stay cell of row i of `edstay_df` is the i-th retained visit's stay. */
  lemma EdStayStay(vs: seq<Visit>, i: nat)
    requires i < |Retain(vs)|
    ensures |EdStayTable(vs).rows| == |Retain(vs)|
    ensures EdStayTable(vs).rows[i][1] == Filled(Retain(vs)[i].stay, Text(""))
  {
    EdStayRow(vs, i);
  }

  /** The label cell of row i of `edstay_df` is the i-th retained visit's label. */
  lemma EdStayLabel(vs: seq<Visit>, i: nat)
    requires i < |Retain(vs)|
    ensures |EdStayTable(vs).rows| == |Retain(vs)|
    ensures EdStayTable(vs).rows[i][5] == Num(Label(Retain(vs)[i]))
  {
    EdStayRow(vs, i);
  }

  /** The key column of `edstay_df` lists the retained visits' stays, NaN as ''. */
  lemma EdStayKeys(vs: seq<Visit>)
    ensures ColumnValues(EdStayTable(vs), Key) ==
      seq(|Retain(vs)|, i requires 0 <= i < |Retain(vs)| => Filled(Retain(vs)[i].stay, Text("")))
  {
    var t := EdStayTable(vs);
    assert IndexOf(t.columns, Key) == 1;
    forall i | 0 <= i < |Retain(vs)| ensures t.rows[i][1] == Filled(Retain(vs)[i].stay, Text("")) {
      EdStayRow(vs, i);
    }
  }
}
