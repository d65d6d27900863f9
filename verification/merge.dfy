/** `pd.merge(l, r, on = key, how = 'left' | 'outer')` over tables whose only
    shared column is the key. */
module Merge {
  import opened Frames

  function RemoveAt<T>(s: seq<T>, k: nat): (r: seq<T>)
    requires k < |s|
    ensures |r| == |s| - 1
  {
    s[..k] + s[k + 1..]
  }

  /** A run of `n` NaN cells. */
  function Nulls(n: nat): (r: seq<Value>)
    ensures |r| == n && forall i :: 0 <= i < n ==> r[i] == Missing
  {
    seq(n, _ => Missing)
  }

  /** The right table's columns other than the key, in order: what a merge appends. */
  function RightColumns(r: Table, key: string): seq<string>
    requires key in r.columns
  {
    RemoveAt(r.columns, IndexOf(r.columns, key))
  }

  /** Both tables carry the key and share no other column (pandas would suffix a
      clashing name with _x/_y; the script's merges never clash). */
  predicate Joinable(l: Table, r: Table, key: string) {
    && WellFormed(l) && WellFormed(r)
    && key in l.columns && key in r.columns
    && forall c :: c in RightColumns(r, key) ==> c !in l.columns
  }

  /** The rows whose cell `k` equals `v`, in their order. */
  function Matching(rows: seq<seq<Value>>, k: nat, v: Value): (ms: seq<seq<Value>>)
    requires forall i :: 0 <= i < |rows| ==> k < |rows[i]|
    ensures forall m :: m in ms ==> m in rows && m[k] == v
  {
    if rows == [] then []
    else (if rows[0][k] == v then [rows[0]] else []) + Matching(rows[1..], k, v)
  }

  /** No row matches exactly when no row's cell `k` is `v`. */
  lemma {:induction false} MatchingEmpty(rows: seq<seq<Value>>, k: nat, v: Value)
    requires forall i :: 0 <= i < |rows| ==> k < |rows[i]|
    ensures Matching(rows, k, v) == [] <==> forall i :: 0 <= i < |rows| ==> rows[i][k] != v
    decreases |rows|
  {
    if rows != [] {
      MatchingEmpty(rows[1..], k, v);
      assert forall i :: 0 < i < |rows| ==> rows[i] == rows[1..][i - 1];
    }
  }

  /** The output rows of a left merge for one left row: one per matching right
      row, or the left row padded with NaN when nothing matches. */
  function JoinRow(lrow: seq<Value>, lk: nat, r: Table, rk: nat): (out: seq<seq<Value>>)
    requires lk < |lrow| && WellFormed(r) && rk < |r.columns|
    ensures |out| >= 1
    ensures forall o :: o in out ==> |o| == |lrow| + |r.columns| - 1
  {
    var ms := Matching(r.rows, rk, lrow[lk]);
    assert forall m :: m in r.rows ==> |m| == |r.columns|;
    if ms == [] then [lrow + Nulls(|r.columns| - 1)]
    else seq(|ms|, j requires 0 <= j < |ms| => lrow + RemoveAt(ms[j], rk))
  }

  /** Lists of rows laid end to end, in order. */
  function Concat(parts: seq<seq<seq<Value>>>): seq<seq<Value>> {
    if parts == [] then [] else parts[0] + Concat(parts[1..])
  }

  /** Non-empty parts whose rows all have width `w` give at least one row per
      part, all of width `w`. */
  lemma {:induction false} ConcatShape(parts: seq<seq<seq<Value>>>, w: nat)
    requires forall k :: 0 <= k < |parts| ==> |parts[k]| >= 1
    requires forall k, i :: 0 <= k < |parts| && 0 <= i < |parts[k]| ==> |parts[k][i]| == w
    ensures |Concat(parts)| >= |parts|
    ensures forall i :: 0 <= i < |Concat(parts)| ==> |Concat(parts)[i]| == w
    decreases |parts|
  {
    if parts != [] {
      var rest := parts[1..];
      assert forall k :: 0 <= k < |rest| ==> rest[k] == parts[k + 1];
      ConcatShape(rest, w);
      var out := Concat(parts);
      assert out == parts[0] + Concat(rest);
      forall i | 0 <= i < |out| ensures |out[i]| == w {
        if i < |parts[0]| {
          assert out[i] == parts[0][i];
        } else {
          assert out[i] == Concat(rest)[i - |parts[0]|];
        }
      }
    }
  }

  /** Parts of one row each concatenate to those rows, one per part. */
  lemma {:induction false} ConcatSingletons(parts: seq<seq<seq<Value>>>)
    requires forall k :: 0 <= k < |parts| ==> |parts[k]| == 1
    ensures |Concat(parts)| == |parts|
    ensures forall i :: 0 <= i < |parts| ==> Concat(parts)[i] == parts[i][0]
    decreases |parts|
  {
    if parts != [] {
      var rest := parts[1..];
      assert forall k :: 0 <= k < |rest| ==> rest[k] == parts[k + 1];
      ConcatSingletons(rest);
      assert Concat(parts) == parts[0] + Concat(rest);
      forall i | 0 <= i < |parts| ensures Concat(parts)[i] == parts[i][0] {
        if i > 0 {
          assert Concat(parts)[i] == Concat(rest)[i - 1];
        }
      }
    }
  }

  /** The output rows of each left row, in left order. */
  function JoinParts(lrows: seq<seq<Value>>, lk: nat, r: Table, rk: nat): seq<seq<seq<Value>>>
    requires forall i :: 0 <= i < |lrows| ==> lk < |lrows[i]|
    requires WellFormed(r) && rk < |r.columns|
  {
    seq(|lrows|, k requires 0 <= k < |lrows| => JoinRow(lrows[k], lk, r, rk))
  }

  function JoinRows(lrows: seq<seq<Value>>, width: nat, lk: nat, r: Table, rk: nat): (out: seq<seq<Value>>)
    requires lk < width && forall i :: 0 <= i < |lrows| ==> |lrows[i]| == width
    requires WellFormed(r) && rk < |r.columns|
    ensures |out| >= |lrows|
    ensures forall i :: 0 <= i < |out| ==> |out[i]| == width + |r.columns| - 1
  {
    var parts := JoinParts(lrows, lk, r, rk);
    assert forall k, i :: 0 <= k < |parts| && 0 <= i < |parts[k]| ==> |parts[k][i]| == width + |r.columns| - 1 by {
      forall k, i | 0 <= k < |parts| && 0 <= i < |parts[k]| ensures |parts[k][i]| == width + |r.columns| - 1 {
        assert parts[k][i] in JoinRow(lrows[k], lk, r, rk);
      }
    }
    ConcatShape(parts, width + |r.columns| - 1);
    Concat(parts)
  }

  /** `pd.merge(l, r, on = key, how = 'left')`: the left columns followed by the
      right table's other columns; every left row, in order, at least once. */
  function LeftJoin(l: Table, r: Table, key: string): (j: Table)
    requires Joinable(l, r, key)
    ensures WellFormed(j) && j.columns == l.columns + RightColumns(r, key)
    ensures |j.rows| >= |l.rows|
  {
    Table(l.columns + RightColumns(r, key),
          JoinRows(l.rows, |l.columns|, IndexOf(l.columns, key), r, IndexOf(r.columns, key)))
  }

  /** The first right row whose key is `v`. */
  function Lookup(r: Table, key: string, v: Value): (o: Option<seq<Value>>)
    requires WellFormed(r) && key in r.columns
    ensures o.Some? ==> o.value in r.rows && o.value[IndexOf(r.columns, key)] == v
  {
    var ms := Matching(r.rows, IndexOf(r.columns, key), v);
    if ms == [] then None else Some(ms[0])
  }

  /** The lookup fails exactly when no right row carries the key `v`. */
  lemma LookupNone(r: Table, key: string, v: Value)
    requires WellFormed(r) && key in r.columns
    ensures Lookup(r, key, v).None? <==> forall i :: 0 <= i < |r.rows| ==> r.rows[i][IndexOf(r.columns, key)] != v
  {
    MatchingEmpty(r.rows, IndexOf(r.columns, key), v);
  }

  /** What a left merge appends to a left row whose key is `v`, when the right
      table has at most one row per key: that row's other cells, or NaN. */
  function RightPart(r: Table, key: string, v: Value): (p: seq<Value>)
    requires WellFormed(r) && key in r.columns
    ensures |p| == |r.columns| - 1
  {
    match Lookup(r, key, v)
    case None => Nulls(|r.columns| - 1)
    case Some(rr) => RemoveAt(rr, IndexOf(r.columns, key))
  }

  lemma {:induction false} MatchingAtMostOne(rows: seq<seq<Value>>, k: nat, v: Value)
    requires forall i :: 0 <= i < |rows| ==> k < |rows[i]|
    requires forall i, j :: 0 <= i < j < |rows| ==> rows[i][k] != rows[j][k]
    ensures |Matching(rows, k, v)| <= 1
    decreases |rows|
  {
    if rows != [] {
      if rows[0][k] == v {
        assert forall i :: 0 <= i < |rows[1..]| ==> rows[1..][i][k] != v by {
          forall i | 0 <= i < |rows[1..]| ensures rows[1..][i][k] != v {
            assert rows[1..][i] == rows[i + 1];
          }
        }
        MatchingEmpty(rows[1..], k, v);
      } else {
        MatchingAtMostOne(rows[1..], k, v);
      }
    }
  }

  /** On unique right keys one left row yields exactly one output row. */
  lemma JoinRowUnique(lrow: seq<Value>, lk: nat, r: Table, key: string)
    requires lk < |lrow| && WellFormed(r) && key in r.columns && UniqueKeys(r, key)
    ensures JoinRow(lrow, lk, r, IndexOf(r.columns, key)) == [lrow + RightPart(r, key, lrow[lk])]
  {
    MatchingAtMostOne(r.rows, IndexOf(r.columns, key), lrow[lk]);
  }

  lemma JoinRowsUnique(lrows: seq<seq<Value>>, width: nat, lk: nat, r: Table, key: string)
    requires lk < width && forall i :: 0 <= i < |lrows| ==> |lrows[i]| == width
    requires WellFormed(r) && key in r.columns && UniqueKeys(r, key)
    ensures |JoinRows(lrows, width, lk, r, IndexOf(r.columns, key))| == |lrows|
    ensures forall i :: 0 <= i < |lrows| ==>
      JoinRows(lrows, width, lk, r, IndexOf(r.columns, key))[i] == lrows[i] + RightPart(r, key, lrows[i][lk])
  {
    var parts := JoinParts(lrows, lk, r, IndexOf(r.columns, key));
    forall k | 0 <= k < |parts| ensures parts[k] == [lrows[k] + RightPart(r, key, lrows[k][lk])] {
      JoinRowUnique(lrows[k], lk, r, key);
    }
    ConcatSingletons(parts);
  }

  /** With at most one right row per key, a left merge keeps every left row, in
      order, exactly once, and appends the matching right row's other cells or
      NaN when no right row matches. */
  lemma LeftJoinKeepsRows(l: Table, r: Table, key: string)
    requires Joinable(l, r, key) && UniqueKeys(r, key)
    ensures |LeftJoin(l, r, key).rows| == |l.rows|
    ensures forall i :: 0 <= i < |l.rows| ==>
      LeftJoin(l, r, key).rows[i] == l.rows[i] + RightPart(r, key, l.rows[i][IndexOf(l.columns, key)])
  {
    JoinRowsUnique(l.rows, |l.columns|, IndexOf(l.columns, key), r, key);
  }

  /** A left merge on unique right keys keeps the key column as it was, so
      unique left keys stay unique. */
  lemma LeftJoinKeepsKeys(l: Table, r: Table, key: string)
    requires Joinable(l, r, key) && UniqueKeys(r, key)
    ensures ColumnValues(LeftJoin(l, r, key), key) == ColumnValues(l, key)
    ensures UniqueKeys(l, key) ==> UniqueKeys(LeftJoin(l, r, key), key)
  {
    var j := LeftJoin(l, r, key);
    var k := IndexOf(l.columns, key);
    IndexOfAppend(l.columns, RightColumns(r, key), key);
    LeftJoinKeepsRows(l, r, key);
  }

  /** With unique keys, looking up a row's own key finds that row. */
  lemma RightPartOfRow(r: Table, key: string, i: nat)
    requires WellFormed(r) && key in r.columns && UniqueKeys(r, key)
    requires i < |r.rows|
    ensures RightPart(r, key, r.rows[i][IndexOf(r.columns, key)]) == RemoveAt(r.rows[i], IndexOf(r.columns, key))
  {
    var k := IndexOf(r.columns, key);
    var o := Lookup(r, key, r.rows[i][k]);
    LookupNone(r, key, r.rows[i][k]);
    assert o.Some?;
    var j :| 0 <= j < |r.rows| && r.rows[j] == o.value;
    assert j == i;
  }

  /** A table whose first column is the key merges in the rest of its columns. */
  lemma KeyedRightColumns(t: Table, key: string, rest: seq<string>)
    requires t.columns == [key] + rest
    ensures key in t.columns && IndexOf(t.columns, key) == 0
    ensures RightColumns(t, key) == rest
  {
    assert t.columns[1..] == rest;
  }

  /** A left merge on unique right keys leaves the left part of every row as it was. */
  lemma LeftJoinPrefix(l: Table, r: Table, key: string)
    requires Joinable(l, r, key) && UniqueKeys(r, key)
    ensures |LeftJoin(l, r, key).rows| == |l.rows|
    ensures forall i, j :: 0 <= i < |l.rows| && 0 <= j < |l.columns| ==> LeftJoin(l, r, key).rows[i][j] == l.rows[i][j]
  {
    LeftJoinKeepsRows(l, r, key);
  }

  /** A key the right table lacks gets NaN for every right column. */
  lemma RightPartMissing(r: Table, key: string, v: Value)
    requires WellFormed(r) && key in r.columns && v !in ColumnValues(r, key)
    ensures RightPart(r, key, v) == Nulls(|r.columns| - 1)
  {
    var vs := ColumnValues(r, key);
    forall j | 0 <= j < |r.rows| ensures r.rows[j][IndexOf(r.columns, key)] != v {
      assert vs[j] in vs;
    }
  }

  /** The right rows whose key occurs in none of `lkeys`. */
  function RightOnly(rows: seq<seq<Value>>, rk: nat, lkeys: seq<Value>): (out: seq<seq<Value>>)
    requires forall i :: 0 <= i < |rows| ==> rk < |rows[i]|
    ensures forall o :: o in out ==> o in rows && o[rk] !in lkeys
  {
    if rows == [] then []
    else (if rows[0][rk] !in lkeys then [rows[0]] else []) + RightOnly(rows[1..], rk, lkeys)
  }

  /** Right-only rows as an outer merge emits them: NaN for every left column but
      the key, which takes the right row's key. */
  function PadLeft(extra: seq<seq<Value>>, width: nat, lk: nat, rk: nat): (out: seq<seq<Value>>)
    requires lk < width && forall i :: 0 <= i < |extra| ==> rk < |extra[i]|
    ensures |out| == |extra|
    ensures forall i :: 0 <= i < |out| ==> |out[i]| == width + |extra[i]| - 1
  {
    seq(|extra|, e requires 0 <= e < |extra| => Nulls(width)[lk := extra[e][rk]] + RemoveAt(extra[e], rk))
  }

  /** `pd.merge(l, r, on = key, how = 'outer')`: the left merge, followed by the
      right rows no left row matched. */
  function OuterJoin(l: Table, r: Table, key: string): (j: Table)
    requires Joinable(l, r, key)
    ensures WellFormed(j) && j.columns == l.columns + RightColumns(r, key)
  {
    var rk := IndexOf(r.columns, key);
    assert forall o :: o in r.rows ==> |o| == |r.columns|;
    var extra := RightOnly(r.rows, rk, ColumnValues(l, key));
    assert forall i :: 0 <= i < |extra| ==> |extra[i]| == |r.columns| by {
      forall i | 0 <= i < |extra| ensures |extra[i]| == |r.columns| {
        assert extra[i] in extra;
      }
    }
    var left := LeftJoin(l, r, key);
    var pad := PadLeft(extra, |l.columns|, IndexOf(l.columns, key), rk);
    AppendRows(left, pad);
    Table(left.columns, left.rows + pad)
  }

  /** Rows of the table's width appended to a well-formed table keep it well-formed. */
  lemma AppendRows(t: Table, more: seq<seq<Value>>)
    requires WellFormed(t) && forall i :: 0 <= i < |more| ==> |more[i]| == |t.columns|
    ensures WellFormed(Table(t.columns, t.rows + more))
  {
    forall i | 0 <= i < |t.rows + more| ensures |(t.rows + more)[i]| == |t.columns| {
      if i < |t.rows| {
        assert (t.rows + more)[i] == t.rows[i];
      } else {
        assert (t.rows + more)[i] == more[i - |t.rows|];
      }
    }
  }

  lemma {:induction false} RightOnlyEmpty(rows: seq<seq<Value>>, rk: nat, lkeys: seq<Value>)
    requires forall i :: 0 <= i < |rows| ==> rk < |rows[i]| && rows[i][rk] in lkeys
    ensures RightOnly(rows, rk, lkeys) == []
    decreases |rows|
  {
    if rows != [] {
      assert forall i :: 0 <= i < |rows[1..]| ==> rows[1..][i] == rows[i + 1];
      RightOnlyEmpty(rows[1..], rk, lkeys);
    }
  }

  /** When every right key also occurs on the left, the outer merge adds no row:
      it is the left merge. */
  lemma OuterJoinCoveredKeys(l: Table, r: Table, key: string)
    requires Joinable(l, r, key)
    requires forall i :: 0 <= i < |r.rows| ==> r.rows[i][IndexOf(r.columns, key)] in ColumnValues(l, key)
    ensures OuterJoin(l, r, key) == LeftJoin(l, r, key)
  {
    RightOnlyEmpty(r.rows, IndexOf(r.columns, key), ColumnValues(l, key));
  }
}
