/** Data frames: a table is a list of column names and a list of rows, each row
    holding one cell per column, in column order. A cell is pandas' NaN, a string,
    a number, or a list of numbers. */
module Frames {
  import opened Strings

  datatype Option<T> = None | Some(value: T)

  /** A cell. `Missing` is pandas' NaN; numbers are integers (see README). */
  datatype Value = Missing | Text(s: string) | Num(n: int) | Vector(xs: seq<int>)

  /** `str(v)`, as `astype(str)` applies it: NaN becomes the text "nan", and a
      number becomes decimal text that reads back as the number. */
  function Render(v: Value): (r: string)
    ensures v == Missing ==> r == "nan"
    ensures v.Num? ==> DecimalValue(r) == v.n
  {
    match v
    case Missing => "nan"
    case Text(s) => s
    case Num(n) => IntText(n)
    case Vector(xs) => "[" + JoinWith(", ", seq(|xs|, i requires 0 <= i < |xs| => IntText(xs[i]))) + "]"
  }

  datatype Table = Table(columns: seq<string>, rows: seq<seq<Value>>)

  /** Every row has one cell per column. */
  predicate WellFormed(t: Table) {
    forall i :: 0 <= i < |t.rows| ==> |t.rows[i]| == |t.columns|
  }

  /** The visit identifier every per-visit table is keyed on. */
  const Key: string := "stay_id"

  /** Position of the first column named `c`. */
  function IndexOf(cols: seq<string>, c: string): (k: nat)
    requires c in cols
    ensures k < |cols| && cols[k] == c && c !in cols[..k]
  {
    if cols[0] == c then 0
    else
      var k := 1 + IndexOf(cols[1..], c);
      assert cols[..k] == [cols[0]] + cols[1..][..k - 1];
      k
  }

  /** A column named `c` with no `c` before it is the first one. */
  lemma IndexOfFirst(cols: seq<string>, c: string, k: nat)
    requires k < |cols| && cols[k] == c
    requires forall j :: 0 <= j < k ==> cols[j] != c
    ensures IndexOf(cols, c) == k
  {
    var m := IndexOf(cols, c);
    assert forall j :: 0 <= j < m ==> cols[..m][j] == cols[j];
  }

  /** Columns appended after the first `c` do not move it. */
  lemma {:induction false} IndexOfAppend(a: seq<string>, b: seq<string>, c: string)
    requires c in a
    ensures IndexOf(a + b, c) == IndexOf(a, c)
  {
    if a[0] != c {
      assert (a + b)[1..] == a[1..] + b;
      IndexOfAppend(a[1..], b, c);
    }
  }

  /** The cells of column `c`, top to bottom (`df[c]`). */
  function ColumnValues(t: Table, c: string): (vs: seq<Value>)
    requires WellFormed(t) && c in t.columns
    ensures |vs| == |t.rows|
    ensures forall i :: 0 <= i < |t.rows| ==> vs[i] == t.rows[i][IndexOf(t.columns, c)]
  {
    var k := IndexOf(t.columns, c);
    seq(|t.rows|, i requires 0 <= i < |t.rows| => t.rows[i][k])
  }

  /** No two rows share a value in column `c` (pandas: `df[c].is_unique`). */
  predicate UniqueKeys(t: Table, c: string)
    requires WellFormed(t) && c in t.columns
  {
    var k := IndexOf(t.columns, c);
    forall i, j :: 0 <= i < j < |t.rows| ==> t.rows[i][k] != t.rows[j][k]
  }

  function Filled(v: Value, fill: Value): Value {
    if v == Missing then fill else v
  }

  /** `fillna(fill)`: every NaN cell becomes `fill`, every other cell is kept. */
  function FillNa(t: Table, fill: Value): (r: Table)
    requires WellFormed(t)
    ensures WellFormed(r) && r.columns == t.columns && |r.rows| == |t.rows|
    ensures forall i, j :: 0 <= i < |t.rows| && 0 <= j < |t.columns| && t.rows[i][j] != Missing ==>
      r.rows[i][j] == t.rows[i][j]
    ensures forall i, j :: 0 <= i < |t.rows| && 0 <= j < |t.columns| && t.rows[i][j] == Missing ==>
      r.rows[i][j] == fill
  {
    Table(t.columns, seq(|t.rows|, i requires 0 <= i < |t.rows| => FillRow(t.rows[i], fill)))
  }

  /** `fillna(fill)` on one row. */
  function FillRow(row: seq<Value>, fill: Value): (r: seq<Value>)
    ensures |r| == |row|
    ensures forall j :: 0 <= j < |row| ==> r[j] == Filled(row[j], fill)
  {
    seq(|row|, j requires 0 <= j < |row| => Filled(row[j], fill))
  }

  /** Row i of a filled table is row i, filled. */
  lemma FillNaRow(t: Table, fill: Value, i: nat)
    requires WellFormed(t) && i < |t.rows|
    ensures FillNa(t, fill).rows[i] == FillRow(t.rows[i], fill)
  {
  }

  /** `fillna` leaves a column without NaN as it was. */
  lemma FillNaKeepsColumn(t: Table, fill: Value, c: string)
    requires WellFormed(t) && c in t.columns
    requires forall v :: v in ColumnValues(t, c) ==> v != Missing
    ensures ColumnValues(FillNa(t, fill), c) == ColumnValues(t, c)
  {
    var vs := ColumnValues(t, c);
    assert forall i :: 0 <= i < |t.rows| ==> vs[i] in vs;
  }

  /** Number of `true` entries of a mask. */
  function Count(keep: seq<bool>): nat {
    if keep == [] then 0 else (if keep[0] then 1 else 0) + Count(keep[1..])
  }

  /** The elements of `xs` whose mask entry is `true`, in order. */
  function Pick<T>(xs: seq<T>, keep: seq<bool>): (r: seq<T>)
    requires |xs| == |keep|
    ensures |r| == Count(keep)
  {
    if xs == [] then [] else (if keep[0] then [xs[0]] else []) + Pick(xs[1..], keep[1..])
  }

  lemma {:induction false} PickMembership<T>(xs: seq<T>, keep: seq<bool>, x: T)
    requires |xs| == |keep|
    ensures x in Pick(xs, keep) <==> exists i :: 0 <= i < |xs| && keep[i] && xs[i] == x
    decreases |xs|
  {
    if xs != [] {
      PickMembership(xs[1..], keep[1..], x);
      if x in Pick(xs[1..], keep[1..]) {
        var i :| 0 <= i < |xs[1..]| && keep[1..][i] && xs[1..][i] == x;
        assert keep[i + 1] && xs[i + 1] == x;
      }
      if exists i :: 0 <= i < |xs| && keep[i] && xs[i] == x {
        var i :| 0 <= i < |xs| && keep[i] && xs[i] == x;
        if i > 0 {
          assert keep[1..][i - 1] && xs[1..][i - 1] == x;
        }
      }
    }
  }

  /** The mask that keeps the columns not named in `names`. */
  function KeepMask(cols: seq<string>, names: set<string>): (keep: seq<bool>)
    ensures |keep| == |cols|
    ensures forall j :: 0 <= j < |cols| ==> (keep[j] <==> cols[j] !in names)
  {
    seq(|cols|, j requires 0 <= j < |cols| => cols[j] !in names)
  }

  /** `drop(columns = names)`: pandas raises unless every name is a column. */
  function DropColumns(t: Table, names: set<string>): (r: Table)
    requires WellFormed(t)
    requires forall c :: c in names ==> c in t.columns
    ensures WellFormed(r) && |r.rows| == |t.rows|
  {
    var keep := KeepMask(t.columns, names);
    Table(Pick(t.columns, keep), seq(|t.rows|, i requires 0 <= i < |t.rows| => Pick(t.rows[i], keep)))
  }

  lemma {:induction false} PickAll<T>(xs: seq<T>, keep: seq<bool>)
    requires |xs| == |keep| && forall j :: 0 <= j < |keep| ==> keep[j]
    ensures Pick(xs, keep) == xs
    decreases |xs|
  {
    if xs != [] {
      PickAll(xs[1..], keep[1..]);
    }
  }

  /** Dropping a column that comes first and only once removes the first cell of every row. */
  lemma DropFirstColumn(t: Table, c: string)
    requires WellFormed(t) && |t.columns| > 0 && t.columns[0] == c && c !in t.columns[1..]
    ensures DropColumns(t, {c}) == Table(t.columns[1..], seq(|t.rows|, i requires 0 <= i < |t.rows| => t.rows[i][1..]))
  {
    var keep := KeepMask(t.columns, {c});
    assert forall j :: 0 < j < |keep| ==> keep[j] by {
      forall j | 0 < j < |keep| ensures keep[j] {
        assert t.columns[j] == t.columns[1..][j - 1];
      }
    }
    PickAllButFirst(t.columns, keep);
    forall i | 0 <= i < |t.rows| ensures Pick(t.rows[i], keep) == t.rows[i][1..] {
      PickAllButFirst(t.rows[i], keep);
    }
  }

  /** A mask that drops only the first element keeps the tail. */
  lemma PickAllButFirst<T>(xs: seq<T>, keep: seq<bool>)
    requires 0 < |xs| == |keep| && !keep[0] && forall j :: 0 < j < |keep| ==> keep[j]
    ensures Pick(xs, keep) == xs[1..]
  {
    assert forall j :: 0 <= j < |keep[1..]| ==> keep[1..][j] == keep[j + 1];
    PickAll(xs[1..], keep[1..]);
  }

  lemma {:induction false} PickFirst(xs: seq<string>, row: seq<Value>, keep: seq<bool>, c: string)
    requires |xs| == |keep| == |row| && c in xs
    requires forall j :: 0 <= j < |xs| && xs[j] == c ==> keep[j]
    ensures c in Pick(xs, keep) && |Pick(row, keep)| == |Pick(xs, keep)|
    ensures Pick(row, keep)[IndexOf(Pick(xs, keep), c)] == row[IndexOf(xs, c)]
    decreases |xs|
  {
    if xs[0] != c {
      assert forall j :: 0 <= j < |xs[1..]| && xs[1..][j] == c ==> keep[1..][j] by {
        forall j | 0 <= j < |xs[1..]| && xs[1..][j] == c ensures keep[1..][j] {
          assert xs[j + 1] == c;
        }
      }
      PickFirst(xs[1..], row[1..], keep[1..], c);
      if keep[0] {
        PickFirstKept(xs, row, keep, c);
      } else {
        PickFirstDropped(xs, row, keep, c);
      }
    } else {
      assert Pick(xs, keep)[0] == c;
      assert Pick(row, keep)[0] == row[0];
    }
  }

  /** The step of `PickFirst` past a kept head that is not `c`. */
  lemma PickFirstKept(xs: seq<string>, row: seq<Value>, keep: seq<bool>, c: string)
    requires 0 < |xs| == |keep| == |row| && c in xs[1..] && xs[0] != c && keep[0]
    requires c in Pick(xs[1..], keep[1..])
    requires Pick(row[1..], keep[1..])[IndexOf(Pick(xs[1..], keep[1..]), c)] == row[1..][IndexOf(xs[1..], c)]
    ensures c in Pick(xs, keep)
    ensures Pick(row, keep)[IndexOf(Pick(xs, keep), c)] == row[IndexOf(xs, c)]
  {
    PickKeptHead(xs, keep);
    PickKeptHead(row, keep);
    IndexOfCons(xs[0], Pick(xs[1..], keep[1..]), c);
    IndexOfPastHead(xs, c);
    assert row[IndexOf(xs, c)] == row[1..][IndexOf(xs[1..], c)];
  }

  lemma IndexOfCons(x: string, rest: seq<string>, c: string)
    requires x != c && c in rest
    ensures c in [x] + rest && IndexOf([x] + rest, c) == 1 + IndexOf(rest, c)
  {
    assert ([x] + rest)[1..] == rest;
  }

  lemma PickKeptHead<T>(xs: seq<T>, keep: seq<bool>)
    requires 0 < |xs| == |keep| && keep[0]
    ensures Pick(xs, keep) == [xs[0]] + Pick(xs[1..], keep[1..])
  {
  }

  /** Past a first element that is not `c`, the position of `c` moves by one. */
  lemma IndexOfPastHead(cols: seq<string>, c: string)
    requires 0 < |cols| && cols[0] != c && c in cols
    ensures c in cols[1..] && IndexOf(cols, c) == 1 + IndexOf(cols[1..], c)
  {
  }

  /** The step of `PickFirst` past a dropped head. */
  lemma PickFirstDropped(xs: seq<string>, row: seq<Value>, keep: seq<bool>, c: string)
    requires 0 < |xs| == |keep| == |row| && c in xs[1..] && xs[0] != c && !keep[0]
    requires c in Pick(xs[1..], keep[1..])
    requires Pick(row[1..], keep[1..])[IndexOf(Pick(xs[1..], keep[1..]), c)] == row[1..][IndexOf(xs[1..], c)]
    ensures c in Pick(xs, keep)
    ensures Pick(row, keep)[IndexOf(Pick(xs, keep), c)] == row[IndexOf(xs, c)]
  {
    var rest := Pick(xs[1..], keep[1..]);
    assert Pick(xs, keep) == [] + rest == rest;
    assert Pick(row, keep) == [] + Pick(row[1..], keep[1..]) == Pick(row[1..], keep[1..]);
  }

  /** A column that is not dropped keeps its cells. */
  lemma DropKeepsColumn(t: Table, names: set<string>, c: string)
    requires WellFormed(t)
    requires forall n :: n in names ==> n in t.columns
    requires c in t.columns && c !in names
    ensures c in DropColumns(t, names).columns
    ensures ColumnValues(DropColumns(t, names), c) == ColumnValues(t, c)
  {
    var keep := KeepMask(t.columns, names);
    var r := DropColumns(t, names);
    var k := IndexOf(t.columns, c);
    assert keep[k] && t.columns[k] == c;
    PickMembership(t.columns, keep, c);
    forall i | 0 <= i < |t.rows| ensures r.rows[i][IndexOf(r.columns, c)] == t.rows[i][k] {
      PickFirst(t.columns, t.rows[i], keep, c);
    }
  }

  /** Dropping removes exactly the named columns and keeps every other one. */
  lemma DropColumnsMembership(t: Table, names: set<string>, c: string)
    requires WellFormed(t)
    requires forall n :: n in names ==> n in t.columns
    ensures c in DropColumns(t, names).columns <==> c in t.columns && c !in names
  {
    var keep := KeepMask(t.columns, names);
    PickMembership(t.columns, keep, c);
  }

  /** Name of column `c` after `rename(columns = m)`. */
  function Renamed(c: string, m: map<string, string>): string {
    if c in m then m[c] else c
  }

  /** `rename(columns = m)`: columns named in `m` get their new name, in place; cells are untouched. */
  function RenameColumns(t: Table, m: map<string, string>): (r: Table)
    ensures r.rows == t.rows && |r.columns| == |t.columns|
    ensures forall j :: 0 <= j < |t.columns| ==> r.columns[j] == Renamed(t.columns[j], m)
  {
    Table(seq(|t.columns|, j requires 0 <= j < |t.columns| => Renamed(t.columns[j], m)), t.rows)
  }

  /** `add_prefix(p)`: every column name gets the prefix `p`. */
  function AddPrefix(t: Table, p: string): (r: Table)
    ensures r.rows == t.rows && |r.columns| == |t.columns|
    ensures forall j :: 0 <= j < |t.columns| ==> r.columns[j] == p + t.columns[j]
  {
    Table(seq(|t.columns|, j requires 0 <= j < |t.columns| => p + t.columns[j]), t.rows)
  }

  /** Every name in `cols` has character `ch` at position `k`. */
  predicate CharAt(cols: seq<string>, k: nat, ch: char) {
    forall j :: 0 <= j < |cols| ==> k < |cols[j]| && cols[j][k] == ch
  }

  /** Every name in `cols` has a character other than `ch` at position `k`. */
  predicate CharNotAt(cols: seq<string>, k: nat, ch: char) {
    forall j :: 0 <= j < |cols| ==> k < |cols[j]| && cols[j][k] != ch
  }

  /** Names that differ at one position are different names. */
  lemma NamesApart(a: seq<string>, b: seq<string>, k: nat, ch: char)
    requires CharAt(a, k, ch) && CharNotAt(b, k, ch)
    ensures forall c :: c in a ==> c !in b
  {
  }

  lemma CharNotAtAppend(a: seq<string>, b: seq<string>, k: nat, ch: char)
    requires CharNotAt(a, k, ch) && CharNotAt(b, k, ch)
    ensures CharNotAt(a + b, k, ch)
  {
  }
}
