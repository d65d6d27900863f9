/** The set-valued reducers: group a one-to-many table by stay, lower-case its text
    column, collapse each group to its distinct values and join them with ", ". */
module Reducers {
  import opened Strings
  import opened Frames
  import opened Merge

  predicate NoDuplicates<T(==)>(s: seq<T>) {
    forall i, j :: 0 <= i < j < |s| ==> s[i] != s[j]
  }

  /** The distinct elements of `xs`. Python's `list(set(xs))` lists them in an
      unspecified order; the model lists each at its first occurrence. */
  function Dedup<T(==, !new)>(xs: seq<T>): (r: seq<T>)
    ensures NoDuplicates(r)
    ensures forall x :: x in r <==> x in xs
    decreases |xs|
  {
    if xs == [] then []
    else
      var init := xs[..|xs| - 1];
      assert xs == init + [xs[|xs| - 1]];
      var rest := Dedup(init);
      if xs[|xs| - 1] in rest then rest else rest + [xs[|xs| - 1]]
  }

  /** A row of a one-to-many table after `loc[:, ['stay_id', col]]`: the stay
      and the text cell (NaN or a string). */
  datatype Entry = Entry(stay: Value, item: Option<string>)

  /** Diagnosis, medication and dispensing rows go through `fillna('')` before
      grouping; rhythm and pain rows with a NaN value are dropped instead. */
  datatype NullPolicy = FillEmpty | DropNull

  /** The group a row falls in. `fillna('')` also turns a NaN stay into ''. */
  function GroupKey(e: Entry, policy: NullPolicy): Value {
    if policy == FillEmpty then Filled(e.stay, Text("")) else e.stay
  }

  /** Whether a row reaches a group: `groupby` drops NaN keys and `dropna`
      drops NaN values. */
  predicate Counted(e: Entry, policy: NullPolicy) {
    policy == FillEmpty || (e.stay != Missing && e.item.Some?)
  }

  /** What a counted row contributes: its lower-cased text, or '' for NaN. */
  function Token(item: Option<string>): string {
    match item
    case Some(s) => Lower(s)
    case None => ""
  }

  /** The group keys of the counted rows, in row order, with repetitions. */
  function GroupKeys(entries: seq<Entry>, policy: NullPolicy): (ks: seq<Value>)
    ensures forall k :: k in ks ==> k != Missing
  {
    if entries == [] then []
    else
      (if Counted(entries[0], policy) then [GroupKey(entries[0], policy)] else [])
      + GroupKeys(entries[1..], policy)
  }

  /** The tokens of the counted rows of group `k`, in row order, with repetitions. */
  function GroupTokens(entries: seq<Entry>, k: Value, policy: NullPolicy): seq<string> {
    if entries == [] then []
    else
      (if Counted(entries[0], policy) && GroupKey(entries[0], policy) == k then [Token(entries[0].item)] else [])
      + GroupTokens(entries[1..], k, policy)
  }

  /** The distinct tokens of group `k`: the model's `list(set(x))`. */
  function Tokens(entries: seq<Entry>, k: Value, policy: NullPolicy): seq<string> {
    Dedup(GroupTokens(entries, k, policy))
  }

  /** The set of tokens the source rows give stay `k`. */
  function TokenSet(entries: seq<Entry>, k: Value, policy: NullPolicy): set<string> {
    set e | e in entries && Counted(e, policy) && GroupKey(e, policy) == k :: Token(e.item)
  }

  /** `groupby('stay_id')[col].apply(lambda x: list(set(x)))` followed by
      `', '.join`: one row per group, holding [stay, joined tokens]. */
  function SetReduce(entries: seq<Entry>, col: string, policy: NullPolicy): (t: Table)
    ensures WellFormed(t) && t.columns == [Key, col]
  {
    var keys := Dedup(GroupKeys(entries, policy));
    Table([Key, col], seq(|keys|, i requires 0 <= i < |keys| =>
      [keys[i], Text(JoinWith(", ", Tokens(entries, keys[i], policy)))]))
  }

  lemma {:induction false} GroupKeysMembership(entries: seq<Entry>, policy: NullPolicy, k: Value)
    ensures k in GroupKeys(entries, policy) <==>
      exists e :: e in entries && Counted(e, policy) && GroupKey(e, policy) == k
    decreases |entries|
  {
    if entries != [] {
      GroupKeysMembership(entries[1..], policy, k);
      if exists e :: e in entries && Counted(e, policy) && GroupKey(e, policy) == k {
        var e :| e in entries && Counted(e, policy) && GroupKey(e, policy) == k;
        if e != entries[0] {
          assert e in entries[1..];
        }
      }
    }
  }

  lemma {:induction false} GroupTokensMembership(entries: seq<Entry>, k: Value, policy: NullPolicy, t: string)
    ensures t in GroupTokens(entries, k, policy) <==> t in TokenSet(entries, k, policy)
    decreases |entries|
  {
    if entries != [] {
      GroupTokensMembership(entries[1..], k, policy, t);
      if t in TokenSet(entries, k, policy) {
        var e :| e in entries && Counted(e, policy) && GroupKey(e, policy) == k && Token(e.item) == t;
        if e != entries[0] {
          assert e in entries[1..];
        }
      }
    }
  }

  /** Each set reducer yields exactly one row per stay that has a counted source
      row, and no stay twice. */
  lemma SetReduceOneRowPerStay(entries: seq<Entry>, col: string, policy: NullPolicy)
    ensures UniqueKeys(SetReduce(entries, col, policy), Key)
    ensures forall k :: k in ColumnValues(SetReduce(entries, col, policy), Key) <==>
      exists e :: e in entries && Counted(e, policy) && GroupKey(e, policy) == k
  {
    var t := SetReduce(entries, col, policy);
    var keys := Dedup(GroupKeys(entries, policy));
    SetReduceUniqueKeys(entries, col, policy);
    assert IndexOf(t.columns, Key) == 0;
    assert ColumnValues(t, Key) == keys;
    forall k ensures k in keys <==> exists e :: e in entries && Counted(e, policy) && GroupKey(e, policy) == k {
      GroupKeysMembership(entries, policy, k);
    }
  }

  /** The reduction has one row per stay. */
  lemma SetReduceUniqueKeys(entries: seq<Entry>, col: string, policy: NullPolicy)
    ensures UniqueKeys(SetReduce(entries, col, policy), Key)
  {
    var t := SetReduce(entries, col, policy);
    assert IndexOf(t.columns, Key) == 0;
    assert ColumnValues(t, Key) == Dedup(GroupKeys(entries, policy));
  }

  /** The cell of a reduced row is the ", "-join of the stay's tokens, each
      exactly once: every lower-cased source value of the stay and nothing else. */
  lemma SetReduceTokens(entries: seq<Entry>, col: string, policy: NullPolicy, i: nat)
    requires i < |SetReduce(entries, col, policy).rows|
    ensures var row := SetReduce(entries, col, policy).rows[i];
      && row[1] == Text(JoinWith(", ", Tokens(entries, row[0], policy)))
      && NoDuplicates(Tokens(entries, row[0], policy))
      && forall t :: t in Tokens(entries, row[0], policy) <==> t in TokenSet(entries, row[0], policy)
  {
    var row := SetReduce(entries, col, policy).rows[i];
    forall t ensures t in Tokens(entries, row[0], policy) <==> t in TokenSet(entries, row[0], policy) {
      GroupTokensMembership(entries, row[0], policy, t);
    }
  }

  /** Splitting a reduced cell on ", " gives back the stay's token set, with no
      duplicates, provided no token itself contains ", " (a value such as
      "fever, unspecified" would be cut in two). */
  lemma SetReduceSplit(entries: seq<Entry>, col: string, policy: NullPolicy, i: nat)
    requires i < |SetReduce(entries, col, policy).rows|
    requires forall t :: t in TokenSet(entries, SetReduce(entries, col, policy).rows[i][0], policy) ==> !Contains(t, ", ")
    ensures var row := SetReduce(entries, col, policy).rows[i];
      && row[1].Text?
      && NoDuplicates(Split(row[1].s, ", "))
      && forall t :: t in Split(row[1].s, ", ") <==> t in TokenSet(entries, row[0], policy)
  {
    var keys := Dedup(GroupKeys(entries, policy));
    var row := SetReduce(entries, col, policy).rows[i];
    var k := row[0];
    assert k == keys[i];
    var ts := Tokens(entries, k, policy);
    SetReduceTokens(entries, col, policy, i);
    GroupKeysMembership(entries, policy, k);
    var e :| e in entries && Counted(e, policy) && GroupKey(e, policy) == k;
    assert Token(e.item) in TokenSet(entries, k, policy);
    assert |ts| >= 1;
    SplitJoinRoundTrip(ts);
  }

  /** What a left merge with a set reduction appends for stay `k`: the ", "-join
      of the stay's distinct tokens when some counted row names the stay, NaN
      otherwise. */
  function ReducedValue(entries: seq<Entry>, k: Value, policy: NullPolicy): Value {
    if exists e :: e in entries && Counted(e, policy) && GroupKey(e, policy) == k
    then Text(JoinWith(", ", Tokens(entries, k, policy)))
    else Missing
  }

  /** With NaN stays filled, a stay's reduced value is NaN exactly when no row
      names the stay. */
  lemma ReducedValueMissing(entries: seq<Entry>, k: Value)
    ensures ReducedValue(entries, k, FillEmpty) == Missing <==>
      forall e :: e in entries ==> Filled(e.stay, Text("")) != k
  {
  }

  /** Merging a set reduction on the stay appends the stay's reduced value, for
      either null policy. */
  lemma SetReducePart(entries: seq<Entry>, col: string, policy: NullPolicy, k: Value)
    ensures RightPart(SetReduce(entries, col, policy), Key, k) == [ReducedValue(entries, k, policy)]
  {
    if exists e :: e in entries && Counted(e, policy) && GroupKey(e, policy) == k {
      SetReducePresent(entries, col, policy, k);
    } else {
      SetReduceAbsent(entries, col, policy, k);
    }
  }

  lemma SetReducePresent(entries: seq<Entry>, col: string, policy: NullPolicy, k: Value)
    requires exists e :: e in entries && Counted(e, policy) && GroupKey(e, policy) == k
    ensures RightPart(SetReduce(entries, col, policy), Key, k) == [Text(JoinWith(", ", Tokens(entries, k, policy)))]
  {
    var d := SetReduce(entries, col, policy);
    SetReduceOneRowPerStay(entries, col, policy);
    KeyedRightColumns(d, Key, [col]);
    var keys := ColumnValues(d, Key);
    assert k in keys;
    var j :| 0 <= j < |keys| && keys[j] == k;
    RightPartOfRow(d, Key, j);
    SetReduceTokens(entries, col, policy, j);
    assert RemoveAt(d.rows[j], 0) == [d.rows[j][1]];
  }

  lemma SetReduceAbsent(entries: seq<Entry>, col: string, policy: NullPolicy, k: Value)
    requires forall e :: e in entries && Counted(e, policy) ==> GroupKey(e, policy) != k
    ensures RightPart(SetReduce(entries, col, policy), Key, k) == [Missing]
  {
    var d := SetReduce(entries, col, policy);
    SetReduceOneRowPerStay(entries, col, policy);
    KeyedRightColumns(d, Key, [col]);
    assert k !in ColumnValues(d, Key);
    RightPartMissing(d, Key, k);
  }
}
