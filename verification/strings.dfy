/** Text helpers the pipeline relies on: lower-casing, joining with a separator,
    Python's str.split, substring search and the decimal rendering of integers. */
module Strings {

  /** Lower-cases an ASCII capital letter; every other character is kept. */
  function LowerChar(c: char): char {
    if 'A' <= c <= 'Z' then (c as int - 'A' as int + 'a' as int) as char else c
  }

  /** `str.lower()`, restricted to ASCII letters: the result has the same
      length, no capital letter, and every character that is not a capital
      letter where it was. */
  function Lower(s: string): (r: string)
    ensures |r| == |s|
    ensures forall i :: 0 <= i < |r| ==> !('A' <= r[i] <= 'Z')
    ensures forall i :: 0 <= i < |s| && !('A' <= s[i] <= 'Z') ==> r[i] == s[i]
  {
    seq(|s|, i requires 0 <= i < |s| => LowerChar(s[i]))
  }

  /** Lower-casing twice is lower-casing once. */
  lemma LowerIdempotent(s: string)
    ensures Lower(Lower(s)) == Lower(s)
  {
    LowerOfLowerCase(Lower(s));
  }

  /** The summed length of the parts. */
  function PartsLength(parts: seq<string>): nat {
    if |parts| == 0 then 0 else |parts[0]| + PartsLength(parts[1..])
  }

  /** `sep.join(parts)`: every part once, in order, with one separator
      between neighbours and none at either end. */
  function JoinWith(sep: string, parts: seq<string>): (r: string)
    ensures |parts| == 0 ==> r == ""
    ensures |parts| >= 1 ==> |r| >= |parts[0]| && r[..|parts[0]|] == parts[0]
    ensures |r| == PartsLength(parts) + (if |parts| == 0 then 0 else (|parts| - 1) * |sep|)
    decreases |parts|
  {
    if |parts| == 0 then ""
    else if |parts| == 1 then parts[0]
    else parts[0] + sep + JoinWith(sep, parts[1..])
  }

  /** `s.split(sep)`: cuts at the leftmost occurrences of `sep`, which do not overlap. */
  function Split(s: string, sep: string): (r: seq<string>)
    requires |sep| > 0
    ensures |r| >= 1
    decreases |s|
  {
    if |s| < |sep| then [s]
    else if s[..|sep|] == sep then [""] + Split(s[|sep|..], sep)
    else
      var rest := Split(s[1..], sep);
      [[s[0]] + rest[0]] + rest[1..]
  }

  /** `t` occurs in `s` starting at position `i`. */
  predicate OccursAt(s: string, t: string, i: int) {
    0 <= i <= |s| - |t| && s[i..i + |t|] == t
  }

  /** `t in s` for strings: `t` occurs in `s` at some position. */
  predicate Contains(s: string, t: string) {
    exists i :: 0 <= i <= |s| - |t| && OccursAt(s, t, i)
  }

  /** The decimal digit for `d`. */
  function DigitChar(d: nat): char
    requires d < 10
  {
    ('0' as int + d) as char
  }

  /** The decimal digits of `n`, most significant first, without leading zeros. */
  function NatText(n: nat): (s: string)
    ensures |s| >= 1 && forall i :: 0 <= i < |s| ==> '0' <= s[i] <= '9'
    ensures n > 0 ==> s[0] != '0'
    decreases n
  {
    if n < 10 then [DigitChar(n)] else NatText(n / 10) + [DigitChar(n % 10)]
  }

  /** `str(n)` for an integer. */
  function IntText(n: int): (s: string)
    ensures DecimalValue(s) == n
  {
    SignedRoundTrip(if n < 0 then -n else n);
    if n < 0 then "-" + NatText(-n) else NatText(n)
  }

  /** Both the plain and the signed digits of `m` read back as the number. */
  lemma SignedRoundTrip(m: nat)
    ensures DecimalValue(NatText(m)) == m
    ensures DecimalValue("-" + NatText(m)) == -(m as int)
  {
    NatTextRoundTrip(m);
    assert ("-" + NatText(m))[1..] == NatText(m);
  }

  /** The number a string of decimal digits denotes. */
  function DigitsValue(s: string): nat {
    if s == [] then 0
    else
      var d := s[|s| - 1] as int - '0' as int;
      DigitsValue(s[..|s| - 1]) * 10 + (if 0 <= d < 10 then d else 0)
  }

  /** The number an optionally signed decimal text denotes: `int(s)`. */
  function DecimalValue(s: string): int {
    if |s| > 0 && s[0] == '-' then 0 - DigitsValue(s[1..]) as int else DigitsValue(s)
  }

  /** Reading the digits back gives the number. */
  lemma {:induction false} NatTextRoundTrip(n: nat)
    ensures DigitsValue(NatText(n)) == n
    decreases n
  {
    if n >= 10 {
      NatTextRoundTrip(n / 10);
      var s := NatText(n);
      assert s[..|s| - 1] == NatText(n / 10);
    }
  }

  /** Text without capitals is its own lower-case form. */
  lemma LowerOfLowerCase(s: string)
    requires forall c :: c in s ==> !('A' <= c <= 'Z')
    ensures Lower(s) == s
  {
    assert forall i :: 0 <= i < |s| ==> s[i] in s;
  }

  lemma LowerAppend(a: string, b: string)
    ensures Lower(a + b) == Lower(a) + Lower(b)
  {
  }

  /** Lower-casing keeps every occurrence of a piece: the lower-cased piece occurs in the lower-cased text. */
  lemma LowerKeepsContains(s: string, t: string)
    requires Contains(s, t)
    ensures Contains(Lower(s), Lower(t))
  {
    var i :| 0 <= i <= |s| - |t| && OccursAt(s, t, i);
    assert Lower(s)[i..i + |t|] == Lower(t);
    assert OccursAt(Lower(s), Lower(t), i);
  }

  lemma ContainsInAppend(a: string, b: string, t: string)
    ensures Contains(a, t) ==> Contains(a + b, t)
    ensures Contains(b, t) ==> Contains(a + b, t)
  {
    if Contains(a, t) {
      var i :| 0 <= i <= |a| - |t| && OccursAt(a, t, i);
      assert (a + b)[i..i + |t|] == t;
      assert OccursAt(a + b, t, i);
    }
    if Contains(b, t) {
      var i :| 0 <= i <= |b| - |t| && OccursAt(b, t, i);
      assert (a + b)[|a| + i..|a| + i + |t|] == t;
      assert OccursAt(a + b, t, |a| + i);
    }
  }

  /** A text lacking one of the characters of `t` does not contain `t`. */
  lemma MissingCharNotContains(s: string, t: string, k: nat)
    requires k < |t| && t[k] !in s
    ensures !Contains(s, t)
  {
    forall i | 0 <= i <= |s| - |t| ensures !OccursAt(s, t, i) {
      assert s[i + k] in s;
    }
  }

  /** Every part of a joined string occurs in it. */
  lemma {:induction false} JoinContainsPart(sep: string, parts: seq<string>, j: nat)
    requires j < |parts|
    ensures Contains(JoinWith(sep, parts), parts[j])
    decreases |parts|
  {
    if |parts| == 1 {
      assert OccursAt(JoinWith(sep, parts), parts[0], 0);
    } else if j == 0 {
      ContainsInAppend(parts[0], sep + JoinWith(sep, parts[1..]), parts[0]);
      assert OccursAt(parts[0], parts[0], 0);
      assert parts[0] + sep + JoinWith(sep, parts[1..]) == parts[0] + (sep + JoinWith(sep, parts[1..]));
    } else {
      JoinContainsPart(sep, parts[1..], j - 1);
      ContainsInAppend(parts[0] + sep, JoinWith(sep, parts[1..]), parts[j]);
    }
  }

  /** A piece without ", " does not start with one, even when ", " follows it. */
  lemma PieceStart(p: string, rest: string)
    requires 0 < |p| && !Contains(p, ", ")
    ensures (p + ", " + rest)[..2] != ", "
  {
    var s := p + ", " + rest;
    if |p| >= 2 {
      assert p[0..2] == s[..2];
      assert !OccursAt(p, ", ", 0);
    } else {
      assert s[1] == ',';
    }
  }

  /** What a string does not contain, its tail does not contain either. */
  lemma NotContainsTail(p: string, t: string)
    requires 0 < |p| && !Contains(p, t)
    ensures !Contains(p[1..], t)
  {
    if Contains(p[1..], t) {
      var i :| 0 <= i <= |p[1..]| - |t| && OccursAt(p[1..], t, i);
      assert p[i + 1..i + 1 + |t|] == t;
      assert OccursAt(p, t, i + 1);
    }
  }

  lemma {:induction false} SplitAfterPiece(p: string, rest: string)
    requires !Contains(p, ", ")
    ensures Split(p + ", " + rest, ", ") == [p] + Split(rest, ", ")
    decreases |p|
  {
    var s := p + ", " + rest;
    if |p| == 0 {
      assert s[..2] == ", ";
      assert s[2..] == rest;
    } else {
      PieceStart(p, rest);
      NotContainsTail(p, ", ");
      SplitAfterPiece(p[1..], rest);
      assert s[1..] == p[1..] + ", " + rest;
      assert [s[0]] + p[1..] == p;
    }
  }

  /** A piece free of ", " is not cut at all. */
  lemma {:induction false} SplitWhole(p: string)
    requires !Contains(p, ", ")
    ensures Split(p, ", ") == [p]
    decreases |p|
  {
    if |p| >= 2 {
      assert !OccursAt(p, ", ", 0);
      assert !Contains(p[1..], ", ") by {
        if Contains(p[1..], ", ") {
          var i :| 0 <= i <= |p[1..]| - |", "| && OccursAt(p[1..], ", ", i);
          assert p[i + 1..i + 3] == ", ";
          assert OccursAt(p, ", ", i + 1);
        }
      }
      SplitWhole(p[1..]);
      assert [p[0]] + p[1..] == p;
    }
  }

  /** Splitting a ", "-joined list on ", " gives the list back, provided no part contains ", ". */
  lemma {:induction false} SplitJoinRoundTrip(parts: seq<string>)
    requires |parts| >= 1
    requires forall j :: 0 <= j < |parts| ==> !Contains(parts[j], ", ")
    ensures Split(JoinWith(", ", parts), ", ") == parts
    decreases |parts|
  {
    if |parts| == 1 {
      SplitWhole(parts[0]);
    } else {
      SplitAfterPiece(parts[0], JoinWith(", ", parts[1..]));
      SplitJoinRoundTrip(parts[1..]);
    }
  }

  /** Without the hypothesis the round trip fails: a single part "a, b" comes back as two. */
  lemma SplitJoinNeedsCommaFreeParts()
    ensures Split(JoinWith(", ", ["a, b"]), ", ") == ["a", "b"]
  {
    var s := "a, b";
    assert JoinWith(", ", [s]) == s;
    assert Split("b", ", ") == ["b"];
    assert s[1..] == ", b";
    assert ", b"[..2] == ", " && ", b"[2..] == "b";
    assert Split(", b", ", ") == ["", "b"];
    assert s[..2][0] == 'a';
    assert s[..2] != ", ";
    assert Split(s, ", ") == [[s[0]] + ""] + ["b"];
    assert [s[0]] + "" == "a";
  }
}
