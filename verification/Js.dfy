/** The JavaScript built-ins the application relies on, stated over Dafny values:
    `null`-or-value, `Array.prototype.slice`, `filter`, `includes` on strings,
    `Math.round` of a percentage, `Number.prototype.toString` on integers,
    `padStart(2, '0')`, `join` and ASCII `toLowerCase`. */
module Js {

  /** A value that may be absent (`null` / `undefined` in the source). */
  datatype Option<+T> = None | Some(value: T)

  /** JavaScript truthiness of an optional string: `null` and `''` are falsy. */
  predicate Truthy(s: Option<string>) {
    s.Some? && s.value != ""
  }

  // ---------------------------------------------------------------------------
  // Array.prototype.slice

  /** How `slice` turns a relative index into a position: negative values count
      from the end, and the result is clamped into `[0, len]`. */
  function SliceIndex(i: int, len: nat): (r: nat)
    ensures r <= len
    ensures 0 <= i <= len ==> r == i
    ensures i < 0 ==> r == (if len + i < 0 then 0 else len + i)
  {
    if i < 0 then (if len + i < 0 then 0 else len + i)
    else if i > len then len
    else i
  }

  /** `s.slice(start, end)`. */
  function Slice<T>(s: seq<T>, start: int, end: int): (r: seq<T>)
    ensures |r| <= |s|
    ensures 0 <= start <= end <= |s| ==> r == s[start..end]
    ensures 0 <= start <= |s| <= end ==> r == s[start..]
  {
    var a := SliceIndex(start, |s|);
    var b := SliceIndex(end, |s|);
    if a < b then s[a..b] else []
  }

  // ---------------------------------------------------------------------------
  // Array.prototype.filter

  /** `s.filter(p)`: the elements satisfying `p`, in their original order. */
  function Filter<T>(s: seq<T>, p: T -> bool): (r: seq<T>)
    ensures |r| <= |s|
    ensures forall i :: 0 <= i < |r| ==> r[i] in s && p(r[i])
    ensures forall i :: 0 <= i < |s| && p(s[i]) ==> s[i] in r
  {
    if |s| == 0 then []
    else if p(s[0]) then [s[0]] + Filter(s[1..], p)
    else Filter(s[1..], p)
  }

  /** Filtering distributes over concatenation: this is what "keeps the original
      order" means. */
  lemma {:induction false} FilterConcat<T>(a: seq<T>, b: seq<T>, p: T -> bool)
    ensures Filter(a + b, p) == Filter(a, p) + Filter(b, p)
  {
    if |a| == 0 {
      assert a + b == b;
    } else {
      assert (a + b)[1..] == a[1..] + b;
      FilterConcat(a[1..], b, p);
    }
  }

  /** `a` is `b` with some elements left out, the rest in their order. */
  ghost predicate IsSubsequence<T>(a: seq<T>, b: seq<T>)
    decreases |b|
  {
    |a| == 0 || (|b| > 0 && ((a[0] == b[0] && IsSubsequence(a[1..], b[1..])) || IsSubsequence(a, b[1..])))
  }

  /** A filter keeps the original order. */
  lemma {:induction false} FilterSubsequence<T>(s: seq<T>, p: T -> bool)
    ensures IsSubsequence(Filter(s, p), s)
  {
    if |s| > 0 {
      FilterSubsequence(s[1..], p);
      if p(s[0]) {
        assert Filter(s, p)[1..] == Filter(s[1..], p);
      }
    }
  }

  /** A filter that every element passes keeps the sequence as it is. */
  lemma {:induction false} FilterAll<T>(s: seq<T>, p: T -> bool)
    requires forall x :: x in s ==> p(x)
    ensures Filter(s, p) == s
  {
    if |s| > 0 {
      FilterAll(s[1..], p);
    }
  }

  /** A filter that no element passes yields the empty sequence. */
  lemma {:induction false} FilterNone<T>(s: seq<T>, p: T -> bool)
    requires forall x :: x in s ==> !p(x)
    ensures Filter(s, p) == []
  {
    if |s| > 0 {
      FilterNone(s[1..], p);
    }
  }

  /** Two filters applied one after the other are the filter of the conjunction. */
  lemma {:induction false} FilterFilter<T>(s: seq<T>, p: T -> bool, q: T -> bool, pq: T -> bool)
    requires forall x :: pq(x) == (p(x) && q(x))
    ensures Filter(Filter(s, p), q) == Filter(s, pq)
  {
    if |s| > 0 {
      FilterFilter(s[1..], p, q, pq);
    }
  }

  /** Filters with predicates that agree on the elements give the same result. */
  lemma {:induction false} FilterCongruent<T>(s: seq<T>, p: T -> bool, q: T -> bool)
    requires forall x :: x in s ==> p(x) == q(x)
    ensures Filter(s, p) == Filter(s, q)
  {
    if |s| > 0 {
      FilterCongruent(s[1..], p, q);
    }
  }

  // ---------------------------------------------------------------------------
  // Duplicate-freedom

  ghost predicate NoDuplicates<T>(s: seq<T>) {
    forall i, j :: 0 <= i < j < |s| ==> s[i] != s[j]
  }

  lemma {:induction false} FilterNoDuplicates<T>(s: seq<T>, p: T -> bool)
    requires NoDuplicates(s)
    ensures NoDuplicates(Filter(s, p))
  {
    if |s| > 0 {
      FilterNoDuplicates(s[1..], p);
    }
  }

  /** In a duplicate-free sequence, removing one value removes at most one element. */
  lemma {:induction false} FilterOutOne<T>(s: seq<T>, v: T)
    requires NoDuplicates(s)
    ensures |Filter(s, x => x != v)| == (if v in s then |s| - 1 else |s|)
  {
    if |s| > 0 {
      FilterOutOne(s[1..], v);
      if s[0] == v {
        FilterAll(s[1..], x => x != v);
      }
    }
  }

  /** A weaker filter keeps at least as many elements. */
  lemma {:induction false} FilterCountMonotone<T>(s: seq<T>, p: T -> bool, q: T -> bool)
    requires forall x :: x in s && p(x) ==> q(x)
    ensures |Filter(s, p)| <= |Filter(s, q)|
  {
    if |s| > 0 {
      FilterCountMonotone(s[1..], p, q);
    }
  }

  /** `s.some(p)`. */
  function Any<T>(s: seq<T>, p: T -> bool): (r: bool)
    ensures r <==> exists i :: 0 <= i < |s| && p(s[i])
  {
    if |s| == 0 then false
    else if p(s[0]) then true
    else
      assert forall i :: 1 <= i < |s| ==> s[i] == s[1..][i - 1];
      Any(s[1..], p)
  }

  /** `some` holds exactly when the filter keeps something. */
  lemma {:induction false} AnyIffFilterNonEmpty<T>(s: seq<T>, p: T -> bool)
    ensures Any(s, p) <==> |Filter(s, p)| > 0
  {
    if |s| > 0 {
      AnyIffFilterNonEmpty(s[1..], p);
    }
  }

  // ---------------------------------------------------------------------------
  // String.prototype.includes

  /** `hay.includes(needle)`. */
  predicate Contains<T(==)>(hay: seq<T>, needle: seq<T>)
    decreases |hay|
  {
    needle <= hay || (|hay| > 0 && Contains(hay[1..], needle))
  }

  /** The needle occurs in `hay` starting at offset `i`. */
  ghost predicate OccursAt<T>(hay: seq<T>, needle: seq<T>, i: int) {
    0 <= i && i + |needle| <= |hay| && hay[i..i + |needle|] == needle
  }

  /** `includes` holds exactly when the needle occurs at some offset. */
  lemma {:induction false} ContainsAt<T>(hay: seq<T>, needle: seq<T>)
    ensures Contains(hay, needle) <==> exists i :: OccursAt(hay, needle, i)
    decreases |hay|
  {
    if needle <= hay {
      assert OccursAt(hay, needle, 0);
    } else if |hay| > 0 {
      ContainsAt(hay[1..], needle);
      forall i | OccursAt(hay, needle, i)
        ensures OccursAt(hay[1..], needle, i - 1)
      {
        OccursShift(hay, needle, i - 1);
      }
      forall i | OccursAt(hay[1..], needle, i)
        ensures OccursAt(hay, needle, i + 1)
      {
        OccursShift(hay, needle, i);
      }
    }
  }

  /** An occurrence in the tail is an occurrence one further on in the whole. */
  lemma OccursShift<T>(hay: seq<T>, needle: seq<T>, i: nat)
    requires |hay| > 0
    ensures OccursAt(hay[1..], needle, i) <==> OccursAt(hay, needle, i + 1)
  {
    if i + |needle| <= |hay[1..]| {
      assert hay[1..][i..i + |needle|] == hay[i + 1..i + 1 + |needle|];
    }
  }

  /** Every string contains itself appended to anything: `(a + b).includes(b)`. */
  lemma {:induction false} ContainsSuffix<T>(a: seq<T>, b: seq<T>)
    ensures Contains(a + b, b)
    decreases |a|
  {
    if |a| == 0 {
      assert a + b == b;
    } else {
      assert (a + b)[1..] == a[1..] + b;
      ContainsSuffix(a[1..], b);
    }
  }

  /** The empty string is found in every string. */
  lemma EmptyContained<T>(hay: seq<T>)
    ensures Contains(hay, [])
  {
  }

  // ---------------------------------------------------------------------------
  // String.prototype.toLowerCase (ASCII letters only)

  function LowerChar(c: char): (r: char)
    ensures 'A' <= c <= 'Z' ==> 'a' <= r <= 'z'
    ensures !('A' <= c <= 'Z') ==> r == c
  {
    if 'A' <= c <= 'Z' then (c as int - 'A' as int + 'a' as int) as char else c
  }

  /** `s.toLowerCase()` restricted to ASCII: `A`..`Z` become `a`..`z`. */
  function Lower(s: string): (r: string)
    ensures |r| == |s|
    ensures forall i :: 0 <= i < |s| ==> r[i] == LowerChar(s[i])
  {
    if |s| == 0 then "" else [LowerChar(s[0])] + Lower(s[1..])
  }

  // ---------------------------------------------------------------------------
  // Math.round(a / b * 100) on non-negative integers

  /** `Math.round(a / b * 100)` computed exactly: the nearest integer to
      `100 a / b`, halves rounded up as `Math.round` does. */
  function RoundPercent(a: nat, b: nat): (r: nat)
    requires b > 0
    ensures 200 * a - b < 2 * b * r <= 200 * a + b
  {
    (200 * a + b) / (2 * b)
  }

  /** Cancelling a positive factor from a strict product inequality. */
  lemma MulCancelLess(b: nat, x: int, y: int)
    requires b > 0 && b * x < b * y
    ensures x < y
  {
  }

  /** The percentage of a part of a whole lies in `[0, 100]`, is 0 for an empty
      part and 100 for the whole. */
  lemma {:induction false} RoundPercentBounds(a: nat, b: nat)
    requires b > 0
    ensures a <= b ==> RoundPercent(a, b) <= 100
    ensures a == 0 ==> RoundPercent(a, b) == 0
    ensures a == b ==> RoundPercent(a, b) == 100
  {
    var r := RoundPercent(a, b);
    var b2 := 2 * b;
    assert b2 * r <= 200 * a + b;
    assert 200 * a - b < b2 * r;
    if a <= b {
      assert b2 * r < b2 * 101;
      MulCancelLess(b2, r, 101);
    }
    if a == 0 {
      assert b2 * r < b2 * 1;
      MulCancelLess(b2, r, 1);
    }
    if a == b {
      assert b2 * r < b2 * 101;
      MulCancelLess(b2, r, 101);
      assert b2 * 99 < b2 * r;
      MulCancelLess(b2, 99, r);
    }
  }

  /** Rounding a percentage is monotone in the part. */
  lemma {:induction false} RoundPercentMonotone(a: nat, a': nat, b: nat)
    requires b > 0 && a <= a'
    ensures RoundPercent(a, b) <= RoundPercent(a', b)
  {
    var r, r' := RoundPercent(a, b), RoundPercent(a', b);
    var b2 := 2 * b;
    assert b2 * r <= 200 * a + b;
    assert 200 * a' - b < b2 * r';
    assert b2 * r < b2 * (r' + 1);
    MulCancelLess(b2, r, r' + 1);
  }

  // ---------------------------------------------------------------------------
  // Number.prototype.toString / parseInt on integers

  function DigitChar(d: nat): (c: char)
    requires d < 10
    ensures '0' <= c <= '9'
  {
    "0123456789"[d]
  }

  predicate IsDigit(c: char) {
    '0' <= c <= '9'
  }

  function DigitValue(c: char): (d: nat)
    requires IsDigit(c)
    ensures d < 10
    ensures DigitChar(d) == c
  {
    c as int - '0' as int
  }

  /** The decimal representation of a natural number, without leading zeros. */
  function NatToString(n: nat): (r: string)
    ensures |r| >= 1
    ensures forall i :: 0 <= i < |r| ==> IsDigit(r[i])
    ensures n < 10 <==> |r| == 1
    decreases n
  {
    if n < 10 then [DigitChar(n)] else NatToString(n / 10) + [DigitChar(n % 10)]
  }

  /** `String(i)` for an integer. */
  function IntToString(i: int): (r: string)
    ensures |r| >= 1
    ensures i < 0 <==> r[0] == '-'
  {
    if i < 0 then "-" + NatToString(-i) else NatToString(i)
  }

  /** Reads a string of decimal digits. */
  function ParseDigits(s: string): nat
    requires forall i :: 0 <= i < |s| ==> IsDigit(s[i])
  {
    if |s| == 0 then 0 else 10 * ParseDigits(s[..|s| - 1]) + DigitValue(s[|s| - 1])
  }

  /** Reading back the decimal representation gives the number. */
  lemma {:induction false} ParseNatToString(n: nat)
    ensures ParseDigits(NatToString(n)) == n
    decreases n
  {
    var s := NatToString(n);
    if n >= 10 {
      assert s[..|s| - 1] == NatToString(n / 10);
      ParseNatToString(n / 10);
    } else {
      assert s[..|s| - 1] == "";
    }
  }

  /** Distinct numbers have distinct decimal representations. */
  lemma NatToStringInjective(m: nat, n: nat)
    ensures NatToString(m) == NatToString(n) <==> m == n
  {
    if NatToString(m) == NatToString(n) {
      ParseNatToString(m);
      ParseNatToString(n);
    }
  }

  /** `s.padStart(2, '0')`: zeros in front up to length two; longer strings are
      left alone. */
  function PadStartTwo(s: string): (r: string)
    ensures |r| == (if |s| < 2 then 2 else |s|)
    ensures r[|r| - |s|..] == s
    ensures forall i :: 0 <= i < |r| - |s| ==> r[i] == '0'
  {
    if |s| >= 2 then s else if |s| == 1 then "0" + s else "00"
  }

  // ---------------------------------------------------------------------------
  // Array.prototype.join

  /** `parts.join(sep)`. */
  function Join(parts: seq<string>, sep: string): string
  {
    if |parts| == 0 then ""
    else if |parts| == 1 then parts[0]
    else parts[0] + sep + Join(parts[1..], sep)
  }

  /** Joining two or more parts puts the separator after the first. */
  lemma JoinCons(parts: seq<string>, sep: string)
    requires |parts| >= 2
    ensures Join(parts, sep) == parts[0] + sep + Join(parts[1..], sep)
  {
  }

  // ---------------------------------------------------------------------------
  // String.prototype.indexOf / split with a one-character separator

  /** `s.indexOf(c)`: the first position of `c`, or -1. */
  function IndexOf(s: string, c: char): (r: int)
    ensures -1 <= r < |s|
    ensures r == -1 <==> c !in s
    ensures r >= 0 ==> s[r] == c && c !in s[..r]
  {
    if |s| == 0 then -1
    else if s[0] == c then 0
    else
      var k := IndexOf(s[1..], c);
      if k == -1 then -1
      else
        assert s[..k + 1] == [s[0]] + s[1..][..k];
        k + 1
  }

  /** The separator found right after a prefix free of it. */
  lemma IndexOfAfter(a: string, c: char, b: string)
    requires c !in a
    ensures IndexOf(a + [c] + b, c) == |a|
  {
    var s := a + [c] + b;
    assert s[|a|] == c;
    assert s[..|a|] == a;
  }

  /** `s.split(c)`: the pieces between occurrences of `c`, in order. */
  function Split(s: string, c: char): (r: seq<string>)
    ensures |r| >= 1
    ensures forall i :: 0 <= i < |r| ==> c !in r[i]
    decreases |s|
  {
    var k := IndexOf(s, c);
    if k == -1 then [s] else [s[..k]] + Split(s[k + 1..], c)
  }

  /** Joining the pieces of a split gives the string back. */
  lemma {:induction false} SplitJoin(s: string, c: char)
    ensures Join(Split(s, c), [c]) == s
    decreases |s|
  {
    var k := IndexOf(s, c);
    if k != -1 {
      var head, rest := s[..k], s[k + 1..];
      var tail := Split(rest, c);
      SplitJoin(rest, c);
      var r := [head] + tail;
      assert Split(s, c) == r;
      assert r[0] == head && r[1..] == tail;
      JoinCons(r, [c]);
      assert s == head + [c] + rest;
    }
  }

  /** Splitting a join of separator-free pieces gives the pieces back. */
  lemma {:induction false} JoinSplit(parts: seq<string>, c: char)
    requires |parts| >= 1
    requires forall i :: 0 <= i < |parts| ==> c !in parts[i]
    ensures Split(Join(parts, [c]), c) == parts
  {
    if |parts| == 1 {
      assert Join(parts, [c]) == parts[0];
    } else {
      var rest := Join(parts[1..], [c]);
      var s := Join(parts, [c]);
      assert s == parts[0] + [c] + rest;
      IndexOfAfter(parts[0], c, rest);
      assert s[..|parts[0]|] == parts[0];
      assert s[|parts[0]| + 1..] == rest;
      JoinSplit(parts[1..], c);
    }
  }
}
