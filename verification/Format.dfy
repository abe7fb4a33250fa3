/** The pure formatting helpers of `src/lib/utils.js`: `formatTime` and the
    item list that `generateBreadcrumbStructuredData` hands to the serialiser. */
module Format {
  import opened Js

  // ---------------------------------------------------------------------------
  // formatTime

  /** JavaScript's `%`: the remainder takes the sign of the dividend. */
  function JsRem(a: int, b: int): (r: int)
    requires b > 0
    ensures a >= 0 ==> 0 <= r < b
    ensures a < 0 ==> -b < r <= 0
  {
    if a >= 0 then a % b else -((-a) % b)
  }

  /** `Math.floor(a / b)` for a positive divisor. */
  function FloorDiv(a: int, b: int): (q: int)
    requires b > 0
    ensures q * b <= a < q * b + b
  {
    a / b
  }

  /** `formatTime(seconds)`: whole minutes, a colon, and the remainder padded
      to two characters. */
  function FormatTime(seconds: int): (r: string)
    ensures seconds >= 0 ==> ParseTime(r) == Some(seconds)
  {
    var text := IntToString(FloorDiv(seconds, 60)) + ":" + PadStartTwo(IntToString(JsRem(seconds, 60)));
    assert seconds >= 0 ==> ParseTime(text) == Some(seconds) by {
      if seconds >= 0 {
        assert FloorDiv(seconds, 60) == seconds / 60 && JsRem(seconds, 60) == seconds % 60;
        ClockRoundTrip(seconds);
      }
    }
    text
  }

  /** The digits-only part of a clock string, if it has the form `M:SS`. */
  predicate AllDigits(s: string) {
    forall i :: 0 <= i < |s| ==> IsDigit(s[i])
  }

  /** Reads back a `M:SS` string into seconds: a run of minute digits, a colon,
      and exactly two second digits below 60. */
  function ParseTime(t: string): (r: Option<nat>)
    ensures r.Some? ==> |t| >= 4 && t[|t| - 3] == ':'
  {
    if |t| >= 4 && t[|t| - 3] == ':' && AllDigits(t[..|t| - 3]) && AllDigits(t[|t| - 2..])
       && ParseDigits(t[|t| - 2..]) < 60
    then Some(60 * ParseDigits(t[..|t| - 3]) + ParseDigits(t[|t| - 2..]))
    else None
  }

  /** Two-digit padding of a number below 100 reads back as that number. */
  lemma PadTwoDigits(n: nat)
    requires n < 100
    ensures |PadStartTwo(NatToString(n))| == 2
    ensures AllDigits(PadStartTwo(NatToString(n)))
    ensures ParseDigits(PadStartTwo(NatToString(n))) == n
  {
    var s := NatToString(n);
    ParseNatToString(n);
    if n >= 10 {
      assert NatToString(n / 10) == [DigitChar(n / 10)];
      assert |s| == 2;
    } else {
      var r := PadStartTwo(s);
      assert r == ['0', DigitChar(n)];
      assert r[..1] == ['0'];
    }
  }

  /** Parsing a minutes field, a colon and a two-digit seconds field. */
  lemma ParseClock(m: string, sec: string)
    requires |m| >= 1 && AllDigits(m) && |sec| == 2 && AllDigits(sec) && ParseDigits(sec) < 60
    ensures ParseTime(m + ":" + sec) == Some(60 * ParseDigits(m) + ParseDigits(sec))
  {
    ClockSlices(m, sec);
    ParseTimeFields(m + ":" + sec, m, sec);
  }

  /** The three parts of a clock text, cut where `ParseTime` cuts. */
  lemma ClockSlices(m: string, sec: string)
    requires |sec| == 2
    ensures |m + ":" + sec| == |m| + 3
    ensures (m + ":" + sec)[|m|] == ':'
    ensures (m + ":" + sec)[..|m|] == m
    ensures (m + ":" + sec)[|m| + 1..] == sec
  {
    var t := m + ":" + sec;
    assert forall i :: 0 <= i < |m| ==> t[i] == m[i];
    assert forall i :: 0 <= i < |sec| ==> t[|m| + 1 + i] == sec[i];
  }

  /** `ParseTime` on a text whose parts are already known. */
  lemma ParseTimeFields(t: string, m: string, sec: string)
    requires |t| == |m| + 3 && |m| >= 1 && |sec| == 2
    requires t[|m|] == ':' && t[..|m|] == m && t[|m| + 1..] == sec
    requires AllDigits(m) && AllDigits(sec) && ParseDigits(sec) < 60
    ensures ParseTime(t) == Some(60 * ParseDigits(m) + ParseDigits(sec))
  {
    assert |t| - 3 == |m| && |t| - 2 == |m| + 1;
  }

  /** For a non-negative duration the seconds field is always two digits, the
      minutes field is the decimal number of whole minutes, and parsing the
      text recovers the duration. */
  lemma {:induction false} FormatTimeRoundTrip(seconds: nat)
    ensures |FormatTime(seconds)| == |NatToString(seconds / 60)| + 3
    ensures FormatTime(seconds)[..|FormatTime(seconds)| - 3] == NatToString(seconds / 60)
    ensures ParseTime(FormatTime(seconds)) == Some(seconds)
  {
    FormatTimeFields(seconds);
    ClockRoundTrip(seconds);
  }

  /** Whole minutes and a remainder below 60, printed as a clock, read back. */
  lemma ClockRoundTrip(seconds: nat)
    ensures |NatToString(seconds / 60) + ":" + PadStartTwo(NatToString(seconds % 60))|
      == |NatToString(seconds / 60)| + 3
    ensures (NatToString(seconds / 60) + ":" + PadStartTwo(NatToString(seconds % 60)))[..|NatToString(seconds / 60)|]
      == NatToString(seconds / 60)
    ensures ParseTime(NatToString(seconds / 60) + ":" + PadStartTwo(NatToString(seconds % 60))) == Some(seconds)
  {
    var q, r := seconds / 60, seconds % 60;
    MinutesAndSeconds(seconds);
    PadTwoDigits(r);
    ParseNatToString(q);
    ClockText(NatToString(q), PadStartTwo(NatToString(r)), q, r, seconds);
  }

  lemma MinutesAndSeconds(seconds: nat)
    ensures 60 * (seconds / 60) + seconds % 60 == seconds && seconds % 60 < 60
  {
  }

  /** A digit field, a colon and a two-digit field below 60 read back as the
      numbers they spell. */
  lemma ClockText(m: string, sec: string, q: nat, r: nat, total: nat)
    requires |m| >= 1 && AllDigits(m) && |sec| == 2 && AllDigits(sec)
    requires ParseDigits(m) == q && ParseDigits(sec) == r && r < 60 && 60 * q + r == total
    ensures |m + ":" + sec| == |m| + 3
    ensures (m + ":" + sec)[..|m|] == m
    ensures ParseTime(m + ":" + sec) == Some(total)
  {
    ClockPrefix(m, sec);
    ParseClock(m, sec);
  }

  lemma ClockPrefix(m: string, sec: string)
    ensures |m + ":" + sec| == |m| + 1 + |sec|
    ensures (m + ":" + sec)[..|m|] == m
  {
    var t := m + ":" + sec;
    assert forall i :: 0 <= i < |m| ==> t[i] == m[i];
  }

  /** For a non-negative duration both fields are plain decimal numbers. */
  lemma FormatTimeFields(seconds: nat)
    ensures FormatTime(seconds) == NatToString(seconds / 60) + ":" + PadStartTwo(NatToString(seconds % 60))
  {
    assert FloorDiv(seconds, 60) == seconds / 60;
    assert JsRem(seconds, 60) == seconds % 60;
  }

  /** A negative duration keeps JavaScript's signs: floor division for the
      minutes and a negative remainder for the seconds, so -61 gives "-2:-1",
      which does not read back as a clock. */
  lemma FormatTimeNegative()
    ensures FormatTime(-61) == "-2:-1"
    ensures ParseTime(FormatTime(-61)).None?
  {
    var m, sec := IntToString(FloorDiv(-61, 60)), PadStartTwo(IntToString(JsRem(-61, 60)));
    assert FloorDiv(-61, 60) == -2;
    assert JsRem(-61, 60) == -1;
    assert NatToString(2) == "2";
    assert NatToString(1) == "1";
    assert m == "-2";
    assert IntToString(-1) == "-1";
    assert sec == "-1";
    assert FormatTime(-61) == m + ":" + sec;
  }

  /** A whole negative minute has a zero remainder: -60 gives "-1:00". */
  lemma FormatTimeMinusMinute()
    ensures FormatTime(-60) == "-1:00"
  {
    var m, sec := IntToString(FloorDiv(-60, 60)), PadStartTwo(IntToString(JsRem(-60, 60)));
    assert FloorDiv(-60, 60) == -1;
    assert JsRem(-60, 60) == 0;
    assert NatToString(1) == "1";
    assert NatToString(0) == "0";
    assert m == "-1";
    assert sec == "00";
    assert FormatTime(-60) == m + ":" + sec;
  }

  // ---------------------------------------------------------------------------
  // Breadcrumb structured data

  datatype Crumb = Crumb(name: string, url: string)

  /** One `ListItem` object; its `@type` is the constant "ListItem". */
  datatype ListItem = ListItem(position: nat, name: string, item: string)

  /** `breadcrumbs.map((crumb, index) => ({ position: index + 1, ... }))`. */
  function BreadcrumbItems(crumbs: seq<Crumb>): (r: seq<ListItem>)
    ensures |r| == |crumbs|
    ensures forall i :: 0 <= i < |r| ==>
              r[i].position == i + 1 && r[i].name == crumbs[i].name && r[i].item == crumbs[i].url
  {
    if |crumbs| == 0 then []
    else
      var last := crumbs[|crumbs| - 1];
      BreadcrumbItems(crumbs[..|crumbs| - 1]) + [ListItem(|crumbs|, last.name, last.url)]
  }

  /** The crumbs an item list was built from. */
  function ItemsToCrumbs(items: seq<ListItem>): (r: seq<Crumb>)
    ensures |r| == |items|
  {
    if |items| == 0 then [] else [Crumb(items[0].name, items[0].item)] + ItemsToCrumbs(items[1..])
  }

  /** The item list loses nothing: reading the names and urls back gives the
      crumbs, and the positions count 1, 2, ... without gaps. */
  lemma {:induction false} BreadcrumbRoundTrip(crumbs: seq<Crumb>)
    ensures ItemsToCrumbs(BreadcrumbItems(crumbs)) == crumbs
    ensures forall i, j :: 0 <= i < j < |crumbs| ==>
              BreadcrumbItems(crumbs)[i].position < BreadcrumbItems(crumbs)[j].position
  {
    var items := BreadcrumbItems(crumbs);
    ItemsToCrumbsPointwise(items);
  }

  lemma {:induction false} ItemsToCrumbsPointwise(items: seq<ListItem>)
    ensures forall i :: 0 <= i < |items| ==>
              ItemsToCrumbs(items)[i] == Crumb(items[i].name, items[i].item)
  {
    if |items| > 0 {
      ItemsToCrumbsPointwise(items[1..]);
    }
  }
}
