/** The part of URL handling the pages rely on: building `path?k=v&k=v`
    links with template strings, and reading them back with
    `URLSearchParams.get` (as `useSearchParams` does). Percent-decoding and
    fragments are outside the model; the round trip below is stated for
    plain names and values, which is all the application produces. */
module Url {
  import opened Js

  /** The query string: what follows the first '?', if any. */
  function Query(url: string): (r: Option<string>)
    ensures r.None? <==> '?' !in url
  {
    var k := IndexOf(url, '?');
    if k == -1 then None else Some(url[k + 1..])
  }

  /** The route: everything before the first '?'. */
  function Path(url: string): (r: string)
    ensures '?' !in r
    ensures '?' !in url ==> r == url
  {
    var k := IndexOf(url, '?');
    if k == -1 then url else url[..k]
  }

  /** The name of a `name=value` pair: up to its first '='. */
  function PairName(pair: string): string {
    var k := IndexOf(pair, '=');
    if k == -1 then pair else pair[..k]
  }

  /** The value of a `name=value` pair: after its first '=', empty if none. */
  function PairValue(pair: string): string {
    var k := IndexOf(pair, '=');
    if k == -1 then "" else pair[k + 1..]
  }

  /** The value of the first non-empty pair called `name`. */
  function FirstValue(pairs: seq<string>, name: string): (r: Option<string>)
    ensures r.Some? ==> exists i :: 0 <= i < |pairs| && PairName(pairs[i]) == name
  {
    if |pairs| == 0 then None
    else if |pairs[0]| > 0 && PairName(pairs[0]) == name then Some(PairValue(pairs[0]))
    else FirstValue(pairs[1..], name)
  }

  /** `searchParams.get(name)`: `null` (None) when the URL has no query or
      the query has no such pair. */
  function Get(url: string, name: string): (r: Option<string>)
    ensures '?' !in url ==> r.None?
  {
    match Query(url)
    case None => None
    case Some(q) => FirstValue(Split(q, '&'), name)
  }

  /** Text that no part of URL syntax or decoding would reinterpret. */
  predicate Plain(s: string) {
    forall i :: 0 <= i < |s| ==> s[i] !in {'?', '&', '=', '#', '%', '+'}
  }

  /** Query parameters as the application writes them: names and values. */
  type Params = seq<(string, string)>

  ghost predicate PlainParams(params: Params) {
    forall i :: 0 <= i < |params| ==>
      |params[i].0| > 0 && Plain(params[i].0) && Plain(params[i].1)
  }

  /** The `name=value` pieces of a query. */
  function Pieces(params: Params): (r: seq<string>)
    ensures |r| == |params|
    ensures forall i :: 0 <= i < |r| ==> r[i] == params[i].0 + "=" + params[i].1
  {
    if |params| == 0 then [] else [params[0].0 + "=" + params[0].1] + Pieces(params[1..])
  }

  /** `path?n1=v1&n2=v2...`, or the bare path when there are no parameters. */
  function Build(path: string, params: Params): string {
    if |params| == 0 then path else path + "?" + Join(Pieces(params), "&")
  }

  /** The value the first parameter called `name` carries: the reference
      meaning of a query. */
  function Lookup(params: Params, name: string): Option<string> {
    if |params| == 0 then None
    else if params[0].0 == name then Some(params[0].1)
    else Lookup(params[1..], name)
  }

  /** A plain pair reads back as its own name and value. */
  lemma PiecePair(n: string, v: string)
    requires Plain(n) && |n| > 0
    ensures PairName(n + "=" + v) == n && PairValue(n + "=" + v) == v
    ensures |n + "=" + v| > 0
  {
    IndexOfAfter(n, '=', v);
    var s := n + "=" + v;
    assert s == n + ['='] + v;
    assert s[..|n|] == n;
    assert s[|n| + 1..] == v;
  }

  lemma {:induction false} FirstValuePieces(params: Params, name: string)
    requires PlainParams(params)
    ensures FirstValue(Pieces(params), name) == Lookup(params, name)
  {
    if |params| > 0 {
      PiecePair(params[0].0, params[0].1);
      assert Pieces(params)[1..] == Pieces(params[1..]);
      FirstValuePieces(params[1..], name);
    }
  }

  /** Reading back a built link gives the route and, for every name, the
      value of the first parameter so named. */
  lemma BuildRoundTrip(path: string, params: Params, name: string)
    requires Plain(path) && PlainParams(params)
    ensures Path(Build(path, params)) == path
    ensures Get(Build(path, params), name) == Lookup(params, name)
  {
    assert '?' !in path by {
      forall i | 0 <= i < |path|
        ensures path[i] != '?'
      {
      }
    }
    if |params| > 0 {
      var q := Join(Pieces(params), "&");
      var url := Build(path, params);
      assert url == path + ['?'] + q;
      IndexOfAfter(path, '?', q);
      assert url[..|path|] == path;
      assert url[|path| + 1..] == q;
      forall i | 0 <= i < |Pieces(params)|
        ensures '&' !in Pieces(params)[i]
      {
        var n, v := params[i].0, params[i].1;
        assert Pieces(params)[i] == n + "=" + v;
        assert forall j :: 0 <= j < |n| ==> n[j] != '&';
        assert forall j :: 0 <= j < |v| ==> v[j] != '&';
      }
      JoinSplit(Pieces(params), '&');
      FirstValuePieces(params, name);
    }
  }

  /** A link written by hand as `path?n1=v1&n2=v2` is the built link of its
      two parameters. */
  lemma BuildTwo(path: string, n1: string, v1: string, n2: string, v2: string)
    ensures Build(path, [(n1, v1), (n2, v2)]) == path + "?" + n1 + "=" + v1 + "&" + n2 + "=" + v2
  {
    var params := [(n1, v1), (n2, v2)];
    var pieces := Pieces(params);
    assert pieces[0] == n1 + "=" + v1;
    assert pieces[1] == n2 + "=" + v2;
    JoinCons(pieces, "&");
    assert Join(pieces[1..], "&") == pieces[1];
  }
}
