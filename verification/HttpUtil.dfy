/**
 * The URL string helpers of HttpUtil: appending, reading and stripping the query
 * component of a URL (section 3.4 of RFC 3986), and filling and reading templates whose
 * `/`-separated segments may be parameters such as `:db` and `:id`.
 */
module HttpUtil {
  import opened Results
  import opened JavaStrings

  // ----- URL encoding -----

  /** `URLEncoder.encode` and `URLDecoder.decode` with UTF-8, taken as given functions. */
  datatype UrlCodec = UrlCodec(encode: string -> string, decode: string -> string)

  /** What the encoder pair guarantees: decoding undoes encoding, and encoded text never
      holds a query delimiter (`&`, `=` and `?` are always percent-escaped). */
  ghost predicate ValidCodec(codec: UrlCodec) {
    forall x :: codec.decode(codec.encode(x)) == x
      && Free(codec.encode(x), '&') && Free(codec.encode(x), '=') && Free(codec.encode(x), '?')
  }

  /** A query parameter: its name and its value. A map's entries are given as a sequence
      in the order its keys are iterated. */
  type Param = (string, string)

  // ----- appendQueryParams -----

  /** One parameter as it appears in a query: `enc(name)=enc(value)`. */
  function Segment(p: Param, codec: UrlCodec): string {
    codec.encode(p.0) + "=" + codec.encode(p.1)
  }

  /** The segments of all parameters, in order. */
  function Segments(ps: seq<Param>, codec: UrlCodec): (r: seq<string>)
    ensures |r| == |ps|
  {
    if |ps| == 0 then [] else [Segment(ps[0], codec)] + Segments(ps[1..], codec)
  }

  /** The loop of `appendQueryParams`: each parameter adds its separator, `?` while
      `first` holds and `&` after that, and its segment. */
  function AppendEach(url: string, ps: seq<Param>, first: bool, codec: UrlCodec): string
    decreases |ps|
  {
    if |ps| == 0 then url
    else
      var sep := if first then '?' else '&';
      AppendEach(url + [sep] + Segment(ps[0], codec), ps[1..], false, codec)
  }

  /** `appendQueryParams(fullUrl, params)`; `None` is a null map, which leaves the URL as
      it is. The first separator is `?` exactly when the URL has none yet. */
  function AppendQueryParams(url: string, params: Option<seq<Param>>, codec: UrlCodec): (r: string)
    ensures params.None? ==> r == url
    ensures params.Some? && |params.value| == 0 ==> r == url
    ensures params.Some? && |params.value| > 0 ==>
              r == url + [if Free(url, '?') then '?' else '&'] + Join(Segments(params.value, codec), "&")
  {
    match params
    case None => url
    case Some(ps) =>
      var first := IndexOf(url, '?') == -1;
      if |ps| == 0 then AppendEach(url, ps, first, codec)
      else
        AppendEachShape(url, ps, first, codec);
        AppendEach(url, ps, first, codec)
  }

  /** The loop adds the first separator and then the segments joined by `&`. */
  lemma {:induction false} AppendEachShape(url: string, ps: seq<Param>, first: bool, codec: UrlCodec)
    requires |ps| > 0
    ensures AppendEach(url, ps, first, codec)
            == url + [if first then '?' else '&'] + Join(Segments(ps, codec), "&")
    decreases |ps|
  {
    var sep := if first then '?' else '&';
    var u := url + [sep] + Segment(ps[0], codec);
    assert Segments(ps, codec)[1..] == Segments(ps[1..], codec);
    if |ps| > 1 {
      AppendEachShape(u, ps[1..], false, codec);
      assert Join(Segments(ps, codec), "&")
             == Segment(ps[0], codec) + "&" + Join(Segments(ps[1..], codec), "&");
    }
  }

  /** The result begins with the URL it was given. */
  lemma AppendKeepsUrl(url: string, params: Option<seq<Param>>, codec: UrlCodec)
    ensures StartsWith(AppendQueryParams(url, params, codec), url)
  {
    var r := AppendQueryParams(url, params, codec);
    assert r[..|url|] == url;
  }

  // ----- removeQueryParams -----

  /** `removeQueryParams(url)`: the URL up to its first `?`. */
  function RemoveQueryParams(url: string): (r: string)
    ensures Free(r, '?')
    ensures StartsWith(url, r)
    ensures Free(url, '?') ==> r == url
    ensures !Free(url, '?') ==> url[|r|] == '?'
  {
    var q := IndexOf(url, '?');
    if q != -1 then url[..q] else url
  }

  /** Removing the query twice is removing it once. */
  lemma RemoveQueryParamsIdempotent(url: string)
    ensures RemoveQueryParams(RemoveQueryParams(url)) == RemoveQueryParams(url)
  {
  }

  /** Removing the query undoes appending parameters: the appended text holds no `?`
      beyond the one that starts the query. */
  lemma RemoveAfterAppend(url: string, params: Option<seq<Param>>, codec: UrlCodec)
    requires ValidCodec(codec)
    ensures RemoveQueryParams(AppendQueryParams(url, params, codec)) == RemoveQueryParams(url)
  {
    var r := AppendQueryParams(url, params, codec);
    if params.Some? && |params.value| > 0 {
      var q := IndexOf(url, '?');
      if q == -1 {
        assert r[|url|] == '?' && r[..|url|] == url;
        assert IndexOf(r, '?') == |url|;
      } else {
        assert r[..|url|] == url;
        assert r[..q] == url[..q] && r[q] == '?';
        assert IndexOf(r, '?') == q;
      }
    }
  }

  // ----- getQueryParams -----

  /** The parameters `put` one after another into a map: a later name overwrites an
      earlier one. */
  function ToMap(ps: seq<Param>): (m: map<string, string>)
    ensures forall k :: k in m <==> exists i :: 0 <= i < |ps| && ps[i].0 == k
    ensures forall i :: 0 <= i < |ps| && (forall j :: i < j < |ps| ==> ps[j].0 != ps[i].0) ==>
              ps[i].0 in m && m[ps[i].0] == ps[i].1
    decreases |ps|
  {
    if |ps| == 0 then map[]
    else
      var last := ps[|ps| - 1];
      var m0 := ToMap(ps[..|ps| - 1]);
      var m := m0[last.0 := last.1];
      PutLast(ps, ps[..|ps| - 1], m0, m);
      m
  }

  /** Putting the last pair into the map of the ones before it. */
  lemma PutLast(ps: seq<Param>, init: seq<Param>, m0: map<string, string>, m: map<string, string>)
    requires |ps| >= 1 && init == ps[..|ps| - 1] && m == m0[ps[|ps| - 1].0 := ps[|ps| - 1].1]
    requires forall k :: k in m0 <==> exists i :: 0 <= i < |init| && init[i].0 == k
    requires forall i :: 0 <= i < |init| && (forall j :: i < j < |init| ==> init[j].0 != init[i].0) ==>
               init[i].0 in m0 && m0[init[i].0] == init[i].1
    ensures forall k :: k in m <==> exists i :: 0 <= i < |ps| && ps[i].0 == k
    ensures forall i :: 0 <= i < |ps| && (forall j :: i < j < |ps| ==> ps[j].0 != ps[i].0) ==>
              ps[i].0 in m && m[ps[i].0] == ps[i].1
  {
    var n := |ps| - 1;
    assert forall i :: 0 <= i < n ==> init[i] == ps[i];
    forall k | k in m
      ensures exists i :: 0 <= i < |ps| && ps[i].0 == k
    {
      if k == ps[n].0 {
        assert ps[n].0 == k;
      } else {
        var i :| 0 <= i < n && init[i].0 == k;
        assert ps[i].0 == k;
      }
    }
    forall i | 0 <= i < |ps| && (forall j :: i < j < |ps| ==> ps[j].0 != ps[i].0)
      ensures ps[i].0 in m && m[ps[i].0] == ps[i].1
    {
      if i < n {
        assert forall j :: i < j < n ==> init[j].0 != init[i].0;
      }
    }
  }

  /** Each name and value passed through `URLDecoder.decode`. */
  function Decoded(ps: seq<Param>, codec: UrlCodec): (r: seq<Param>)
    ensures |r| == |ps|
    ensures forall i :: 0 <= i < |ps| ==> r[i] == (codec.decode(ps[i].0), codec.decode(ps[i].1))
  {
    seq(|ps|, i requires 0 <= i < |ps| => (codec.decode(ps[i].0), codec.decode(ps[i].1)))
  }

  /** Each name and value passed through `URLEncoder.encode`. */
  function Encoded(ps: seq<Param>, codec: UrlCodec): (r: seq<Param>)
    ensures |r| == |ps|
    ensures forall i :: 0 <= i < |ps| ==> r[i] == (codec.encode(ps[i].0), codec.encode(ps[i].1))
  {
    seq(|ps|, i requires 0 <= i < |ps| => (codec.encode(ps[i].0), codec.encode(ps[i].1)))
  }

  /** A first pair in front of the pairs read after it, unless reading them never ends. */
  function Cons(p: Param, rest: Option<seq<Param>>): Option<seq<Param>> {
    match rest
    case None => None
    case Some(ps) => Some([p] + ps)
  }

  /** The loop of `getQueryParams` never ends on the text `t` from a separator on exactly
      when some pass finds no `=` after its separator: there is no `=` at all, or some `&`
      has none after it. */
  predicate Stalls(t: string) {
    Free(t, '=') || exists j :: 0 <= j < |t| && t[j] == '&' && Free(t[j..], '=')
  }

  /** What one pass of the `getQueryParams` loop finds on the text `t` from the current
      position `start` on (so `t[0]` is the `?` or `&` found there): no `=` at all, or a
      name running to the next `=` with a value running from there to the end of the
      text or to the next `&`, which becomes the new position. */
  datatype Pass = NoEquals | Final(pair: Param) | Next(pair: Param, rest: string)

  function PassOf(t: string): (r: Pass)
    requires |t| >= 1 && (t[0] == '?' || t[0] == '&')
    ensures r.Next? ==> 1 <= |r.rest| < |t| && r.rest[0] == '&'
  {
    var eq := IndexOf(t, '=');
    if eq == -1 then NoEquals
    else
      var amp := IndexOf(t[eq..], '&');
      if amp == -1 then Final((t[1..eq], t[eq + 1..]))
      else Next((t[1..eq], t[eq + 1..eq + amp]), t[eq + amp..])
  }

  /** The `getQueryParams` loop: the raw pairs its passes collect, in order. A pass that
      finds no `=` leaves the position where it was, so the loop repeats it forever:
      `None`. */
  function ScanQuery(t: string): (r: Option<seq<Param>>)
    requires |t| >= 1 && (t[0] == '?' || t[0] == '&')
    ensures r.Some? ==> |r.value| >= 1
    decreases |t|
  {
    match PassOf(t)
    case NoEquals => None
    case Final(p) => Some([p])
    case Next(p, rest) => Cons(p, ScanQuery(rest))
  }

  /** The loop never ends exactly when it stalls. */
  lemma {:induction false} ScanQueryStalls(t: string)
    requires |t| >= 1 && (t[0] == '?' || t[0] == '&')
    ensures ScanQuery(t).None? <==> Stalls(t)
    decreases |t|
  {
    var eq := IndexOf(t, '=');
    if eq != -1 {
      var amp := IndexOf(t[eq..], '&');
      if amp == -1 {
        StallsEnd(t, eq);
      } else {
        assert PassOf(t).rest == t[eq + amp..];
        StallsStep(t, eq, amp);
        ScanQueryStalls(t[eq + amp..]);
      }
    }
  }

  /** A pass that finds an `=` with no `&` after it is the last one. */
  lemma StallsEnd(t: string, eq: int)
    requires 0 <= eq < |t| && t[eq] == '=' && Free(t[eq..], '&')
    ensures !Stalls(t)
  {
    assert forall j :: eq <= j < |t| ==> t[j] == t[eq..][j - eq];
    forall j | 0 <= j < |t| && t[j] == '&'
      ensures !Free(t[j..], '=')
    {
      assert t[j..][eq - j] == '=';
    }
  }

  /** Every suffix starting at or before position `eq`, which holds `=`, holds `=`. */
  lemma EqualsAhead(t: string, eq: int)
    requires 0 <= eq < |t| && t[eq] == '='
    ensures forall j :: 0 <= j <= eq ==> !Free(t[j..], '=')
  {
    forall j | 0 <= j <= eq
      ensures !Free(t[j..], '=')
    {
      assert t[j..][eq - j] == '=';
    }
  }

  /** A pass that finds an `=` at `eq` and then an `&` stalls later exactly when the loop
      stalls at all. */
  lemma StallsStep(t: string, eq: int, amp: int)
    requires 0 <= eq < |t| && t[eq] == '='
    requires 0 <= amp < |t| - eq && t[eq + amp] == '&' && Free(t[eq..][..amp], '&')
    ensures Stalls(t[eq + amp..]) <==> Stalls(t)
  {
    var k := eq + amp;
    var u := t[k..];
    if Free(u, '=') {
      assert t[k] == '&' && t[k..] == u;
    } else if exists j :: 0 <= j < |u| && u[j] == '&' && Free(u[j..], '=') {
      var j :| 0 <= j < |u| && u[j] == '&' && Free(u[j..], '=');
      assert t[k + j] == '&' && t[k + j..] == u[j..];
    }
    if Stalls(t) {
      EqualsAhead(t, eq);
      assert forall i :: eq <= i < k ==> t[i] == t[eq..][..amp][i - eq];
      var j :| 0 <= j < |t| && t[j] == '&' && Free(t[j..], '=');
      assert u[j - k] == '&' && u[j - k..] == t[j..];
    }
  }

  /** `getQueryParams(url)`: the decoded parameters of the query, or the empty map when
      there is no `?`. `None` when the loop never ends: some part of the query from a
      separator on holds no `=`. */
  function GetQueryParams(url: string, codec: UrlCodec): (r: Option<map<string, string>>)
    ensures Free(url, '?') ==> r == Some(map[])
    ensures r.None? <==> !Free(url, '?') && Stalls(url[IndexOf(url, '?')..])
  {
    var q := IndexOf(url, '?');
    if q == -1 then Some(map[])
    else
      ScanQueryStalls(url[q..]);
      match ScanQuery(url[q..])
      case None => None
      case Some(raw) => Some(ToMap(Decoded(raw, codec)))
  }

  /** Reading one `enc(name)=enc(value)` segment after a separator, followed either by the
      end of the text or by the next separator `&`. */
  lemma ScanSegment(sep: char, k: string, v: string, tail: string)
    requires sep == '?' || sep == '&'
    requires Free(k, '=') && Free(v, '&')
    requires tail == [] || tail[0] == '&'
    ensures tail == [] ==> ScanQuery([sep] + k + "=" + v + tail) == Some([(k, v)])
    ensures tail != [] ==> ScanQuery([sep] + k + "=" + v + tail) == Cons((k, v), ScanQuery(tail))
  {
    PassOfSegment(sep, k, v, tail);
  }

  /** One pass over `sep enc(name)=enc(value)` reads that pair, and the next pass starts at
      the tail. */
  lemma PassOfSegment(sep: char, k: string, v: string, tail: string)
    requires sep == '?' || sep == '&'
    requires Free(k, '=') && Free(v, '&')
    requires tail == [] || tail[0] == '&'
    ensures tail == [] ==> PassOf([sep] + k + "=" + v + tail) == Final((k, v))
    ensures tail != [] ==> PassOf([sep] + k + "=" + v + tail) == Next((k, v), tail)
  {
    var t := [sep] + k + "=" + v + tail;
    NameOfSegment(sep, k, v + tail);
    assert t == [sep] + k + "=" + (v + tail);
    ValueOfSegment(v, tail);
    var u := "=" + v + tail;
    assert t[1 + |k|..] == u;
    if tail != [] {
      assert t[1 + |k| + 1 + |v|..] == tail;
    }
  }

  /** In `sep name=rest` with no `=` in the name, the first `=` ends the name. */
  lemma NameOfSegment(sep: char, k: string, rest: string)
    requires sep != '=' && Free(k, '=')
    ensures IndexOf([sep] + k + "=" + rest, '=') == 1 + |k|
    ensures ([sep] + k + "=" + rest)[1..1 + |k|] == k
    ensures ([sep] + k + "=" + rest)[1 + |k|..] == "=" + rest
  {
    var t := [sep] + k + "=" + rest;
    assert t[1 + |k|] == '=' && t[..1 + |k|] == [sep] + k;
  }

  /** In `=value tail` with no `&` in the value, the first `&` is where the tail starts. */
  lemma ValueOfSegment(v: string, tail: string)
    requires Free(v, '&')
    requires tail == [] || tail[0] == '&'
    ensures tail == [] ==> IndexOf("=" + v + tail, '&') == -1 && ("=" + v + tail)[1..] == v
    ensures tail != [] ==> IndexOf("=" + v + tail, '&') == 1 + |v|
    ensures tail != [] ==> ("=" + v + tail)[1..1 + |v|] == v && ("=" + v + tail)[1 + |v|..] == tail
  {
    var u := "=" + v + tail;
    if tail == [] {
      assert u == "=" + v;
    } else {
      assert u[1 + |v|] == '&' && u[..1 + |v|] == "=" + v;
    }
  }

  /** Reading back a query built from encoded segments gives the encoded pairs. */
  lemma {:induction false} ScanOfSegments(sep: char, ps: seq<Param>, codec: UrlCodec)
    requires ValidCodec(codec)
    requires sep == '?' || sep == '&'
    requires |ps| >= 1
    ensures ScanQuery([sep] + Join(Segments(ps, codec), "&")) == Some(Encoded(ps, codec))
    decreases |ps|
  {
    var k, v := codec.encode(ps[0].0), codec.encode(ps[0].1);
    assert Free(k, '=') && Free(v, '&');
    var tail := SegmentsTail(ps, codec);
    assert [sep] + Join(Segments(ps, codec), "&") == [sep] + k + "=" + v + tail;
    ScanSegment(sep, k, v, tail);
    EncodedCons(ps, codec);
    if |ps| > 1 {
      ScanOfSegments('&', ps[1..], codec);
      assert ScanQuery(tail) == Some(Encoded(ps[1..], codec));
    } else {
      assert tail == [];
      assert Encoded(ps, codec) == [(k, v)];
    }
  }

  /** What follows the first segment of a query: nothing, or `&` and the other segments. */
  function SegmentsTail(ps: seq<Param>, codec: UrlCodec): (tail: string)
    requires |ps| >= 1
    ensures Join(Segments(ps, codec), "&") == Segment(ps[0], codec) + tail
    ensures |ps| == 1 ==> tail == []
    ensures |ps| > 1 ==> tail == ['&'] + Join(Segments(ps[1..], codec), "&")
  {
    var segs := Segments(ps, codec);
    assert segs[1..] == Segments(ps[1..], codec);
    if |ps| == 1 then [] else ['&'] + Join(Segments(ps[1..], codec), "&")
  }

  /** The encoded pairs are the first pair encoded, then the rest encoded. */
  lemma EncodedCons(ps: seq<Param>, codec: UrlCodec)
    requires |ps| >= 1
    ensures Encoded(ps, codec) == [(codec.encode(ps[0].0), codec.encode(ps[0].1))] + Encoded(ps[1..], codec)
  {
  }

  /** Decoding the encoded pairs gives the pairs back. */
  lemma DecodeEncoded(ps: seq<Param>, codec: UrlCodec)
    requires ValidCodec(codec)
    ensures Decoded(Encoded(ps, codec), codec) == ps
  {
  }

  /** Round trip: the parameters appended to a URL without a query are read back, each
      name with the value last given for it. */
  lemma QueryRoundTrip(base: string, ps: seq<Param>, codec: UrlCodec)
    requires ValidCodec(codec)
    requires Free(base, '?')
    ensures GetQueryParams(AppendQueryParams(base, Some(ps), codec), codec) == Some(ToMap(ps))
  {
    if |ps| > 0 {
      var url := AppendQueryParams(base, Some(ps), codec);
      var query := ['?'] + Join(Segments(ps, codec), "&");
      assert url == base + query;
      assert url[|base|] == '?' && url[..|base|] == base;
      assert IndexOf(url, '?') == |base|;
      assert url[|base|..] == query;
      ScanOfSegments('?', ps, codec);
      DecodeEncoded(ps, codec);
    }
  }

  // ----- getQueryParams with the loop made to end -----

  /** The `getQueryParams` loop as evidently intended: a part with no `=` after its
      separator is a name, taking the rest of the URL, with the empty value, and the loop
      ends there instead of repeating the pass. */
  function ScanQueryFixed(t: string): (r: seq<Param>)
    requires |t| >= 1 && (t[0] == '?' || t[0] == '&')
    ensures |r| >= 1
    decreases |t|
  {
    match PassOf(t)
    case NoEquals => [(t[1..], "")]
    case Final(p) => [p]
    case Next(p, rest) => [p] + ScanQueryFixed(rest)
  }

  /** `getQueryParams` with the loop made to end: always a map, and a non-empty one once
      the URL has a `?`. */
  function GetQueryParamsFixed(url: string, codec: UrlCodec): (r: map<string, string>)
    ensures Free(url, '?') <==> r == map[]
  {
    var q := IndexOf(url, '?');
    if q == -1 then map[]
    else
      var ps := Decoded(ScanQueryFixed(url[q..]), codec);
      assert ps[0].0 in ToMap(ps);
      ToMap(ps)
  }

  /** Wherever the loop as written ends, the corrected loop reads the same pairs. */
  lemma {:induction false} ScanQueryFixedAgrees(t: string)
    requires |t| >= 1 && (t[0] == '?' || t[0] == '&')
    ensures ScanQuery(t).Some? ==> ScanQueryFixed(t) == ScanQuery(t).value
    decreases |t|
  {
    if PassOf(t).Next? {
      ScanQueryFixedAgrees(PassOf(t).rest);
    }
  }

  /** Wherever `getQueryParams` as written returns, the corrected one returns the same map. */
  lemma GetQueryParamsFixedAgrees(url: string, codec: UrlCodec)
    ensures GetQueryParams(url, codec).Some? ==>
              GetQueryParamsFixed(url, codec) == GetQueryParams(url, codec).value
  {
    var q := IndexOf(url, '?');
    if q != -1 {
      ScanQueryFixedAgrees(url[q..]);
    }
  }

  /** The corrected `getQueryParams` reads back what `appendQueryParams` wrote. */
  lemma QueryRoundTripFixed(base: string, ps: seq<Param>, codec: UrlCodec)
    requires ValidCodec(codec)
    requires Free(base, '?')
    ensures GetQueryParamsFixed(AppendQueryParams(base, Some(ps), codec), codec) == ToMap(ps)
  {
    QueryRoundTrip(base, ps, codec);
    GetQueryParamsFixedAgrees(AppendQueryParams(base, Some(ps), codec), codec);
  }

  /** A URL whose query holds a name without `=`, such as `a?b`, makes the loop as
      written repeat its pass forever, while the corrected loop reads `b` with the empty
      value. */
  lemma QueryWithoutEqualsHangs(codec: UrlCodec)
    ensures GetQueryParams("a?b", codec).None?
    ensures GetQueryParamsFixed("a?b", codec) == map[codec.decode("b") := codec.decode("")]
  {
    assert IndexOf("a?b", '?') == 1;
    assert "a?b"[1..] == "?b";
    assert IndexOf("?b", '=') == -1;
    assert Decoded([("b", "")], codec) == [(codec.decode("b"), codec.decode(""))];
  }

  // ----- templates -----

  /** `join(array, delimiter)`: the elements in order, the delimiter between neighbours;
      a null delimiter (`None`) puts nothing between them. */
  method JoinArray(pieces: seq<string>, delimiter: Option<string>) returns (r: string)
    ensures r == Join(pieces, delimiter.GetOr(""))
  {
    var sb := "";
    var first := true;
    for i := 0 to |pieces|
      invariant first <==> i == 0
      invariant sb == Join(pieces[..i], delimiter.GetOr(""))
    {
      if first {
        first := false;
      } else if delimiter.Some? {
        sb := sb + delimiter.value;
      }
      if i > 0 {
        JoinSnoc(pieces[..i], pieces[i], delimiter.GetOr(""));
      }
      sb := sb + pieces[i];
      assert pieces[..i + 1] == pieces[..i] + [pieces[i]];
    }
    assert pieces[..|pieces|] == pieces;
    r := sb;
  }

  /** `isTemplateParam(str)`: a segment that starts with `:`, such as `:id`, names a
      parameter. */
  predicate IsTemplateParam(s: string) {
    |s| > 0 && StartsWith(s, ":")
  }

  /** The segments of a template: `template.split("/")`. */
  function TemplateSegments(template: string): seq<string> {
    Split(template, '/', 0)
  }

  /** True when template segment `i` names the parameter `name`. */
  predicate NamesParam(pT: seq<string>, i: int, name: string)
    requires 0 <= i < |pT|
  {
    IsTemplateParam(pT[i]) && pT[i][1..] == name
  }

  /** True when template segment `i` is a parameter not named by any earlier segment. */
  predicate FirstNaming(pT: seq<string>, i: int)
    requires 0 <= i < |pT|
  {
    IsTemplateParam(pT[i]) && forall j :: 0 <= j < i ==> !NamesParam(pT, j, pT[i][1..])
  }

  /** The names of the template's parameters. */
  ghost predicate IsTemplateName(pT: seq<string>, name: string) {
    exists i :: 0 <= i < |pT| && NamesParam(pT, i, name)
  }

  /** What a template segment becomes: a parameter's value, or "" when the map has none
      for it; a literal segment stays as it is. */
  function Fill(t: string, params: map<string, string>): string {
    if IsTemplateParam(t) then (if t[1..] in params then params[t[1..]] else "") else t
  }

  /** Every template segment filled in, in order. */
  function Filled(pT: seq<string>, params: map<string, string>): (r: seq<string>)
    ensures |r| == |pT| && forall i :: 0 <= i < |pT| ==> r[i] == Fill(pT[i], params)
  {
    seq(|pT|, i requires 0 <= i < |pT| => Fill(pT[i], params))
  }

  /** `setTemplateParams(template, params)`: the filled segments joined with `/`. */
  function SetTemplateParams(template: string, params: map<string, string>): string {
    Join(Filled(TemplateSegments(template), params), "/")
  }

  /** The URL's segments as `getTemplateParams` splits them: when the template ends in a
      parameter, into at most as many pieces as the template has, the last keeping the
      rest of the URL; otherwise as a plain split. */
  function UrlSegments(pT: seq<string>, url: string): seq<string>
    requires |pT| >= 1
  {
    Split(url, '/', if IsTemplateParam(pT[|pT| - 1]) then |pT| else 0)
  }

  /** The URL segment at index `i`, or "" when the URL has fewer segments. */
  function SegmentOr(pUrl: seq<string>, i: nat): string {
    if i < |pUrl| then pUrl[i] else ""
  }

  /** `m` holds what reading the first `p` template segments gives: exactly their
      parameter names, each with the URL segment where the name first occurs. */
  ghost predicate ReadUpTo(pT: seq<string>, pUrl: seq<string>, p: nat, m: map<string, string>)
    requires p <= |pT|
  {
    && (forall name :: name in m <==> exists i :: 0 <= i < p && NamesParam(pT, i, name))
    && (forall i {:trigger FirstNaming(pT, i)} :: 0 <= i < p && FirstNaming(pT, i) ==>
          pT[i][1..] in m && m[pT[i][1..]] == SegmentOr(pUrl, i))
  }

  /** The loop of `getTemplateParams` from segment `p` on; a name already read is not
      read again, so the first occurrence wins. */
  function CollectParams(pT: seq<string>, pUrl: seq<string>, p: nat, acc: map<string, string>): (r: map<string, string>)
    requires p <= |pT| && ReadUpTo(pT, pUrl, p, acc)
    ensures ReadUpTo(pT, pUrl, |pT|, r)
    decreases |pT| - p
  {
    if p == |pT| then acc
    else
      var t := pT[p];
      var next := if IsTemplateParam(t) && t[1..] !in acc then acc[t[1..] := SegmentOr(pUrl, p)] else acc;
      ReadStep(pT, pUrl, p, acc);
      CollectParams(pT, pUrl, p + 1, next)
  }

  /** One pass of the loop keeps `ReadUpTo`. */
  lemma ReadStep(pT: seq<string>, pUrl: seq<string>, p: nat, acc: map<string, string>)
    requires p < |pT| && ReadUpTo(pT, pUrl, p, acc)
    ensures var t := pT[p];
            ReadUpTo(pT, pUrl, p + 1,
                     if IsTemplateParam(t) && t[1..] !in acc then acc[t[1..] := SegmentOr(pUrl, p)] else acc)
  {
    var t := pT[p];
    if IsTemplateParam(t) {
      var n := t[1..];
      if n in acc {
        var j :| 0 <= j < p && NamesParam(pT, j, n);
        assert !FirstNaming(pT, p);
      } else {
        ReadNew(pT, pUrl, p, acc);
      }
    }
  }

  /** The pass that meets a parameter name for the first time records it. */
  lemma ReadNew(pT: seq<string>, pUrl: seq<string>, p: nat, acc: map<string, string>)
    requires p < |pT| && ReadUpTo(pT, pUrl, p, acc)
    requires IsTemplateParam(pT[p]) && pT[p][1..] !in acc
    ensures ReadUpTo(pT, pUrl, p + 1, acc[pT[p][1..] := SegmentOr(pUrl, p)])
  {
    var n := pT[p][1..];
    var m := acc[n := SegmentOr(pUrl, p)];
    assert forall i :: 0 <= i < p ==> !NamesParam(pT, i, n);
    assert NamesParam(pT, p, n) && FirstNaming(pT, p);
    forall i | 0 <= i < p + 1 && FirstNaming(pT, i)
      ensures pT[i][1..] in m && m[pT[i][1..]] == SegmentOr(pUrl, i)
    {
      if i < p {
        assert NamesParam(pT, i, pT[i][1..]);
      }
    }
  }

  /** Why `getTemplateParams` fails: a template of slashes alone splits into no segments,
      and reading its last one is out of bounds. */
  datatype TemplateError = IndexOutOfBounds

  /** `getTemplateParams(template, url)`: each parameter name of the template with the
      URL segment at the index where the name first occurs, or "" past the URL's end. */
  function GetTemplateParams(template: string, url: string): (r: Result<map<string, string>, TemplateError>)
    ensures r.Failure? <==> |TemplateSegments(template)| == 0
    ensures r.Success? ==> (|TemplateSegments(template)| >= 1 &&
              ReadUpTo(TemplateSegments(template), UrlSegments(TemplateSegments(template), url),
                       |TemplateSegments(template)|, r.value))
  {
    var pT := TemplateSegments(template);
    if |pT| == 0 then Failure(IndexOutOfBounds)
    else Success(CollectParams(pT, UrlSegments(pT, url), 0, map[]))
  }

  /** `getTemplateParams` fails exactly on a template made of one or more slashes. */
  lemma GetTemplateParamsFails(template: string, url: string)
    ensures GetTemplateParams(template, url).Failure?
            <==> |template| > 0 && forall i :: 0 <= i < |template| ==> template[i] == '/'
  {
    SplitZeroEmpty(template, '/');
  }

  /** Every parameter name occurs a first time. */
  lemma {:induction false} FirstOccurrence(pT: seq<string>, i: int)
    requires 0 <= i < |pT| && IsTemplateParam(pT[i])
    ensures exists k :: 0 <= k <= i && FirstNaming(pT, k) && pT[k][1..] == pT[i][1..]
    decreases i
  {
    if !FirstNaming(pT, i) {
      var j :| 0 <= j < i && NamesParam(pT, j, pT[i][1..]);
      FirstOccurrence(pT, j);
    }
  }

  /** `setTemplateParams` keeps the template's segments apart: read back the way
      `getTemplateParams` splits a URL, its result gives the filled segments, one per
      template segment, when no value holds a `/`. */
  lemma SplitFilled(template: string, params: map<string, string>)
    requires |TemplateSegments(template)| >= 1
    requires forall name :: name in params ==> Free(params[name], '/')
    ensures UrlSegments(TemplateSegments(template), SetTemplateParams(template, params))
            == Filled(TemplateSegments(template), params)
  {
    var pT := TemplateSegments(template);
    assert forall i :: 0 <= i < |pT| ==> Free(pT[i], '/');
    assert |pT| >= 2 ==> pT[|pT| - 1] != "";
    var s := Join(Filled(pT, params), "/");
    assert SetTemplateParams(template, params) == s;
    SplitFilledSegments(pT, params);
  }

  /** The segment-level core of `SplitFilled`: segments free of `/`, the last of two or
      more not empty, filled with values free of `/`, joined and split back. */
  lemma SplitFilledSegments(pT: seq<string>, params: map<string, string>)
    requires |pT| >= 1
    requires forall i :: 0 <= i < |pT| ==> Free(pT[i], '/')
    requires |pT| >= 2 ==> pT[|pT| - 1] != ""
    requires forall name :: name in params ==> Free(params[name], '/')
    ensures UrlSegments(pT, Join(Filled(pT, params), "/")) == Filled(pT, params)
  {
    var xs := Filled(pT, params);
    FilledFree(pT, params);
    var limit := if IsTemplateParam(pT[|pT| - 1]) then |pT| else 0;
    if limit == 0 {
      assert xs[|xs| - 1] == pT[|pT| - 1];
    }
    SplitOfJoin(xs, '/', limit);
  }

  /** Filling segments free of `/` with values free of `/` gives segments free of `/`. */
  lemma FilledFree(pT: seq<string>, params: map<string, string>)
    requires forall i :: 0 <= i < |pT| ==> Free(pT[i], '/')
    requires forall name :: name in params ==> Free(params[name], '/')
    ensures forall i :: 0 <= i < |pT| ==> Free(Filled(pT, params)[i], '/')
  {
    forall i | 0 <= i < |pT|
      ensures Free(Fill(pT[i], params), '/')
    {
    }
  }

  /** Round trip: reading a filled template with the same template gives each of its
      parameter names the value it was filled with, or "" for a name the map lacks. */
  lemma TemplateRoundTrip(template: string, params: map<string, string>)
    requires |TemplateSegments(template)| >= 1
    requires forall name :: name in params ==> Free(params[name], '/')
    ensures var r := GetTemplateParams(template, SetTemplateParams(template, params));
            && r.Success?
            && (forall name :: name in r.value <==> IsTemplateName(TemplateSegments(template), name))
            && (forall name :: name in r.value ==> r.value[name] == if name in params then params[name] else "")
  {
    var pT := TemplateSegments(template);
    SplitFilled(template, params);
    ReadFilled(pT, params, GetTemplateParams(template, SetTemplateParams(template, params)).value);
  }

  /** What reading the filled segments themselves gives: each name's value. */
  lemma ReadFilled(pT: seq<string>, params: map<string, string>, m: map<string, string>)
    requires ReadUpTo(pT, Filled(pT, params), |pT|, m)
    ensures forall name :: name in m <==> IsTemplateName(pT, name)
    ensures forall name :: name in m ==> m[name] == if name in params then params[name] else ""
  {
    forall name | name in m
      ensures m[name] == if name in params then params[name] else ""
    {
      var i :| 0 <= i < |pT| && NamesParam(pT, i, name);
      FirstOccurrence(pT, i);
      var k :| 0 <= k <= i && FirstNaming(pT, k) && pT[k][1..] == pT[i][1..];
      assert m[name] == Fill(pT[k], params);
    }
  }

  /** A template that ends in a parameter used nowhere before hands that parameter the
      whole rest of the URL, slashes and all. */
  lemma LastParamAbsorbs(template: string, xs: seq<string>, rest: string)
    requires |TemplateSegments(template)| >= 1
    requires FirstNaming(TemplateSegments(template), |TemplateSegments(template)| - 1)
    requires |xs| == |TemplateSegments(template)| - 1
    requires forall i :: 0 <= i < |xs| ==> Free(xs[i], '/')
    ensures var pT := TemplateSegments(template);
            var r := GetTemplateParams(template, Join(xs + [rest], "/"));
            r.Success? && pT[|pT| - 1][1..] in r.value && r.value[pT[|pT| - 1][1..]] == rest
  {
    var pT := TemplateSegments(template);
    var url := Join(xs + [rest], "/");
    UrlOfJoin(pT, xs, rest);
    ReadLast(pT, xs + [rest], GetTemplateParams(template, url).value);
  }

  /** Against a template ending in a parameter, a URL of as many segments as the template
      splits back into them, the last keeping its slashes. */
  lemma UrlOfJoin(pT: seq<string>, xs: seq<string>, rest: string)
    requires |pT| >= 1 && IsTemplateParam(pT[|pT| - 1])
    requires |xs| == |pT| - 1
    requires forall i :: 0 <= i < |xs| ==> Free(xs[i], '/')
    ensures UrlSegments(pT, Join(xs + [rest], "/")) == xs + [rest]
  {
    var ys := xs + [rest];
    assert forall i :: 0 <= i < |ys| - 1 ==> ys[i] == xs[i];
    SplitOfJoin(ys, '/', |ys|);
  }

  /** Reading gives a name first used by the last segment the last URL segment. */
  lemma ReadLast(pT: seq<string>, pUrl: seq<string>, m: map<string, string>)
    requires |pT| >= 1 && |pUrl| == |pT|
    requires ReadUpTo(pT, pUrl, |pT|, m)
    requires FirstNaming(pT, |pT| - 1)
    ensures pT[|pT| - 1][1..] in m && m[pT[|pT| - 1][1..]] == pUrl[|pUrl| - 1]
  {
  }
}
