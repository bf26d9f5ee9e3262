/** Video recommendations: reading a YouTube video id out of a link, verifying it with an existence
    probe, and keeping only the verified suggestions in their original order. URL parsing and the
    probe are parameters: `new URL` as a function that yields the hostname, the pathname and the `v`
    query parameter (or `None` where it throws), and the thumbnail request as a predicate on ids that
    is false where the request fails or is not ok. */
module Recommendations {
  import opened Wrappers
  import opened Strings
  import opened Json
  import opened Types
  import Gemini

  datatype ParsedUrl = ParsedUrl(hostname: string, pathname: string, v: Option<string>)

  type UrlParser = string -> Option<ParsedUrl>

  type Probe = string -> bool

  // ----- The regular-expression fallback -----

  /** The characters the regular-expression `.` does not match. */
  predicate IsLineTerminator(c: char) {
    c == '\n' || c == '\r' || c == '\U{2028}' || c == '\U{2029}'
  }

  /** What the regular-expression `.` matches without the `u` flag: one UTF-16 code unit that is not a
      line terminator. A character outside the Basic Multilingual Plane is two code units. */
  predicate IsSingleUnit(c: char) {
    !IsLineTerminator(c) && CodeUnits(c) == 1
  }

  /** `\w`. */
  predicate IsWordChar(c: char) {
    ('a' <= c <= 'z') || ('A' <= c <= 'Z') || ('0' <= c <= '9') || c == '_'
  }

  /** The length of the alternative of `(youtu.be\/|v\/|u\/\w\/|embed\/|watch\?v=|\&v=)` that matches
      at `p`, if one does. The alternatives start with distinct characters, so at most one can. */
  function MarkerLength(s: string, p: nat): (r: Option<nat>)
    ensures r.Some? ==> r.value > 0 && p + r.value <= |s| && s[p + r.value - 1] in {'/', '='}
  {
    if p >= |s| then None
    else match s[p]
      case 'y' =>
        if OccursAt(s, "youtu", p) && p + 9 <= |s| && IsSingleUnit(s[p + 5]) && OccursAt(s, "be/", p + 6)
        then (assert s[p + 8] == s[p + 6..p + 9][2]; Some(9)) else None
      case 'v' => if OccursAt(s, "v/", p) then (assert s[p + 1] == s[p..p + 2][1]; Some(2)) else None
      case 'u' =>
        if OccursAt(s, "u/", p) && p + 4 <= |s| && IsWordChar(s[p + 2]) && s[p + 3] == '/' then Some(4) else None
      case 'e' => if OccursAt(s, "embed/", p) then (assert s[p + 5] == s[p..p + 6][5]; Some(6)) else None
      case 'w' => if OccursAt(s, "watch?v=", p) then (assert s[p + 7] == s[p..p + 8][7]; Some(8)) else None
      case '&' => if OccursAt(s, "&v=", p) then (assert s[p + 2] == s[p..p + 3][2]; Some(3)) else None
      case _ => None
  }

  /** Where the first line ends: `^.*` cannot run past it. */
  function LineEnd(s: string): (e: nat)
    ensures e <= |s|
    ensures forall i :: 0 <= i < e ==> !IsLineTerminator(s[i])
    ensures e < |s| ==> IsLineTerminator(s[e])
  {
    if |s| == 0 || IsLineTerminator(s[0]) then 0 else 1 + LineEnd(s[1..])
  }

  /** The greedy `^.*` backs off from the end of the first line: the match uses the rightmost position
      below `hi` at which a marker starts. */
  function RightmostMarker(s: string, hi: nat): (r: Option<(nat, nat)>)
    requires hi <= |s|
    ensures r.None? ==> forall p :: 0 <= p < hi ==> MarkerLength(s, p).None?
    ensures r.Some? ==> var (p, len) := r.value;
      && p < hi && MarkerLength(s, p) == Some(len)
      && forall q :: p < q < hi ==> MarkerLength(s, q).None?
  {
    if hi == 0 then None
    else match MarkerLength(s, hi - 1)
      case Some(len) => Some((hi - 1, len))
      case None => RightmostMarker(s, hi - 1)
  }

  const IdStops: set<char> := {'#', '&', '?'}

  /** `url.match(regExp)` with the length check: the capture `([^#\&\?]*)` after the rightmost marker
      of the first line, kept only when JavaScript counts 11 code units in it. */
  function RegexId(url: string): (r: Option<string>)
    ensures r.Some? ==> Utf16Length(r.value) == 11 && forall i :: 0 <= i < |r.value| ==> r.value[i] !in IdStops
    ensures (forall p :: 0 <= p < LineEnd(url) ==> MarkerLength(url, p).None?) ==> r.None?
    ensures r == IdAfter(url, RightmostMarker(url, LineEnd(url)))
  {
    IdAfter(url, RightmostMarker(url, LineEnd(url)))
  }

  /** The id the match yields once the marker `(p, len)` is chosen: the capture from `p + len`, kept
      when it is 11 code units long; no marker, no id. */
  function IdAfter(url: string, m: Option<(nat, nat)>): (r: Option<string>)
    requires m.Some? ==> m.value.0 + m.value.1 <= |url|
    ensures m.None? ==> r.None?
    ensures m.Some? ==> var capture := Capture(url, m.value.0 + m.value.1);
      && (Utf16Length(capture) == 11 ==> r == Some(capture))
      && (Utf16Length(capture) != 11 ==> r.None?)
    ensures r.Some? ==> Utf16Length(r.value) == 11 && forall i :: 0 <= i < |r.value| ==> r.value[i] !in IdStops
  {
    if m.None? then None
    else
      var capture := Capture(url, m.value.0 + m.value.1);
      if Utf16Length(capture) == 11 then Some(capture) else None
  }

  /** The group `([^#\&\?]*)` starting at `from`: everything up to the first stop character. */
  function Capture(url: string, from: nat): (r: string)
    requires from <= |url|
    ensures forall i :: 0 <= i < |r| ==> r[i] !in IdStops
    ensures from + |r| <= |url| && r == url[from..from + |r|]
    ensures from + |r| < |url| ==> url[from + |r|] in IdStops
  {
    TakeUntil(url[from..], IdStops)
  }

  // ----- Video ids -----

  /** `getYouTubeIdFromUrl`: no id for an absent or empty link; the path of a `youtu.be` link without
      its leading `/` and cut at `?`; the non-empty `v` parameter on a `youtube.com` host; otherwise
      the regular-expression fallback. Only the fallback checks the length. */
  function YouTubeId(url: Option<string>, parseUrl: UrlParser): (r: Option<string>)
    ensures url.None? || url.value == "" ==> r.None?
    ensures url.Some? && url.value != "" && parseUrl(url.value).Some? && parseUrl(url.value).value.hostname == "youtu.be" ==>
      r == Some(BeforeFirst(Drop(parseUrl(url.value).value.pathname, 1), '?'))
    ensures r.Some? ==> '?' !in r.value || (parseUrl(url.value).Some? && parseUrl(url.value).value.v == r)
    ensures url.Some? && url.value != "" && parseUrl(url.value).Some? ==>
      var u := parseUrl(url.value).value;
      && (u.hostname != "youtu.be" && Includes(u.hostname, "youtube.com") && u.v.Some? && u.v.value != "" ==> r == u.v)
      && (u.hostname != "youtu.be" && !(Includes(u.hostname, "youtube.com") && u.v.Some? && u.v.value != "") ==>
            r == RegexId(url.value))
    ensures url.Some? && url.value != "" && parseUrl(url.value).None? ==> r == RegexId(url.value)
  {
    if url.None? || url.value == "" then None
    else
      var fallback := RegexId(url.value);
      match parseUrl(url.value)
      case None => fallback
      case Some(u) =>
        if u.hostname == "youtu.be" then Some(BeforeFirst(Drop(u.pathname, 1), '?'))
        else if Includes(u.hostname, "youtube.com") && u.v.Some? && u.v.value != "" then u.v
        else fallback
  }

  /** A one-line watch link gives its id whichever way it is read: unparseable or on a foreign host
      through the fallback, on a `youtube.com` host through `v` (when the parser reads `v` as the
      id). */
  lemma YouTubeIdOfWatchLink(base: string, id: string, parseUrl: UrlParser)
    requires forall i :: 0 <= i < |base| ==> !IsLineTerminator(base[i])
    requires |id| == 11 && Bmp(id)
    requires forall i :: 0 <= i < 11 ==> id[i] !in {'/', '=', '#', '&', '?'} && !IsLineTerminator(id[i])
    requires var u := parseUrl(base + "watch?v=" + id);
      u.Some? ==> u.value.hostname != "youtu.be" && (Includes(u.value.hostname, "youtube.com") && u.value.v.Some? ==> u.value.v == Some(id))
    ensures YouTubeId(Some(base + "watch?v=" + id), parseUrl) == Some(id)
  {
    WatchLinkId(base, id);
  }

  /** `validateYouTubeId`: no id, or an empty one, is invalid without a probe. */
  predicate IsVerified(id: Option<string>, probe: Probe) {
    id.Some? && id.value != "" && probe(id.value)
  }

  /** A link of the form `...watch?v=<id>` is read by the fallback as `<id>` when the id could not
      contain a marker or a stop character and the link is one line. */
  lemma WatchLinkId(base: string, id: string)
    requires forall i :: 0 <= i < |base| ==> !IsLineTerminator(base[i])
    requires |id| == 11 && Bmp(id)
    requires forall i :: 0 <= i < 11 ==> id[i] !in {'/', '=', '#', '&', '?'} && !IsLineTerminator(id[i])
    ensures RegexId(base + "watch?v=" + id) == Some(id)
  {
    Utf16LengthBmp(id);
    var s := base + "watch?v=" + id;
    var b := |base|;
    assert s[b..b + 8] == "watch?v=";
    assert s[b + 8..] == id;
    assert LineEnd(s) == |s| by { LineEndOfOneLine(s); }
    forall q | b < q < |s| ensures MarkerLength(s, q).None? {
      if q >= b + 8 {
        NoMarkerInId(s, b + 8, q);
      } else {
        NoMarkerInWatch(s, b, q);
      }
    }
    assert RightmostMarker(s, |s|) == Some((b, 8)) by { RightmostIs(s, |s|, b, 8); }
    assert Capture(s, b + 8) == id by { TakeUntilNone(id, IdStops); }
  }

  /** Inside `watch?v=` no other marker starts. */
  lemma NoMarkerInWatch(s: string, b: nat, q: nat)
    requires b < q < b + 8 <= |s|
    requires s[b..b + 8] == "watch?v="
    ensures MarkerLength(s, q).None?
  {
    assert s[q] == s[b..b + 8][q - b];
    if q == b + 6 {
      assert s[q..q + 2][1] == s[b..b + 8][7];
    }
  }

  lemma {:induction false} LineEndOfOneLine(s: string)
    requires forall i :: 0 <= i < |s| ==> !IsLineTerminator(s[i])
    ensures LineEnd(s) == |s|
  {
    if |s| > 0 {
      assert forall i :: 0 <= i < |s| - 1 ==> s[1..][i] == s[i + 1];
      LineEndOfOneLine(s[1..]);
    }
  }

  /** No marker starts where the rest of the text has neither `/` nor `=`. */
  lemma NoMarkerInId(s: string, start: nat, q: nat)
    requires start <= q < |s|
    requires forall i :: start <= i < |s| ==> s[i] !in {'/', '='}
    ensures MarkerLength(s, q).None?
  {
  }

  /** The rightmost marker below `hi` is at `p` when one is there and none is above it. */
  lemma {:induction false} RightmostIs(s: string, hi: nat, p: nat, len: nat)
    requires p < hi <= |s|
    requires MarkerLength(s, p) == Some(len)
    requires forall q :: p < q < hi ==> MarkerLength(s, q).None?
    ensures RightmostMarker(s, hi) == Some((p, len))
  {
    if hi - 1 > p {
      RightmostIs(s, hi - 1, p, len);
    }
  }

  /** A text free of stop characters is captured whole. */
  lemma {:induction false} TakeUntilNone(s: string, stops: set<char>)
    requires forall i :: 0 <= i < |s| ==> s[i] !in stops
    ensures TakeUntil(s, stops) == s
  {
    if |s| > 0 {
      assert forall i :: 0 <= i < |s| - 1 ==> s[1..][i] == s[i + 1];
      TakeUntilNone(s[1..], stops);
      assert [s[0]] + s[1..] == s;
    }
  }

  // ----- Verify, then filter -----

  /** `rec.youtubeUrl` on a generated element: `None` where the read throws (a `null` element, or a
      truthy non-string link that reaches `url.match`), `Some(None)` for a falsy link, otherwise the
      link. */
  function LinkOf(rec: Json): (r: Option<Option<string>>)
    ensures rec == JNull ==> r.None?
    ensures r == Some(None) <==> rec != JNull && (Member(rec, "youtubeUrl").None? || !Truthy(Member(rec, "youtubeUrl").value))
  {
    if rec == JNull then None
    else match Member(rec, "youtubeUrl")
      case None => Some(None)
      case Some(v) =>
        if !Truthy(v) then Some(None)
        else if v.JString? then Some(Some(v.str))
        else None
  }

  /** A generated element as a suggestion with its verification status. */
  function Verify(rec: Json, parseUrl: UrlParser, probe: Probe): (r: Option<VerifiedRecommendation>)
    ensures r.None? <==> LinkOf(rec).None?
    ensures r.Some? ==> r.value.isValid == IsVerified(YouTubeId(LinkOf(rec).value, parseUrl), probe)
  {
    match LinkOf(rec)
    case None => None
    case Some(link) =>
      var suggestion := Recommendation(Gemini.Text(rec, "title"), Gemini.Text(rec, "description"), link);
      Some(VerifiedRecommendation(suggestion, IsVerified(YouTubeId(link, parseUrl), probe)))
  }

  /** `Promise.all` over the elements, in element order: it fails as soon as one element does. */
  function VerifyAll(recs: seq<Json>, parseUrl: UrlParser, probe: Probe): (r: Option<seq<VerifiedRecommendation>>)
    ensures r.None? <==> exists i :: 0 <= i < |recs| && LinkOf(recs[i]).None?
    ensures r.Some? ==> |r.value| == |recs| && forall i :: 0 <= i < |recs| ==> Verify(recs[i], parseUrl, probe) == Some(r.value[i])
  {
    if |recs| == 0 then Some([])
    else
      var first := Verify(recs[0], parseUrl, probe);
      var rest := VerifyAll(recs[1..], parseUrl, probe);
      assert forall i :: 0 < i < |recs| ==> recs[i] == recs[1..][i - 1];
      if first.None? then None
      else if rest.None? then
        var i :| 0 <= i < |recs[1..]| && LinkOf(recs[1..][i]).None?;
        assert LinkOf(recs[i + 1]).None?;
        None
      else
        var all := [first.value] + rest.value;
        assert forall i :: 0 < i < |recs| ==> all[i] == rest.value[i - 1];
        Some(all)
  }

  /** `filter(r => r.isValid)`. */
  function KeepValid(vs: seq<VerifiedRecommendation>): (r: seq<VerifiedRecommendation>)
    ensures |r| <= |vs|
    ensures forall i :: 0 <= i < |r| ==> r[i].isValid
    ensures forall v :: v in r <==> v in vs && v.isValid
  {
    if |vs| == 0 then []
    else
      var rest := KeepValid(vs[1..]);
      assert forall v :: v in vs <==> v == vs[0] || v in vs[1..];
      if vs[0].isValid then [vs[0]] + rest else rest
  }

  /** The filter keeps order: it distributes over concatenation. */
  lemma {:induction false} KeepValidConcat(a: seq<VerifiedRecommendation>, b: seq<VerifiedRecommendation>)
    ensures KeepValid(a + b) == KeepValid(a) + KeepValid(b)
  {
    if |a| > 0 {
      assert (a + b)[1..] == a[1..] + b;
      KeepValidConcat(a[1..], b);
    } else {
      assert a + b == b;
    }
  }

  /** The filter keeps everything exactly when everything is valid. */
  lemma {:induction false} KeepValidAll(vs: seq<VerifiedRecommendation>)
    ensures KeepValid(vs) == vs <==> forall i :: 0 <= i < |vs| ==> vs[i].isValid
  {
    if |vs| > 0 {
      KeepValidAll(vs[1..]);
      if !vs[0].isValid {
        assert |KeepValid(vs)| < |vs| by { assert |KeepValid(vs[1..])| <= |vs| - 1; }
      }
    }
  }

  // ----- The view -----

  datatype ViewState = ViewState(
    recommendations: seq<VerifiedRecommendation>,
    sources: seq<GroundingSource>,
    generating: bool,
    notFound: bool)

  /** The view's state when a search ends in `notFound` before any result is shown. */
  function NothingFound(): ViewState {
    ViewState([], [], false, true)
  }

  /** The part of `handleGenerateRecommendations` after the request: a result that is not a non-empty
      array (`results.length === 0`, or `results.map` throwing), or an element whose link cannot be
      read, ends with nothing shown and `notFound` set; otherwise the verified suggestions are shown
      in their original order with the sources, and `notFound` says whether none was verified. */
  function Show(results: Json, sources: seq<GroundingSource>, parseUrl: UrlParser, probe: Probe): (s': ViewState)
    ensures !s'.generating
    ensures s'.notFound <==> |s'.recommendations| == 0
    ensures forall i :: 0 <= i < |s'.recommendations| ==> s'.recommendations[i].isValid
    ensures !results.JArray? || |results.items| == 0 ==> s' == NothingFound()
  {
    if !results.JArray? || |results.items| == 0 then NothingFound()
    else
      match VerifyAll(results.items, parseUrl, probe)
      case None => NothingFound()
      case Some(verified) =>
        var kept := KeepValid(verified);
        ViewState(kept, sources, false, |kept| == 0)
  }

  /** `handleGenerateRecommendations` once all its calls are done: without document text nothing
      changes and the model is not asked; otherwise the model sees the cut-down context, and a failed
      request ends with nothing shown and `notFound` set. */
  function Generate(s: ViewState, pdfText: string, model: string -> Option<Gemini.RecommendationReply>, parse: Parser,
                    parseUrl: UrlParser, probe: Probe): (s': ViewState)
    ensures pdfText == "" ==> s' == s
    ensures pdfText != "" ==>
      var reply := model(Gemini.RecommendationContext(pdfText));
      && (Gemini.GetRecommendations(reply, parse).Failure? ==> s' == NothingFound())
      && (Gemini.GetRecommendations(reply, parse).Success? ==>
            var found := Gemini.GetRecommendations(reply, parse).value;
            s' == Show(found.recommendations, found.sources, parseUrl, probe))
  {
    if pdfText == "" then s
    else
      match Gemini.GetRecommendations(model(Gemini.RecommendationContext(pdfText)), parse)
      case Failure(_) => NothingFound()
      case Success(found) => Show(found.recommendations, found.sources, parseUrl, probe)
  }

  /** The list shown is the verified list filtered to valid suggestions, in order, with the sources,
      and nothing is found exactly when no suggestion was verified. */
  lemma ShowsVerified(items: seq<Json>, sources: seq<GroundingSource>, parseUrl: UrlParser, probe: Probe,
                      verified: seq<VerifiedRecommendation>)
    requires |items| > 0
    requires VerifyAll(items, parseUrl, probe) == Some(verified)
    ensures var s' := Show(JArray(items), sources, parseUrl, probe);
      && s'.recommendations == KeepValid(verified)
      && s'.sources == sources
      && (s'.notFound <==> forall i :: 0 <= i < |verified| ==> !verified[i].isValid)
  {
    KeepValidNone(verified);
  }

  /** The filter drops everything exactly when nothing is valid. */
  lemma KeepValidNone(vs: seq<VerifiedRecommendation>)
    ensures |KeepValid(vs)| == 0 <==> forall i :: 0 <= i < |vs| ==> !vs[i].isValid
  {
    if |KeepValid(vs)| > 0 {
      assert KeepValid(vs)[0] in vs;
    }
    if exists i :: 0 <= i < |vs| && vs[i].isValid {
      var i :| 0 <= i < |vs| && vs[i].isValid;
      assert vs[i] in KeepValid(vs);
    }
  }

  /** An empty result is reported as not found without a single probe: the outcome is the same for
      every probe. */
  lemma EmptyResultNeedsNoProbe(s: ViewState, pdfText: string, model: string -> Option<Gemini.RecommendationReply>,
                                parse: Parser, parseUrl: UrlParser, probe1: Probe, probe2: Probe)
    requires pdfText != ""
    requires model(Gemini.RecommendationContext(pdfText)).Some?
    requires parse(Gemini.StripFences(model(Gemini.RecommendationContext(pdfText)).value.text)) == Some(JArray([]))
    ensures Generate(s, pdfText, model, parse, parseUrl, probe1) == NothingFound()
    ensures Generate(s, pdfText, model, parse, parseUrl, probe2) == NothingFound()
  {
  }
}
