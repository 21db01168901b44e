/** `extract_urls_from_message` (prepTM.py:67-76): the HTML body scanned with
    `re.findall(r'h(?:xx)?tp[s]?://[^\s"<>]+', html)`, every match then put
    through `.replace('hxxp', 'http')`.

    The regular expression is matched by hand. Its optional parts can never
    both be tried successfully at one position (after `h`, the `xx` branch
    needs an `x` where the other needs a `t`; after `tp`, the `s` branch needs
    an `s` where the other needs a `:`), so backtracking never changes the
    outcome, and the greedy `+` takes the longest run of allowed characters. */
module UrlExtractor {
  import opened Wrappers
  import opened Strings
  import opened MessageLoader

  /** `[^\s"<>]`: a character the path part of a match may contain. */
  predicate IsUrlChar(c: char) {
    !IsSpace(c) && c != '"' && c != '<' && c != '>'
  }

  /** The four strings `h(?:xx)?tp[s]?://` matches. Note that neither
      `http://` nor `hxxps://` is among them. */
  predicate IsScheme(w: string) {
    w == "htp://" || w == "htps://" || w == "hxxtp://" || w == "hxxtps://"
  }

  /** The language of the whole pattern: a scheme, then one or more URL
      characters. */
  ghost predicate InPattern(w: string) {
    exists k :: 0 <= k < |w| && IsScheme(w[..k]) && forall j :: k <= j < |w| ==> IsUrlChar(w[j])
  }

  /** Where `h(?:xx)?tp[s]?://` ends when it matches at `i`. */
  function SchemeEnd(s: string, i: nat): (e: Option<nat>)
    ensures e.Some? ==> i < e.value <= |s|
  {
    if i < |s| && s[i] == 'h' then
      var t := if i + 2 < |s| && s[i + 1] == 'x' && s[i + 2] == 'x' then i + 3 else i + 1;
      if t + 1 < |s| && s[t] == 't' && s[t + 1] == 'p' then
        var c := if t + 2 < |s| && s[t + 2] == 's' then t + 3 else t + 2;
        if c + 2 < |s| && s[c] == ':' && s[c + 1] == '/' && s[c + 2] == '/' then Some(c + 3)
        else None
      else None
    else None
  }

  /** The end of the longest run of URL characters from `j`. */
  function RunEnd(s: string, j: nat): (e: nat)
    requires j <= |s|
    ensures j <= e <= |s|
    decreases |s| - j
  {
    if j < |s| && IsUrlChar(s[j]) then RunEnd(s, j + 1) else j
  }

  /** Where the whole pattern ends when it matches at `i` (`+`: at least one
      URL character after the scheme). */
  function MatchAt(s: string, i: nat): (e: Option<nat>)
    ensures e.Some? ==> i < e.value <= |s|
  {
    match SchemeEnd(s, i)
    case None => None
    case Some(q) =>
      var e := RunEnd(s, q);
      if e > q then Some(e) else None
  }

  lemma RunEndSpans(s: string, j: nat)
    requires j <= |s|
    ensures forall k :: j <= k < RunEnd(s, j) ==> IsUrlChar(s[k])
    ensures RunEnd(s, j) < |s| ==> !IsUrlChar(s[RunEnd(s, j)])
    decreases |s| - j
  {
    if j < |s| && IsUrlChar(s[j]) {
      RunEndSpans(s, j + 1);
    }
  }

  lemma SchemeEndSound(s: string, i: nat)
    requires SchemeEnd(s, i).Some?
    ensures IsScheme(s[i..SchemeEnd(s, i).value])
  {
    var e := SchemeEnd(s, i).value;
    var w := s[i..e];
    if s[i + 1] == 'x' {
      if s[i + 5] == 's' {
        assert w == "hxxtps://";
      } else {
        assert w == "hxxtp://";
      }
    } else {
      if s[i + 3] == 's' {
        assert w == "htps://";
      } else {
        assert w == "htp://";
      }
    }
  }

  lemma SchemeEndComplete(s: string, i: nat, k: nat)
    requires i + k <= |s| && IsScheme(s[i..i + k])
    ensures SchemeEnd(s, i) == Some(i + k)
  {
    var w := s[i..i + k];
    assert s[i] == w[0] && s[i + 1] == w[1] && s[i + 2] == w[2] && s[i + 3] == w[3];
    assert s[i + 4] == w[4] && s[i + 5] == w[5];
    if w == "htp://" {
    } else if w == "htps://" {
      assert s[i + 6] == w[6];
    } else if w == "hxxtp://" {
      assert s[i + 6] == w[6] && s[i + 7] == w[7];
    } else {
      assert s[i + 6] == w[6] && s[i + 7] == w[7] && s[i + 8] == w[8];
    }
  }

  /** A match found at `i` is a word of the pattern, and it is the longest
      one: the character after it (if any) cannot extend it. */
  lemma MatchAtSound(s: string, i: nat)
    requires MatchAt(s, i).Some?
    ensures InPattern(s[i..MatchAt(s, i).value])
    ensures MatchAt(s, i).value < |s| ==> !IsUrlChar(s[MatchAt(s, i).value])
  {
    var q := SchemeEnd(s, i).value;
    var e := MatchAt(s, i).value;
    SchemeEndSound(s, i);
    RunEndSpans(s, q);
    var w := s[i..e];
    assert w[..q - i] == s[i..q];
    assert forall j :: q - i <= j < |w| ==> w[j] == s[i + j];
  }

  /** Every word of the pattern that starts at `i` is found there, and the
      matcher ends no earlier than it: the matcher is greedy. */
  lemma MatchAtComplete(s: string, i: nat, e: nat)
    requires i <= e <= |s| && InPattern(s[i..e])
    ensures MatchAt(s, i).Some? && e <= MatchAt(s, i).value
  {
    var w := s[i..e];
    var k :| 0 <= k < |w| && IsScheme(w[..k]) && forall j :: k <= j < |w| ==> IsUrlChar(w[j]);
    assert s[i..i + k] == w[..k];
    SchemeEndComplete(s, i, k);
    RunEndSpans(s, i + k);
  }

  /** No match starts at a `http` (the pattern wants `tp` right after `h`). */
  lemma PlainHttpNotMatched(s: string, i: nat)
    requires i + 4 <= |s| && s[i..i + 4] == "http"
    ensures MatchAt(s, i) == None
  {
    assert s[i + 1] == 't' && s[i + 2] == 't';
  }

  /** No match starts at a `hxxp` (after `hxx` the pattern wants `tp`). */
  lemma DefangedHxxpNotMatched(s: string, i: nat)
    requires i + 4 <= |s| && s[i..i + 4] == "hxxp"
    ensures MatchAt(s, i) == None
  {
    assert s[i + 1] == 'x' && s[i + 2] == 'x' && s[i + 3] == 'p';
  }

  /** Start and end of one match in the scanned text. */
  datatype Span = Span(lo: nat, hi: nat)

  /** `re.findall`'s scan from position `from`: try each position in turn,
      and after a match resume where it ended. */
  function Scan(s: string, from: nat): seq<Span>
    decreases |s| - from
  {
    if from >= |s| then []
    else
      match MatchAt(s, from)
      case Some(e) => [Span(from, e)] + Scan(s, e)
      case None => Scan(s, from + 1)
  }

  /** The spans of a scan from `from`: matches that start at or after
      `from`, in document order, none overlapping the next. */
  ghost predicate OrderedMatches(s: string, from: nat, spans: seq<Span>) {
    && (forall k :: 0 <= k < |spans| ==> from <= spans[k].lo < spans[k].hi <= |s|)
    && (forall k :: 0 <= k < |spans| ==> MatchAt(s, spans[k].lo) == Some(spans[k].hi))
    && (forall k :: 0 <= k < |spans| - 1 ==> spans[k].hi <= spans[k + 1].lo)
  }

  /** Every span is a match, spans lie in document order and never overlap. */
  lemma {:induction false} ScanSpans(s: string, from: nat)
    ensures OrderedMatches(s, from, Scan(s, from))
    decreases |s| - from
  {
    if from < |s| {
      match MatchAt(s, from)
      case Some(e) =>
        ScanSpans(s, e);
        var rest := Scan(s, e);
        var spans := [Span(from, e)] + rest;
        assert Scan(s, from) == spans;
        assert forall k :: 1 <= k < |spans| ==> spans[k] == rest[k - 1];
        assert OrderedMatches(s, from, spans);
      case None =>
        ScanSpans(s, from + 1);
    }
  }

  /** No match starts anywhere in `[a, b)`. */
  ghost predicate NoMatchIn(s: string, a: nat, b: nat) {
    forall p :: a <= p < b ==> MatchAt(s, p).None?
  }

  /** The definition of a leftmost, non-overlapping scan from `from`: the
      first span is the first position at or after `from` where the pattern
      matches, with the match found there, and the rest is a leftmost scan
      from its end; with no span left, nothing matches before the end. */
  ghost predicate IsLeftmostScan(s: string, from: nat, spans: seq<Span>)
    decreases |spans|
  {
    if spans == [] then NoMatchIn(s, from, |s|)
    else
      && from <= spans[0].lo
      && NoMatchIn(s, from, spans[0].lo)
      && MatchAt(s, spans[0].lo) == Some(spans[0].hi)
      && IsLeftmostScan(s, spans[0].hi, spans[1..])
  }

  lemma {:induction false} ScanIsLeftmost(s: string, from: nat)
    requires from <= |s|
    ensures IsLeftmostScan(s, from, Scan(s, from))
    decreases |s| - from
  {
    if from < |s| {
      match MatchAt(s, from)
      case Some(e) =>
        ScanIsLeftmost(s, e);
        assert Scan(s, from)[1..] == Scan(s, e);
      case None =>
        ScanIsLeftmost(s, from + 1);
    }
  }

  lemma {:induction false} LeftmostIsScan(s: string, from: nat, spans: seq<Span>)
    requires from <= |s| && IsLeftmostScan(s, from, spans)
    ensures spans == Scan(s, from)
    decreases |s| - from
  {
    if from == |s| {
    } else {
      match MatchAt(s, from)
      case Some(e) =>
        assert spans != [];
        assert spans[0].lo == from;
        LeftmostIsScan(s, e, spans[1..]);
      case None =>
        if spans != [] {
          assert spans[0].lo != from;
        }
        assert IsLeftmostScan(s, from + 1, spans);
        LeftmostIsScan(s, from + 1, spans);
    }
  }

  /** `Scan` is the one and only leftmost, non-overlapping scan. */
  lemma ScanUnique(s: string, from: nat, spans: seq<Span>)
    requires from <= |s|
    ensures IsLeftmostScan(s, from, spans) <==> spans == Scan(s, from)
  {
    ScanIsLeftmost(s, from);
    if IsLeftmostScan(s, from, spans) {
      LeftmostIsScan(s, from, spans);
    }
  }

  /** `re.findall`: the matched texts in document order, duplicates kept. */
  function FindAll(s: string): (m: seq<string>)
    ensures |m| == |Scan(s, 0)|
  {
    ScanSpans(s, 0);
    var spans := Scan(s, 0);
    seq(|spans|, k requires 0 <= k < |spans| => s[spans[k].lo..spans[k].hi])
  }

  /** `hxxp` occurs at `p`. */
  predicate HxxpAt(s: string, p: int) {
    0 <= p && p + 4 <= |s| && s[p] == 'h' && s[p + 1] == 'x' && s[p + 2] == 'x' && s[p + 3] == 'p'
  }

  /** `u.replace('hxxp', 'http')`: left to right, without overlaps. */
  function Refang(s: string): (r: string)
    ensures |r| == |s|
    decreases |s|
  {
    if |s| < 4 then s
    else if HxxpAt(s, 0) then "http" + Refang(s[4..])
    else [s[0]] + Refang(s[1..])
  }

  /** Position `k` is one of the two `x`s of an occurrence of `hxxp`. */
  predicate IsHxxpX(s: string, k: int) {
    HxxpAt(s, k - 1) || HxxpAt(s, k - 2)
  }

  lemma HxxpAtDrop(s: string, d: nat, p: int)
    requires d <= |s|
    ensures HxxpAt(s[d..], p) <==> p >= 0 && HxxpAt(s, p + d)
  {
    if p >= 0 && p + 4 <= |s| - d {
      assert s[d..][p..p + 4] == s[p + d..p + d + 4];
    }
  }

  /** `r` is `s` with exactly the two `x`s of each `hxxp` turned into `t`. */
  ghost predicate RefangedFrom(s: string, r: string) {
    |r| == |s| && forall k :: 0 <= k < |s| ==> r[k] == if IsHxxpX(s, k) then 't' else s[k]
  }

  lemma RefangStepReplaced(s: string)
    requires HxxpAt(s, 0)
    requires RefangedFrom(s[4..], Refang(s[4..]))
    ensures RefangedFrom(s, Refang(s))
  {
    var t := s[4..];
    var r := Refang(s);
    assert r == "http" + Refang(t);
    forall k | 0 <= k < |s|
      ensures r[k] == if IsHxxpX(s, k) then 't' else s[k]
    {
      if k >= 4 {
        HxxpAtDrop(s, 4, k - 5);
        HxxpAtDrop(s, 4, k - 6);
        assert r[k] == Refang(t)[k - 4];
        assert t[k - 4] == s[k];
      }
    }
  }

  lemma RefangStepKept(s: string)
    requires |s| >= 4 && !HxxpAt(s, 0)
    requires RefangedFrom(s[1..], Refang(s[1..]))
    ensures RefangedFrom(s, Refang(s))
  {
    var t := s[1..];
    var r := Refang(s);
    assert r == [s[0]] + Refang(t);
    assert !HxxpAt(s, 0);
    forall k | 0 <= k < |s|
      ensures r[k] == if IsHxxpX(s, k) then 't' else s[k]
    {
      if k > 0 {
        HxxpAtDrop(s, 1, k - 2);
        HxxpAtDrop(s, 1, k - 3);
        assert r[k] == Refang(t)[k - 1];
        assert t[k - 1] == s[k];
      }
    }
  }

  /** What `replace` does, character by character: exactly the two `x`s of
      each occurrence of `hxxp` become `t`; nothing else changes. */
  lemma {:induction false} RefangSpec(s: string)
    ensures RefangedFrom(s, Refang(s))
    decreases |s|
  {
    if |s| < 4 {
    } else if HxxpAt(s, 0) {
      RefangSpec(s[4..]);
      RefangStepReplaced(s);
    } else {
      RefangSpec(s[1..]);
      RefangStepKept(s);
    }
  }

  /** After `replace`, no `hxxp` is left. */
  lemma RefangRemovesHxxp(s: string, p: int)
    ensures !HxxpAt(Refang(s), p)
  {
    RefangSpec(s);
  }

  /** Every occurrence of `hxxp` becomes `http`. */
  lemma RefangReplacesEach(s: string, p: nat)
    requires HxxpAt(s, p)
    ensures Refang(s)[p..p + 4] == "http"
  {
    RefangSpec(s);
    assert IsHxxpX(s, p + 1) && IsHxxpX(s, p + 2);
    assert !IsHxxpX(s, p) && !IsHxxpX(s, p + 3);
    var r := Refang(s);
    assert r[p..p + 4] == [r[p], r[p + 1], r[p + 2], r[p + 3]];
  }

  /** A string without `hxxp` is left alone, so `replace` is idempotent. */
  lemma RefangIdempotent(s: string)
    ensures Refang(Refang(s)) == Refang(s)
  {
    var r := Refang(s);
    RefangSpec(r);
    forall p ensures !HxxpAt(r, p) {
      RefangRemovesHxxp(s, p);
    }
  }

  /** Inside a scheme, no position is an `x` of `hxxp`. */
  lemma SchemeHasNoHxxpX(w: string, k: nat, j: nat)
    requires k <= |w| && IsScheme(w[..k]) && j < k
    ensures !IsHxxpX(w, j)
  {
    var pre := w[..k];
    assert forall m :: 0 <= m < k ==> w[m] == pre[m];
    if pre == "htp://" || pre == "htps://" {
      assert w[1] == 't';
      assert forall m :: 1 <= m < k ==> w[m] != 'h';
    } else {
      assert w[3] == 't';
      assert forall m :: 1 <= m < k ==> w[m] != 'h';
    }
  }

  /** `replace` keeps a match a word of the pattern: its scheme is untouched
      (no scheme contains `hxxp`) and `t` is a URL character. */
  lemma RefangKeepsPattern(w: string)
    requires InPattern(w)
    ensures InPattern(Refang(w))
  {
    var k :| 0 <= k < |w| && IsScheme(w[..k]) && forall j :: k <= j < |w| ==> IsUrlChar(w[j]);
    RefangSpec(w);
    var r := Refang(w);
    forall j | 0 <= j < k ensures r[j] == w[j] {
      SchemeHasNoHxxpX(w, k, j);
    }
    assert r[..k] == w[..k];
    assert forall j :: k <= j < |r| ==> IsUrlChar(r[j]);
  }

  /** `extract_urls_from_message` on a given HTML text. */
  function ExtractUrls(html: string): (urls: seq<string>)
    ensures |urls| == |Scan(html, 0)|
  {
    var found := FindAll(html);
    seq(|found|, k requires 0 <= k < |found| => Refang(found[k]))
  }

  /** The URLs are the matches of a leftmost, non-overlapping scan in
      document order, each with every `hxxp` replaced; each is still a word
      of the pattern and holds no `hxxp`. */
  lemma ExtractUrlsSpec(html: string)
    ensures IsLeftmostScan(html, 0, Scan(html, 0))
    ensures forall k :: 0 <= k < |ExtractUrls(html)| ==>
              var sp := Scan(html, 0)[k];
              && sp.lo < sp.hi <= |html|
              && InPattern(html[sp.lo..sp.hi])
              && ExtractUrls(html)[k] == Refang(html[sp.lo..sp.hi])
              && InPattern(ExtractUrls(html)[k])
              && forall p :: !HxxpAt(ExtractUrls(html)[k], p)
  {
    ScanIsLeftmost(html, 0);
    ScanSpans(html, 0);
    forall k | 0 <= k < |ExtractUrls(html)|
      ensures var sp := Scan(html, 0)[k];
              && InPattern(html[sp.lo..sp.hi])
              && InPattern(ExtractUrls(html)[k])
              && forall p :: !HxxpAt(ExtractUrls(html)[k], p)
    {
      var sp := Scan(html, 0)[k];
      MatchAtSound(html, sp.lo);
      RefangKeepsPattern(html[sp.lo..sp.hi]);
      forall p ensures !HxxpAt(ExtractUrls(html)[k], p) {
        RefangRemovesHxxp(html[sp.lo..sp.hi], p);
      }
    }
  }

  /** The HTML body of a parsed message, `""` when there is none. */
  function HtmlBody(msg: Message): string {
    match msg
    case Eml(m) => m.htmlBody.GetOr("")
    case Msg(m) => m.htmlBody.GetOr("")
  }

  /** `extract_urls_from_message`. */
  function ExtractUrlsFromMessage(msg: Message): seq<string> {
    ExtractUrls(HtmlBody(msg))
  }

  /** A message without an HTML body yields no URLs. */
  lemma NoBodyNoUrls(msg: Message)
    requires (msg.Eml? && msg.eml.htmlBody.None?) || (msg.Msg? && msg.msg.htmlBody.None?)
    ensures ExtractUrlsFromMessage(msg) == []
  {
    assert Scan("", 0) == [];
  }
}
