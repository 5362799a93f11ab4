/** The `List-Unsubscribe` header parser (`parse_unsubscribe`, app.py:64-80).
    Each of the three `re.search` calls is modelled twice: declaratively, as
    `Span` (what it means for the pattern to match at a position), and
    executably, as `MatchEnd` plus a leftmost `Search`; lemmas connect them. */
module Unsubscribe {
  import opened Options
  import opened Strings

  /** What `parse_unsubscribe` returns: the web link and the mailto address. */
  datatype Links = Links(http: Option<string>, mailto: Option<string>)

  /** The three regular expressions of the parser:
      BracketedUrl    `<(https?://[^>]+)>`
      BareUrl         `(https?://\S+)`
      BracketedMailto `<mailto:([^>]+)>` */
  datatype Pattern = BracketedUrl | BareUrl | BracketedMailto

  /** `https?://` followed by at least one more character. */
  predicate IsHttpUrl(link: string) {
    || (HasPrefix(link, "http://") && |link| > 7)
    || (HasPrefix(link, "https://") && |link| > 8)
  }

  /** Pattern `p` matches `h` at index `i`, and `j` is the index just past
      the captured group. For the bracketed patterns `h[j]` is the closing `>`. */
  predicate Span(p: Pattern, h: string, i: int, j: int) {
    match p
    case BracketedUrl =>
      && 0 <= i < j < |h|
      && h[i] == '<' && h[j] == '>'
      && IsHttpUrl(h[i + 1..j])
      && (forall k :: i < k < j ==> h[k] != '>')
    case BareUrl =>
      && 0 <= i < j <= |h|
      && IsHttpUrl(h[i..j])
      && (forall k :: i <= k < j ==> !IsSpace(h[k]))
      && (j == |h| || IsSpace(h[j]))
    case BracketedMailto =>
      && 0 <= i && i + 8 < j < |h|
      && HasPrefix(h[i..], "<mailto:") && h[j] == '>'
      && (forall k :: i + 8 <= k < j ==> h[k] != '>')
  }

  /** The capture group `group(1)` of a match. */
  function Group(p: Pattern, h: string, i: int, j: int): string
    requires Span(p, h, i, j)
  {
    match p
    case BracketedUrl => h[i + 1..j]
    case BareUrl => h[i..j]
    case BracketedMailto => h[i + 8..j]
  }

  /** The pattern matches somewhere in `h`. */
  ghost predicate Occurs(p: Pattern, h: string) {
    exists i, j :: Span(p, h, i, j)
  }

  /** The match at `i` is the one `re.search` reports: none starts further left. */
  ghost predicate Leftmost(p: Pattern, h: string, i: int, j: int) {
    Span(p, h, i, j) && forall k, m :: 0 <= k < i ==> !Span(p, h, k, m)
  }

  /** A match position determines the end of its match. */
  lemma SpanEndUnique(p: Pattern, h: string, i: int, j: int, j': int)
    requires Span(p, h, i, j) && Span(p, h, i, j')
    ensures j == j'
  {
  }

  /** Length of the `https?://` scheme that `s` starts with, or 0. */
  function SchemeLength(s: string): (n: nat)
    ensures n == 0 || n == 7 || n == 8
    ensures n > 0 ==> n <= |s| && forall k :: 0 <= k < n ==> !IsSpace(s[k]) && s[k] != '>'
  {
    if HasPrefix(s, "https://") then 8
    else if HasPrefix(s, "http://") then 7
    else 0
  }

  /** Any prefix of `s` that extends past its scheme is an HTTP URL with the same scheme. */
  lemma SchemeOfPrefix(s: string, m: int)
    requires 0 < SchemeLength(s) < m <= |s|
    ensures IsHttpUrl(s[..m]) && SchemeLength(s[..m]) == SchemeLength(s)
  {
    assert s[..m][..7] == s[..7];
    assert s[..m][..8] == s[..8];
  }

  /** Conversely, an HTTP URL at the front of `s` fixes the scheme of `s`. */
  lemma UrlFixesScheme(s: string, m: int)
    requires 0 <= m <= |s| && IsHttpUrl(s[..m])
    ensures 0 < SchemeLength(s) < m
  {
    assert s[..m][..7] == s[..7];
    if HasPrefix(s[..m], "https://") {
      assert s[..m][..8] == s[..8];
      assert s[..m][4] == s[..m][..8][4] == 's';
      assert s[..m][..7][4] == 's' && "http://"[4] == ':';
    }
  }

  lemma BracketedSchemeInside(h: string, i: int, j: int)
    requires 0 <= i < j <= |h| && IsHttpUrl(h[i + 1..j])
    ensures 0 < SchemeLength(h[i + 1..]) < j - i - 1
  {
    assert h[i + 1..][..j - i - 1] == h[i + 1..j];
    UrlFixesScheme(h[i + 1..], j - i - 1);
  }

  lemma BareSchemeInside(h: string, i: int, j: int)
    requires 0 <= i < j <= |h| && IsHttpUrl(h[i..j])
    ensures 0 < SchemeLength(h[i..]) < j - i
  {
    assert h[i..][..j - i] == h[i..j];
    UrlFixesScheme(h[i..], j - i);
  }

  function BracketedUrlEnd(h: string, i: nat): (r: Option<nat>)
    requires i <= |h|
    ensures forall j :: Span(BracketedUrl, h, i, j) <==> r == Some(j)
  {
    if i < |h| && h[i] == '<' && SchemeLength(h[i + 1..]) > 0 then
      var b := i + 1 + SchemeLength(h[i + 1..]);
      match IndexOf(h, '>', b)
      case Some(j) =>
        if j > b then
          SchemeOfPrefix(h[i + 1..], j - i - 1);
          assert h[i + 1..][..j - i - 1] == h[i + 1..j];
          ReportedUrl(h, i, b, j);
          Some(j)
        else
          NoUrlBefore(h, i, b, j);
          None
      case None =>
        NoUrlBefore(h, i, b, |h|);
        None
    else
      assert forall j :: !Span(BracketedUrl, h, i, j) by {
        forall j | Span(BracketedUrl, h, i, j) ensures false {
          BracketedSchemeInside(h, i, j);
        }
      }
      None
  }

  lemma ReportedUrl(h: string, i: nat, b: nat, j: nat)
    requires i < |h| && h[i] == '<' && b == i + 1 + SchemeLength(h[i + 1..])
    requires SchemeLength(h[i + 1..]) > 0 && b < j < |h| && h[j] == '>'
    requires IsHttpUrl(h[i + 1..j])
    requires forall k :: b <= k < j ==> h[k] != '>'
    ensures forall j' :: Span(BracketedUrl, h, i, j') <==> j' == j
  {
    forall k | i < k < b ensures h[k] != '>' {
      assert h[k] == h[i + 1..][k - i - 1];
    }
    assert Span(BracketedUrl, h, i, j);
    forall j' | Span(BracketedUrl, h, i, j') ensures j' == j {
      SpanEndUnique(BracketedUrl, h, i, j, j');
    }
  }

  /** No bracketed URL starts at `i` when the first `>` after its scheme is at `e <= b`
      or (for `e == |h|`) missing altogether. */
  lemma NoUrlBefore(h: string, i: nat, b: nat, e: nat)
    requires i < |h| && h[i] == '<' && b == i + 1 + SchemeLength(h[i + 1..])
    requires SchemeLength(h[i + 1..]) > 0 && b <= e <= |h|
    requires e < |h| ==> e == b && h[e] == '>'
    requires forall k :: b <= k < e ==> h[k] != '>'
    ensures forall j :: !Span(BracketedUrl, h, i, j)
  {
    forall j | Span(BracketedUrl, h, i, j) ensures false {
      BracketedSchemeInside(h, i, j);
    }
  }

  function BareUrlEnd(h: string, i: nat): (r: Option<nat>)
    requires i <= |h|
    ensures forall j :: Span(BareUrl, h, i, j) <==> r == Some(j)
  {
    var n := SchemeLength(h[i..]);
    if n == 0 then
      assert forall j :: !Span(BareUrl, h, i, j) by {
        forall j | Span(BareUrl, h, i, j) ensures false {
          BareSchemeInside(h, i, j);
        }
      }
      None
    else
      var e := RunEnd(h, i + n);
      if e > i + n then
        SchemeOfPrefix(h[i..], e - i);
        assert h[i..][..e - i] == h[i..e];
        assert forall k :: i <= k < i + n ==> !IsSpace(h[k]) by {
          forall k | i <= k < i + n ensures !IsSpace(h[k]) {
            assert h[k] == h[i..][k - i];
          }
        }
        assert Span(BareUrl, h, i, e);
        assert forall j :: Span(BareUrl, h, i, j) ==> j == e by {
          forall j | Span(BareUrl, h, i, j) ensures j == e {
            SpanEndUnique(BareUrl, h, i, e, j);
          }
        }
        Some(e)
      else
        assert forall j :: !Span(BareUrl, h, i, j) by {
          forall j | Span(BareUrl, h, i, j) ensures false {
            BareSchemeInside(h, i, j);
          }
        }
        None
  }

  function MailtoEnd(h: string, i: nat): (r: Option<nat>)
    requires i <= |h|
    ensures forall j :: Span(BracketedMailto, h, i, j) <==> r == Some(j)
  {
    if HasPrefix(h[i..], "<mailto:") then
      match IndexOf(h, '>', i + 8)
      case Some(j) =>
        if j > i + 8 then
          assert Span(BracketedMailto, h, i, j);
          assert forall j' :: Span(BracketedMailto, h, i, j') ==> j' == j by {
            forall j' | Span(BracketedMailto, h, i, j') ensures j' == j {
              SpanEndUnique(BracketedMailto, h, i, j, j');
            }
          }
          Some(j)
        else
          None
      case None =>
        None
    else
      None
  }

  /** Whether pattern `p` matches at exactly `i`, and where the match ends. */
  function MatchEnd(p: Pattern, h: string, i: nat): (r: Option<nat>)
    requires i <= |h|
    ensures forall j :: Span(p, h, i, j) <==> r == Some(j)
  {
    match p
    case BracketedUrl => BracketedUrlEnd(h, i)
    case BareUrl => BareUrlEnd(h, i)
    case BracketedMailto => MailtoEnd(h, i)
  }

  lemma SpanBounds(p: Pattern, h: string)
    ensures forall i, j :: Span(p, h, i, j) ==> 0 <= i < j <= |h|
  {
  }

  /** `re.search(p, h[from:])`: the leftmost match starting at or after `from`. */
  function Search(p: Pattern, h: string, from: nat): (r: Option<(nat, nat)>)
    requires from <= |h|
    ensures r.Some? ==> from <= r.value.0 && Span(p, h, r.value.0, r.value.1)
    ensures r.Some? ==> forall k, m :: from <= k < r.value.0 ==> !Span(p, h, k, m)
    ensures r.None? ==> forall k, m :: from <= k ==> !Span(p, h, k, m)
    decreases |h| - from
  {
    match MatchEnd(p, h, from)
    case Some(j) => Some((from, j))
    case None =>
      if from == |h| then
        SpanBounds(p, h);
        None
      else
        Search(p, h, from + 1)
  }

  /** Search finds exactly the leftmost match. */
  lemma SearchFindsLeftmost(p: Pattern, h: string, i: int, j: int)
    requires Leftmost(p, h, i, j)
    ensures Search(p, h, 0) == Some((i, j))
  {
    var r := Search(p, h, 0);
    assert r.Some?;
    assert r.value.0 == i;
    SpanEndUnique(p, h, i, j, r.value.1);
  }

  /** What the capture group of a match looks like, per pattern. */
  predicate GroupShape(p: Pattern, g: string) {
    match p
    case BracketedUrl => IsHttpUrl(g) && '>' !in g
    case BareUrl => IsHttpUrl(g) && forall k :: 0 <= k < |g| ==> !IsSpace(g[k])
    case BracketedMailto => g != [] && '>' !in g
  }

  /** `m.group(1)` of the match `re.search` returns, if any. */
  function FirstGroup(p: Pattern, h: string): (g: Option<string>)
    ensures g.Some? <==> Occurs(p, h)
    ensures g.Some? ==> GroupShape(p, g.value)
  {
    match Search(p, h, 0)
    case Some((i, j)) =>
      assert Span(p, h, i, j);
      Some(Group(p, h, i, j))
    case None =>
      None
  }

  /** `parse_unsubscribe`: a bracketed web link wins over a bare one, and the
      mailto address is taken from the bracketed form only. */
  function ParseUnsubscribe(header: string): (r: Links)
    ensures r.http.Some? <==> Occurs(BracketedUrl, header) || Occurs(BareUrl, header)
    ensures r.mailto.Some? <==> Occurs(BracketedMailto, header)
    ensures r.http.Some? ==> IsHttpUrl(r.http.value)
    ensures Occurs(BracketedUrl, header) ==> r.http.Some? && '>' !in r.http.value
    ensures !Occurs(BracketedUrl, header) && r.http.Some? ==>
              forall k :: 0 <= k < |r.http.value| ==> !IsSpace(r.http.value[k])
    ensures r.mailto.Some? ==> r.mailto.value != [] && '>' !in r.mailto.value
  {
    var bracketed := FirstGroup(BracketedUrl, header);
    var http := if bracketed.Some? then bracketed else FirstGroup(BareUrl, header);
    Links(http, FirstGroup(BracketedMailto, header))
  }

  /** The leftmost `<http(s)://...>` decides the web link, whatever bare URLs occur. */
  lemma BracketedUrlWins(header: string, i: int, j: int)
    requires Leftmost(BracketedUrl, header, i, j)
    ensures ParseUnsubscribe(header).http == Some(header[i + 1..j])
  {
    SearchFindsLeftmost(BracketedUrl, header, i, j);
  }

  /** Without a bracketed URL, the leftmost bare `http(s)://` run is the web link. */
  lemma BareUrlFallback(header: string, i: int, j: int)
    requires !Occurs(BracketedUrl, header)
    requires Leftmost(BareUrl, header, i, j)
    ensures ParseUnsubscribe(header).http == Some(header[i..j])
  {
    SearchFindsLeftmost(BareUrl, header, i, j);
  }

  /** The mailto address is the inside of the leftmost `<mailto:...>`, without the prefix. */
  lemma MailtoLeftmost(header: string, i: int, j: int)
    requires Leftmost(BracketedMailto, header, i, j)
    ensures ParseUnsubscribe(header).mailto == Some(header[i + 8..j])
  {
    SearchFindsLeftmost(BracketedMailto, header, i, j);
  }
}
