/** The aggregation loop of `scan_inbox` (app.py:90, 99-126) with the IMAP
    session taken out: its input is the list of fetched messages in mailbox-id
    order, each reduced to its decoded From value and its List-Unsubscribe header. */
module Scan {
  import opened Options
  import opened Strings
  import opened Unsubscribe
  import opened Sender

  /** One fetched message: `decode_field(msg.get("From"))` and `msg.get("List-Unsubscribe")`. */
  datatype Message = Message(sender: string, unsubscribe: Option<string>)

  datatype LinkType = WebLink | Email

  /** One result row: the dict with keys "Source", "Type" and "Action". */
  datatype Row = Row(source: string, kind: LinkType, action: string)

  /** The "Type" text shown for a row. */
  function Label(t: LinkType): string {
    match t
    case WebLink => "Web Link"
    case Email => "Email"
  }

  /** Python truthiness of an optional string: neither None nor empty. */
  predicate Truthy(o: Option<string>) {
    o.Some? && o.value != []
  }

  /** The test `if http_link or mailto_addr`. */
  predicate HasLink(links: Links) {
    Truthy(links.http) || Truthy(links.mailto)
  }

  /** The row built from a sender key and the links found for it. */
  function MakeRow(name: string, links: Links): Row
    requires HasLink(links)
  {
    if Truthy(links.http) then Row(name, WebLink, links.http.value)
    else Row(name, Email, "mailto:" + links.mailto.value)
  }

  /** The sender key of a message. */
  function Name(m: Message): string {
    CleanName(m.sender)
  }

  /** The message has a List-Unsubscribe header from which a link was extracted. */
  predicate Eligible(m: Message) {
    Truthy(m.unsubscribe) && HasLink(ParseUnsubscribe(m.unsubscribe.value))
  }

  lemma EligibleIff(m: Message)
    ensures Eligible(m) <==>
      && Truthy(m.unsubscribe)
      && (|| Occurs(BracketedUrl, m.unsubscribe.value)
          || Occurs(BareUrl, m.unsubscribe.value)
          || Occurs(BracketedMailto, m.unsubscribe.value))
  {
  }

  /** The row a message contributes when it is the first of its sender. */
  function RowOf(m: Message): (row: Row)
    requires Eligible(m)
    ensures row.source == CleanName(m.sender)
    ensures row.kind == WebLink <==> ParseUnsubscribe(m.unsubscribe.value).http.Some?
    ensures row.kind == WebLink ==> row.action == ParseUnsubscribe(m.unsubscribe.value).http.value
    ensures row.kind == Email ==>
              row.action == "mailto:" + ParseUnsubscribe(m.unsubscribe.value).mailto.value
    ensures row.kind == WebLink ==> IsHttpUrl(row.action)
    ensures row.kind == Email ==>
              HasPrefix(row.action, "mailto:") && |row.action| > 7 && '>' !in row.action
    ensures || HasPrefix(row.action, "http://")
            || HasPrefix(row.action, "https://")
            || HasPrefix(row.action, "mailto:")
  {
    var links := ParseUnsubscribe(m.unsubscribe.value);
    MailtoAction(if links.mailto.Some? then links.mailto.value else []);
    MakeRow(Name(m), links)
  }

  /** `f"mailto:{addr}"` keeps the prefix and adds no `>` of its own. */
  lemma MailtoAction(addr: string)
    ensures HasPrefix("mailto:" + addr, "mailto:") && |"mailto:" + addr| == 7 + |addr|
    ensures '>' in "mailto:" + addr <==> '>' in addr
  {
  }

  /** A header with a bracketed web link gives a web-link row holding the inside
      of the leftmost `<http(s)://...>`. */
  lemma RowOfBracketedUrl(m: Message, i: int, j: int)
    requires Truthy(m.unsubscribe) && Leftmost(BracketedUrl, m.unsubscribe.value, i, j)
    ensures Eligible(m)
    ensures RowOf(m) == Row(Name(m), WebLink, m.unsubscribe.value[i + 1..j])
  {
    BracketedUrlWins(m.unsubscribe.value, i, j);
  }

  /** With no bracketed web link, the leftmost bare `http(s)://` run is the action. */
  lemma RowOfBareUrl(m: Message, i: int, j: int)
    requires Truthy(m.unsubscribe) && !Occurs(BracketedUrl, m.unsubscribe.value)
    requires Leftmost(BareUrl, m.unsubscribe.value, i, j)
    ensures Eligible(m)
    ensures RowOf(m) == Row(Name(m), WebLink, m.unsubscribe.value[i..j])
  {
    BareUrlFallback(m.unsubscribe.value, i, j);
  }

  /** With no web link at all, the row is an email row for the leftmost
      `<mailto:...>`, with `mailto:` put back in front of the address. */
  lemma RowOfMailto(m: Message, i: int, j: int)
    requires Truthy(m.unsubscribe)
    requires !Occurs(BracketedUrl, m.unsubscribe.value) && !Occurs(BareUrl, m.unsubscribe.value)
    requires Leftmost(BracketedMailto, m.unsubscribe.value, i, j)
    ensures Eligible(m)
    ensures RowOf(m) == Row(Name(m), Email, "mailto:" + m.unsubscribe.value[i + 8..j])
  {
    MailtoLeftmost(m.unsubscribe.value, i, j);
  }

  /** The "Type" text is "Web Link" exactly when the header holds a web link,
      bracketed or bare, and "Email" otherwise. */
  lemma LabelOfRow(m: Message)
    requires Eligible(m)
    ensures Label(RowOf(m).kind) == "Web Link" <==>
              Occurs(BracketedUrl, m.unsubscribe.value) || Occurs(BareUrl, m.unsubscribe.value)
    ensures Label(RowOf(m).kind) == "Email" <==>
              !Occurs(BracketedUrl, m.unsubscribe.value) && !Occurs(BareUrl, m.unsubscribe.value)
  {
  }

  /** The row a message would contribute, or None when it carries no link. */
  function Candidate(m: Message): (c: Option<Row>)
    ensures c.Some? <==> Eligible(m)
    ensures c.Some? ==> c.value == RowOf(m) && c.value.source == Name(m)
  {
    if Eligible(m) then Some(RowOf(m)) else None
  }

  function Candidates(msgs: seq<Message>): (cs: seq<Option<Row>>)
    ensures |cs| == |msgs|
    ensures forall k :: 0 <= k < |msgs| ==> cs[k] == Candidate(msgs[k])
  {
    seq(|msgs|, k requires 0 <= k < |msgs| => Candidate(msgs[k]))
  }

  lemma CandidatesSnoc(msgs: seq<Message>, m: Message)
    ensures Candidates(msgs + [m]) == Candidates(msgs) + [Candidate(m)]
  {
  }

  lemma CandidatesPrefix(msgs: seq<Message>, n: int)
    requires 0 <= n <= |msgs|
    ensures Candidates(msgs[..n]) == Candidates(msgs)[..n]
  {
  }

  /** The sender keys of the candidates that exist: the set `seen_senders` grows towards. */
  function Keys(cs: seq<Option<Row>>): set<string> {
    set k | 0 <= k < |cs| && cs[k].Some? :: cs[k].value.source
  }

  lemma KeysSnoc(cs: seq<Option<Row>>, c: Option<Row>)
    ensures Keys(cs + [c]) == Keys(cs) + (if c.Some? then {c.value.source} else {})
  {
    var s := cs + [c];
    assert forall k :: 0 <= k < |cs| ==> s[k] == cs[k];
    assert s[|cs|] == c;
  }

  /** The distinct values of the "Source" column. */
  function SourceSet(rows: seq<Row>): set<string> {
    set a | 0 <= a < |rows| :: rows[a].source
  }

  /** Candidate `k` exists and no earlier candidate has its sender key. */
  predicate First(cs: seq<Option<Row>>, k: int) {
    0 <= k < |cs| && cs[k].Some? && cs[k].value.source !in Keys(cs[..k])
  }

  /** Reference definition of the deduplication: the first candidate of every
      sender key, in candidate order. It needs no `seen` set. */
  function Dedup(cs: seq<Option<Row>>): (rows: seq<Row>)
    ensures SourceSet(rows) == Keys(cs)
    ensures forall a, b :: 0 <= a < b < |rows| ==> rows[a].source != rows[b].source
  {
    if cs == [] then []
    else
      var init := cs[..|cs| - 1];
      var c := cs[|cs| - 1];
      assert cs == init + [c];
      KeysSnoc(init, c);
      var rest := Dedup(init);
      var rows := rest + (if First(cs, |cs| - 1) then [c.value] else []);
      assert SourceSet(rows) == SourceSet(rest) + (if First(cs, |cs| - 1) then {c.value.source} else {}) by {
        assert forall a :: 0 <= a < |rest| ==> rows[a] == rest[a];
        if First(cs, |cs| - 1) {
          assert rows[|rest|] == c.value;
          assert |rows| == |rest| + 1;
        } else {
          assert rows == rest;
        }
      }
      rows
  }

  lemma DedupSnoc(cs: seq<Option<Row>>, c: Option<Row>)
    ensures Dedup(cs + [c]) == Dedup(cs) + (if First(cs + [c], |cs|) then [c.value] else [])
  {
    assert (cs + [c])[..|cs|] == cs;
  }

  lemma FirstPrefix(cs: seq<Option<Row>>, n: int, k: int)
    requires 0 <= k < n <= |cs|
    ensures First(cs[..n], k) <==> First(cs, k)
  {
    assert cs[..n][..k] == cs[..k];
  }

  /** Processing more candidates only appends rows. */
  lemma {:induction false} DedupPrefix(cs: seq<Option<Row>>, n: int)
    requires 0 <= n <= |cs|
    ensures |Dedup(cs[..n])| <= |Dedup(cs)|
    ensures Dedup(cs[..n]) == Dedup(cs)[..|Dedup(cs[..n])|]
    decreases |cs| - n
  {
    if n < |cs| {
      DedupPrefix(cs, n + 1);
      assert cs[..n + 1] == cs[..n] + [cs[n]];
      DedupSnoc(cs[..n], cs[n]);
    } else {
      assert cs[..n] == cs;
    }
  }

  /** Every row is the first candidate of its sender key. */
  lemma {:induction false} DedupSound(cs: seq<Option<Row>>, a: int)
    requires 0 <= a < |Dedup(cs)|
    ensures exists k :: First(cs, k) && Dedup(cs)[a] == cs[k].value
  {
    var n := |cs| - 1;
    var init := cs[..n];
    DedupSnoc(init, cs[n]);
    assert cs == init + [cs[n]];
    if a < |Dedup(init)| {
      DedupSound(init, a);
      var k :| First(init, k) && Dedup(init)[a] == init[k].value;
      FirstPrefix(cs, n, k);
      assert First(cs, k) && Dedup(cs)[a] == cs[k].value;
    } else {
      assert First(cs, n) && Dedup(cs)[a] == cs[n].value;
    }
  }

  /** The first candidate of every sender key has its row, at the position
      right after the rows of the candidates before it. */
  lemma DedupComplete(cs: seq<Option<Row>>, k: int)
    requires First(cs, k)
    ensures |Dedup(cs[..k])| < |Dedup(cs)|
    ensures Dedup(cs)[|Dedup(cs[..k])|] == cs[k].value
  {
    DedupPrefix(cs, k + 1);
    assert cs[..k + 1] == cs[..k] + [cs[k]];
    FirstPrefix(cs, k + 1, k);
    DedupSnoc(cs[..k], cs[k]);
  }

  /** Rows keep candidate order. */
  lemma DedupOrder(cs: seq<Option<Row>>, k1: int, k2: int)
    requires First(cs, k1) && First(cs, k2) && k1 < k2
    ensures |Dedup(cs[..k1])| < |Dedup(cs[..k2])|
  {
    DedupComplete(cs, k1);
    DedupPrefix(cs, k2);
    FirstPrefix(cs, k2, k1);
    assert cs[..k2][..k1] == cs[..k1];
    DedupComplete(cs[..k2], k1);
  }

  /** The sender keys of the messages that carry a link. */
  function EligibleNames(msgs: seq<Message>): set<string> {
    set k | 0 <= k < |msgs| && Eligible(msgs[k]) :: Name(msgs[k])
  }

  lemma KeysOfCandidates(msgs: seq<Message>)
    ensures Keys(Candidates(msgs)) == EligibleNames(msgs)
  {
    var cs := Candidates(msgs);
    forall x | x in Keys(cs) ensures x in EligibleNames(msgs) {
      var k :| 0 <= k < |cs| && cs[k].Some? && cs[k].value.source == x;
      assert cs[k] == Candidate(msgs[k]);
    }
    forall x | x in EligibleNames(msgs) ensures x in Keys(cs) {
      var k :| 0 <= k < |msgs| && Eligible(msgs[k]) && Name(msgs[k]) == x;
      assert cs[k] == Candidate(msgs[k]);
    }
  }

  /** The scan result for messages already in newest-first order: one row per
      sender that has a link, and no sender twice. */
  function Expected(msgs: seq<Message>): (rows: seq<Row>)
    ensures SourceSet(rows) == EligibleNames(msgs)
    ensures forall a, b :: 0 <= a < b < |rows| ==> rows[a].source != rows[b].source
  {
    KeysOfCandidates(msgs);
    Dedup(Candidates(msgs))
  }

  /** Message `k` is the newest message of its sender that carries a link. */
  predicate FirstOfSender(msgs: seq<Message>, k: int) {
    && 0 <= k < |msgs| && Eligible(msgs[k])
    && forall j :: 0 <= j < k && Eligible(msgs[j]) ==> Name(msgs[j]) != Name(msgs[k])
  }

  lemma FirstOfSenderIff(msgs: seq<Message>, k: int)
    requires 0 <= k < |msgs|
    ensures FirstOfSender(msgs, k) <==> First(Candidates(msgs), k)
  {
    var cs := Candidates(msgs);
    assert forall j :: 0 <= j < k ==> cs[..k][j] == cs[j];
  }

  /** Every row is the row of the newest message of its sender that carries a link. */
  lemma ExpectedSound(msgs: seq<Message>, a: nat)
    ensures a < |Expected(msgs)| ==>
              exists k :: FirstOfSender(msgs, k) && Expected(msgs)[a] == RowOf(msgs[k])
  {
    if a < |Expected(msgs)| {
      var cs := Candidates(msgs);
      DedupSound(cs, a);
      var k :| First(cs, k) && Dedup(cs)[a] == cs[k].value;
      FirstOfSenderIff(msgs, k);
      assert cs[k] == Candidate(msgs[k]);
    }
  }

  /** The newest message of a sender that carries a link has its row in the
      result. Any other message with a link has a newer message of the same
      sender that is reported instead; its own row may still appear when the
      two rows happen to be equal. */
  lemma ExpectedRowOf(msgs: seq<Message>, k: int)
    requires 0 <= k < |msgs| && Eligible(msgs[k])
    ensures FirstOfSender(msgs, k) ==> RowOf(msgs[k]) in Expected(msgs)
    ensures !FirstOfSender(msgs, k) ==>
              exists j :: 0 <= j < k && FirstOfSender(msgs, j) && Name(msgs[j]) == Name(msgs[k])
  {
    FirstOfSenderIff(msgs, k);
    var cs := Candidates(msgs);
    if FirstOfSender(msgs, k) {
      DedupComplete(cs, k);
    } else {
      var j :| 0 <= j < k && Eligible(msgs[j]) && Name(msgs[j]) == Name(msgs[k]);
      NewestOfSender(msgs, j);
    }
  }

  /** Among the messages of one sender that carry a link, one at or before
      `j` is the newest. */
  lemma {:induction false} NewestOfSender(msgs: seq<Message>, j: int)
    requires 0 <= j < |msgs| && Eligible(msgs[j])
    ensures exists i :: 0 <= i <= j && FirstOfSender(msgs, i) && Name(msgs[i]) == Name(msgs[j])
    decreases j
  {
    if !FirstOfSender(msgs, j) {
      var i :| 0 <= i < j && Eligible(msgs[i]) && Name(msgs[i]) == Name(msgs[j]);
      NewestOfSender(msgs, i);
    }
  }

  /** A newer message of the same sender whose header gave no link does not
      suppress the row of an older one that does carry a link. */
  lemma LinklessNewerDoesNotHide(msgs: seq<Message>, k: int)
    requires 0 <= k < |msgs| && Eligible(msgs[k])
    requires forall j :: 0 <= j < k && Name(msgs[j]) == Name(msgs[k]) ==> !Eligible(msgs[j])
    ensures RowOf(msgs[k]) in Expected(msgs)
  {
    ExpectedRowOf(msgs, k);
  }

  /** Rows keep message order: the row of a newer message comes first. */
  lemma ExpectedNewestFirst(msgs: seq<Message>, k1: int, k2: int)
    requires 0 <= k1 < k2 < |msgs|
    ensures FirstOfSender(msgs, k1) && FirstOfSender(msgs, k2) ==>
              exists a, b :: 0 <= a < b < |Expected(msgs)|
                && Expected(msgs)[a] == RowOf(msgs[k1])
                && Expected(msgs)[b] == RowOf(msgs[k2])
  {
    if FirstOfSender(msgs, k1) && FirstOfSender(msgs, k2) {
      var cs := Candidates(msgs);
      FirstOfSenderIff(msgs, k1);
      FirstOfSenderIff(msgs, k2);
      DedupComplete(cs, k1);
      DedupComplete(cs, k2);
      DedupOrder(cs, k1, k2);
      var a, b := |Dedup(cs[..k1])|, |Dedup(cs[..k2])|;
      assert Expected(msgs)[a] == RowOf(msgs[k1]);
      assert Expected(msgs)[b] == RowOf(msgs[k2]);
    }
  }

  /** Python's `ids[-limit:]`. A zero limit is `ids[0:]`, the whole list. */
  function Latest<T>(ids: seq<T>, limit: nat): (r: seq<T>)
    ensures limit == 0 ==> r == ids
    ensures limit > 0 ==> |r| == (if limit < |ids| then limit else |ids|)
    ensures r == ids[|ids| - |r|..]
  {
    if limit == 0 || limit >= |ids| then ids else ids[|ids| - limit..]
  }

  /** Python's `reversed(s)`. */
  function Reverse<T>(s: seq<T>): (r: seq<T>)
    ensures |r| == |s|
    ensures forall k :: 0 <= k < |s| ==> r[k] == s[|s| - 1 - k]
  {
    if s == [] then [] else [s[|s| - 1]] + Reverse(s[..|s| - 1])
  }

  /** The messages the scan looks at, newest first. */
  function NewestFirst(msgs: seq<Message>, limit: nat): (r: seq<Message>)
    ensures |r| <= |msgs|
    ensures limit == 0 ==> |r| == |msgs|
    ensures limit > 0 ==> |r| == (if limit < |msgs| then limit else |msgs|)
    ensures forall k :: 0 <= k < |r| ==> r[k] == msgs[|msgs| - 1 - k]
  {
    Reverse(Latest(msgs, limit))
  }

  /** The rows `scan_inbox` returns for the mailbox `msgs` (in id order). */
  function ScanResult(msgs: seq<Message>, limit: nat): seq<Row> {
    Expected(NewestFirst(msgs, limit))
  }

  /** Only the newest `limit` messages are examined: older ones never matter. */
  lemma ScanIgnoresOlder(older: seq<Message>, msgs: seq<Message>, limit: nat)
    requires 0 < limit <= |msgs|
    ensures ScanResult(older + msgs, limit) == ScanResult(msgs, limit)
  {
    LatestIgnoresOlder(older, msgs, limit);
    assert NewestFirst(older + msgs, limit) == NewestFirst(msgs, limit);
  }

  lemma LatestIgnoresOlder<T>(older: seq<T>, ids: seq<T>, limit: nat)
    requires 0 < limit <= |ids|
    ensures Latest(older + ids, limit) == Latest(ids, limit)
  {
    var all := older + ids;
    assert all[|all| - limit..] == ids[|ids| - limit..];
  }

  /** What one more message does to the rows and to the set of seen senders. */
  lemma ScanStep(prefix: seq<Message>, m: Message)
    ensures Keys(Candidates(prefix + [m])) ==
            Keys(Candidates(prefix)) + (if Eligible(m) then {Name(m)} else {})
    ensures Dedup(Candidates(prefix + [m])) ==
            Dedup(Candidates(prefix))
            + (if Eligible(m) && Name(m) !in Keys(Candidates(prefix)) then [RowOf(m)] else [])
  {
    CandidatesSnoc(prefix, m);
    KeysSnoc(Candidates(prefix), Candidate(m));
    DedupSnoc(Candidates(prefix), Candidate(m));
  }

  /** Every row of the scan result has a web or mailto action, and no sender repeats. */
  lemma ScanResultShape(msgs: seq<Message>, limit: nat)
    ensures forall a, b :: 0 <= a < b < |ScanResult(msgs, limit)| ==>
              ScanResult(msgs, limit)[a].source != ScanResult(msgs, limit)[b].source
    ensures forall a :: 0 <= a < |ScanResult(msgs, limit)| ==>
              || HasPrefix(ScanResult(msgs, limit)[a].action, "http://")
              || HasPrefix(ScanResult(msgs, limit)[a].action, "https://")
              || HasPrefix(ScanResult(msgs, limit)[a].action, "mailto:")
  {
    var newest := NewestFirst(msgs, limit);
    forall a | 0 <= a < |Expected(newest)|
      ensures || HasPrefix(Expected(newest)[a].action, "http://")
              || HasPrefix(Expected(newest)[a].action, "https://")
              || HasPrefix(Expected(newest)[a].action, "mailto:")
    {
      ExpectedSound(newest, a);
    }
  }

  /** The body of the loop of `scan_inbox` for one message `m`, given the rows
      and the seen senders of the messages before it. */
  method ScanMessage(ghost prefix: seq<Message>, m: Message, rows: seq<Row>, seen: set<string>)
    returns (rows': seq<Row>, seen': set<string>)
    requires rows == Dedup(Candidates(prefix)) && seen == Keys(Candidates(prefix))
    ensures rows' == Dedup(Candidates(prefix + [m]))
    ensures seen' == Keys(Candidates(prefix + [m]))
  {
    ScanStep(prefix, m);
    rows', seen' := rows, seen;
    if Truthy(m.unsubscribe) {
      var name := CleanName(m.sender);
      if name in seen {
        return;
      }
      var links := ParseUnsubscribe(m.unsubscribe.value);
      if Truthy(links.http) || Truthy(links.mailto) {
        seen' := seen + {name};
        rows' := rows + [MakeRow(name, links)];
      }
    }
  }

  /** The aggregation loop of `scan_inbox`, statement by statement. */
  method ScanInbox(msgs: seq<Message>, limit: nat) returns (rows: seq<Row>)
    ensures rows == ScanResult(msgs, limit)
    ensures forall a, b :: 0 <= a < b < |rows| ==> rows[a].source != rows[b].source
    ensures forall a :: 0 <= a < |rows| ==>
              || HasPrefix(rows[a].action, "http://")
              || HasPrefix(rows[a].action, "https://")
              || HasPrefix(rows[a].action, "mailto:")
  {
    var latest := Latest(msgs, limit);
    var newest := Reverse(latest);
    rows := [];
    var seen: set<string> := {};
    for i := 0 to |newest|
      invariant rows == Dedup(Candidates(newest[..i]))
      invariant seen == Keys(Candidates(newest[..i]))
    {
      assert newest[..i + 1] == newest[..i] + [newest[i]];
      rows, seen := ScanMessage(newest[..i], newest[i], rows, seen);
    }
    assert newest[..|newest|] == newest;
    ScanResultShape(msgs, limit);
  }
}
