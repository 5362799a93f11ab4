# Email manager: unsubscribe-link scan, in Dafny

A model of the pure core of a small Streamlit app, `app.py`. The app scans an
IMAP inbox for newsletters that carry a `List-Unsubscribe` header (RFC 2369,
section 3.2). It shows one row per sender, with a web or mailto unsubscribe
link. The model covers the four pieces of logic that do not depend on the UI
or the network:

- `parse_unsubscribe`, in `unsubscribe.dfy`. It models three `re.search` calls:
  - `<(https?://[^>]+)>`: the bracketed web link;
  - `(https?://\S+)`: the bare web link, used only when no bracketed link matches;
  - `<mailto:([^>]+)>`: the mailto address.

  Each pattern is defined twice. `Span` says declaratively what a match at a
  position is. `MatchEnd` and `Search` compute the leftmost match. Lemmas prove
  that the two agree.
- The sender key, in `sender.dfy`. This is `sender_name.split("<")[0].strip().replace('"', '')`.
  It uses `str.split`, `str.strip` and `str.replace` from `strings.dfy`.
  Whitespace means exactly the characters of Python's `str.isspace`.
- The aggregation loop of `scan_inbox`, in `scan.dfy`:
  - It keeps the newest `limit` messages and walks them newest first.
  - It skips a message whose sender key was already seen.
  - It emits at most one row per key.
  - A key counts as seen only after a link was found for it.

  `Dedup` is a reference definition without a `seen` set. `ScanInbox` follows
  the source loop statement by statement and is proved equal to it.
- The default IMAP server proposed for an address, in `server.dfy`.

The IMAP session is replaced by its result: a list of `Message` values in
mailbox-id order. Each message holds the decoded From value and the optional
`List-Unsubscribe` header. Python truthiness is modelled explicitly (`Truthy`),
so a header that is present but empty is skipped, as `if unsub_header:` does.
`limit` follows Python slicing: `ids[-limit:]` with `limit == 0` is the whole
list.

Three facts about `app.py` shape the model:

- Rows are keyed by the cleaned display name, not by the email address
  (app.py:110-118). Two senders with the same display name share one row.
- The fetch requests only the `FROM` and `LIST-UNSUBSCRIBE` header fields
  (app.py:102). A row therefore holds only `Source`, `Type` and `Action`, and no date.
- `app.py` has no step that deletes, moves or flags messages. Headers are fetched
  with `BODY.PEEK` (app.py:102), so messages are not even marked as read.

## Model

| member | source | states |
|---|---|---|
| Strings.Contains | app.py:153-157 | Python's `t in s` on strings holds exactly when `t` occurs at some index of `s` |
| Strings.IndexOf | app.py:69 | the position of the first `>` at or after a start: every character before it is not `>`; None means none follows |
| Strings.RunEnd | app.py:71 | `\S+` is greedy: the run is all non-whitespace and ends at whitespace or at the end of the text |
| Strings.BeforeFirst | app.py:110 | `split("<")[0]` is the prefix that has no `<` and is followed by `<` or by the end of the text |
| Strings.Trim | app.py:110 | `strip()` cuts only whitespace from both ends, keeps a contiguous slice, and leaves neither end on whitespace |
| Strings.TrimUnique | app.py:110 | any slice with those properties is what `strip()` returns, so the description is complete |
| Strings.RemoveAll | app.py:110 | `replace('"', '')` leaves no `"` and keeps every other character with its multiplicity |
| Strings.RemoveAllAppend | app.py:110 | removing a character distributes over concatenation, so the order of the remaining characters is kept |
| Unsubscribe.BracketedUrlEnd | app.py:69 | `<(https?://[^>]+)>` matches at a position exactly when the declarative `Span` holds, and then it ends at the first `>` |
| Unsubscribe.BareUrlEnd | app.py:71 | `(https?://\S+)` matches at a position exactly when `Span` holds: scheme, at least one more character, and a maximal non-whitespace run |
| Unsubscribe.MailtoEnd | app.py:76 | `<mailto:([^>]+)>` matches at a position exactly when `Span` holds |
| Unsubscribe.Search | app.py:69-76 | `re.search` returns a match with no match further left, and None only when the pattern matches nowhere |
| Unsubscribe.SearchFindsLeftmost | app.py:69-76 | the search result is exactly the leftmost match, with its end determined |
| Unsubscribe.FirstGroup | app.py:72-78 | `group(1)` exists exactly when the pattern occurs. A bracketed link has no `>`, a bare link has no whitespace, and a mailto address is non-empty with no `>` |
| Unsubscribe.ParseUnsubscribe | app.py:64-80 | a web link is returned exactly when a bracketed or bare URL occurs, and a mailto address exactly when `<mailto:...>` occurs. Every link starts with `http://` or `https://` and has more after it |
| Unsubscribe.BracketedUrlWins | app.py:69-73 | the web link is the inside of the leftmost `<http(s)://...>`, whatever bare URLs also occur |
| Unsubscribe.BareUrlFallback | app.py:70-73 | with no bracketed URL, the web link is the leftmost maximal bare `http(s)://` run |
| Unsubscribe.MailtoLeftmost | app.py:76-78 | the address is the inside of the leftmost `<mailto:...>`, without the brackets or the `mailto:` prefix |
| Sender.CleanName | app.py:110 | the sender key has no `"` and no `<`, and uses only characters of the From value |
| Sender.CleanNameIgnoresAddress | app.py:110 | From values with the same text before `<` give the same key, so deduplication is by display name, not by address |
| Sender.CleanNameOfQuotedName | app.py:110 | `"Name" <address>` gives `Name` |
| Sender.CleanNameOfCleanName | app.py:110 | a name without `<` or `"` and without surrounding whitespace is its own key |
| Scan.RowOf | app.py:115-126 | `Type` is web link exactly when a web link was extracted. `Action` is that web link, otherwise `mailto:` followed by the extracted address. A row's `Action` starts with `http://`, `https://` or `mailto:`. A web-link row holds an HTTP URL. An email row holds a non-empty `mailto:` target |
| Scan.RowOfBracketedUrl | app.py:107-126 | a non-empty header with a bracketed web link gives a web-link row whose `Action` is the inside of the leftmost `<http(s)://...>` |
| Scan.RowOfBareUrl | app.py:107-126 | with no bracketed web link, the `Action` is the leftmost maximal bare `http(s)://` run |
| Scan.RowOfMailto | app.py:107-126 | with no web link at all, the row is an email row whose `Action` is `mailto:` plus the inside of the leftmost `<mailto:...>` |
| Scan.LabelOfRow | app.py:120 | the `Type` text is "Web Link" exactly when the header holds a bracketed or bare web link, and "Email" otherwise |
| Scan.EligibleIff | app.py:107-117 | a message yields a row candidate exactly when its header is non-empty and one of the three patterns occurs in it |
| Scan.Dedup | app.py:112-122 | the row sources are exactly the keys of the candidates, each appearing once |
| Scan.DedupPrefix | app.py:99-126 | processing more messages only appends rows |
| Scan.DedupSound | app.py:112-122 | every row is the first candidate of its key |
| Scan.DedupComplete | app.py:112-122 | the first candidate of every key has its row, right after the rows of earlier candidates |
| Scan.DedupOrder | app.py:99-126 | rows of earlier candidates come before rows of later ones |
| Scan.Expected | app.py:107-126 | one row per sender that has a link, and no two rows with the same `Source` |
| Scan.ExpectedSound | app.py:107-126 | every row comes from the newest message of its sender that carries a link |
| Scan.ExpectedRowOf | app.py:112-122 | a message with a link that is the newest such message of its sender has its row emitted. Otherwise a newer message of the same sender with a link is the one reported for that sender |
| Scan.LinklessNewerDoesNotHide | app.py:112-118 | a newer message from the same sender whose header gave no link does not mark the sender seen, so the older message's row is still emitted |
| Scan.ExpectedNewestFirst | app.py:99-126 | of two reported messages, the newer one's row comes first |
| Scan.Latest | app.py:90 | `ids[-limit:]` keeps the last `min(limit, n)` ids for `limit > 0` and all ids for `limit == 0` |
| Scan.Reverse | app.py:99 | `reversed` puts element `k` at position `n - 1 - k` |
| Scan.NewestFirst | app.py:90-99 | for `limit > 0` the scan visits the newest `min(limit, n)` messages, and for `limit == 0` all of them, the newest first |
| Scan.ScanIgnoresOlder | app.py:90 | messages older than the newest `limit` never change the result |
| Scan.ScanMessage | app.py:105-126 | one pass of the loop body keeps the loop in step with the reference `Dedup`. Given the rows and `seen` set of the earlier messages, it returns those of the earlier messages plus this one |
| Scan.ScanResultShape | app.py:112-126 | the scan result has no sender twice, and every `Action` starts with `http://`, `https://` or `mailto:` |
| Scan.ScanInbox | app.py:90-126 | the loop with its `seen` set returns the reference result. Its rows have distinct sources, and every `Action` starts with `http://`, `https://` or `mailto:` |
| ServerDefaults.ClassifyIsFirstMatch | app.py:154-157 | the `if`/`elif` chain picks the server of the first keyword in the order gmail, qq, 163, outlook that occurs, or "" |
| ServerDefaults.DefaultServer | app.py:152-157 | "" unless the address contains `@`. Otherwise the server of the first matching keyword, or "" when none matches |
| ServerDefaults.DefaultServerReadsLocalPart | app.py:153-154 | as written, `gmail` in the part before `@` selects `imap.gmail.com` whatever the domain |
| ServerDefaults.LocalPartCounterexample | app.py:152-157 | `gmailfan@163.com` gets `imap.gmail.com` as written, and `imap.163.com` when only the domain is tested |
| ServerDefaults.DomainDefaultServer | app.py:152-157 | the same first-match classification, applied to the text after the last `@` |
| ServerDefaults.DomainDefaultServerIgnoresLocalPart | app.py:152-157 | with the domain-only test, the part before `@` no longer affects the server |

## Left out

- `decode_field` (app.py:53-62) is not modelled. It wraps `email.header.decode_header` and charset decoding. Its output is the `sender` field of `Message`. When From is missing it returns "Unknown", which is just another input string.
- The IMAP session is not modelled: connect, login, select, search, fetch, logout and `email.message_from_bytes` (app.py:84-89, 102-105, 129). These are network I/O and library parsing. The fetched headers are the input list. If `msg.get` returns a `Header` object rather than a string, that case is not represented.
- The exception handler (app.py:134-136) is not modelled. On any error it shows a message and returns `[]`.
- The Streamlit UI is not modelled: page setup, CSS, sidebar widgets, progress bar, captions, session state and the result table (app.py:9-50, 95-100, 127, 130-131, 139-195). This includes the `Action` column configuration (app.py:183-187), which sets `validate` to `^https://.*|^mailto:.*`. A plain `http://` action does not match that pattern. The rows themselves are unaffected.
- The `Type` column is the `LinkType` datatype. `Label` gives its text, "Web Link" or "Email", and `Scan.LabelOfRow` relates that text to the header.
- `re` is modelled only for the three fixed patterns above. It is not a general regex engine.
- Sender.CleanName: its contract states only what holds for every input. The exact result is fixed by the definition and by the lemmas about `BeforeFirst`, `Trim` and `RemoveAll`. Quotes are removed after trimming, so `" Foo" <a@b>` gives ` Foo` with a leading space. The model keeps this behaviour.

## Findings

| source | as written | input that shows it | evidently intended | confidence | as-written member | corrected member |
|---|---|---|---|---|---|---|
| app.py:153-157 | the provider keywords are searched in the whole address, local part included | `gmailfan@163.com` gets `imap.gmail.com` | test only the domain after `@`, which gives `imap.163.com` | medium, not executed | ServerDefaults.LocalPartCounterexample | ServerDefaults.DomainDefaultServerIgnoresLocalPart |
