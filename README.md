# Gmail forwarder (`getCodeCLI.py`) in Dafny

A verified model of the logic inside the mail-forwarding script
`getCodeCLI.py`. The script finds the latest message in a Gmail inbox that
matches an optional filter and forwards its plain-text body to a fixed list
of recipients. It can do this once or every N seconds. The network parts
(IMAP over SSL, SMTP with STARTTLS) are given to the model as the replies
the servers make. The model keeps what the script decides:

- **Criteria** (`criteria.dfy`): `main` builds one IMAP SEARCH key from
  `--subject`, `--from` and `--unseen` (section 6.4.4 of RFC 3501). The keys
  come in the order `SUBJECT "<text>"`, `FROM "<text>"`, `UNSEEN`. One key
  is sent bare. Several keys are joined by spaces inside one pair of
  parentheses. No key means no criteria, and the search then uses `ALL`.
  The partner is `Parse`/`Meaning`, which reads a criteria string back into
  a filter. `RoundTrip` proves that the built criteria says exactly what the
  filter says. The text goes between the quotes verbatim, with no escaping,
  so this holds only for text without a double quote.
  `QuoteInTextCollides` shows two different filters that give the same
  criteria when the text holds a quote.
- **Message selection** (`locator.dfy`): `check_email` as a function of the
  criteria and the session's replies. It returns the outcome and the SEARCH
  and FETCH commands issued. The identifiers are `data[0].split()`
  (`Text.Words`), and the one fetched is the last of them.
- **Body extraction** (`mime.dfy`): the message is a tree of MIME parts
  (section 5.1 of RFC 2046). The `for part in msg.walk()` loop is the method
  `ExtractBody`, proved against `BodyText`, which takes the first
  `text/plain` part without a `Content-Disposition` in pre-order. A
  separate recursive tree search, `FindBody`, is proved to find the same
  part.
- **Forwarding** (`forwarder.dfy`): the envelope has From = the account,
  To = the recipients joined by `", "`, Subject = `"FWD: "` + the original
  subject, and Body = the extracted text.
- **Driver** (`agent.dfy`): `on_check`, the mode choice (`--test-login`,
  then a truthy `--watch N`, else one check) and the watch loop, which
  records a trace of check and sleep events.

Behaviour of the script a reader may not expect:

- Any non-empty `Content-Disposition` header excludes a part, `inline`
  included (`Mime.DispositionExcludes`).
- `bytes.decode` can raise even with `errors='replace'`: `LookupError` for
  an unknown charset name, `UnicodeError` for a codec that refuses the
  `replace` handler (`idna`, `undefined`). Extraction then fails, and
  `forward_email` reports an error and sends nothing
  (`Forwarder.ExtractFailed`).
- `on_check` tests `if msg:`. A `Message` is true only when it has at least
  one header field. So a fetched message with no header fields is not
  forwarded (`Agent.HeaderlessNotForwarded`).
- A message without a `Subject` field is forwarded with the subject
  `FWD: None` (`Forwarder.MissingSubject`).
- `--watch 0` is false, so the run is a single check. A negative `--watch`
  runs one check and then ends with the uncaught `ValueError` from
  `time.sleep` (`Agent.NegativeWatchCrashes`). An interval above
  9223372036 seconds does the same with `OverflowError`, because
  `time.sleep` counts in signed 64-bit nanoseconds
  (`Agent.OverlongWatchCrashes`).
- The IMAP client writes command arguments as ASCII. Criteria holding any
  other character raise `UnicodeEncodeError` before SEARCH is sent, and the
  check fails with nothing issued (`Locator.NonAsciiNotSent`,
  `Agent.NonAsciiSubjectNeverSearched`).
- A subject folded over several lines keeps its line break in
  `msg['Subject']`. `EmailMessage` refuses a header value that spans
  several lines with `ValueError`, so such a message is never forwarded
  (`Forwarder.FoldedSubjectNotSent`). A single line ending at the very end
  is accepted (`Forwarder.TrailingNewlineSent`).
- The "not found" and "protocol error" outcomes stay distinct in
  `Locator.CheckResult`. `check_email` itself returns `None` for all of them
  (`Locator.Returned`).

## Model

| member | source | states |
|---|---|---|
| `Criteria.Build` | getCodeCLI.py:143-157 | the criteria is absent exactly when no subject text, no sender text and no `--unseen` is given (empty text counts as absent); otherwise it is a non-empty string that starts with `(` exactly when two or more keys are present |
| `Criteria.RoundTrip` | getCodeCLI.py:143-157 | for quote-free text, reading the built criteria back (`ALL` for none) gives the filter with empty texts dropped: each key once, in the order subject, sender, unseen, bare when alone and parenthesised when several |
| `Criteria.Injective` | getCodeCLI.py:146-149 | for quote-free text, two filters that build the same criteria select on the same subject, sender and unseen flag |
| `Criteria.QuoteInTextCollides` | getCodeCLI.py:146-149 | text is inserted between quotes verbatim: a subject ending in `" FROM "` plus more text builds the same criteria as a shorter subject with a sender |
| `Criteria.ExactNoneOrOne` | getCodeCLI.py:143-155 | no filter (or only empty texts) gives no criteria; one filter gives exactly `SUBJECT "t"`, `FROM "u"` or `UNSEEN` with no parentheses |
| `Criteria.ExactTwo` | getCodeCLI.py:146-157 | two filters give `(K1 K2)` with the keys in the fixed order and one space between them |
| `Criteria.ExactThree` | getCodeCLI.py:146-157 | all three filters give `(SUBJECT "t" FROM "u" UNSEEN)` |
| `Criteria.PairOutput` | getCodeCLI.py:156-157 | two rendered keys are sent as `(` + first + space + second + `)` |
| `Criteria.ParseKeysOfJoin` | getCodeCLI.py:157 | rendered keys joined by single spaces parse back to the same key list |
| `Criteria.UpToQuoteOf` | getCodeCLI.py:147 | quote-free text between the quotes of a clause is recovered exactly, with the rest of the string after it |
| `Criteria.ParseKeyRender` | getCodeCLI.py:147-151 | each rendered clause parses back to its key, whatever follows it |
| `Criteria.FilterOfKeys` | getCodeCLI.py:146-151 | the keys of a filter, read in order, give back the filter with empty texts dropped |
| `Text.Token` | getCodeCLI.py:57 | the first identifier is the longest whitespace-free prefix of the SEARCH data |
| `Text.Words` | getCodeCLI.py:57 | `data[0].split()` yields only non-empty, whitespace-free identifiers |
| `Text.WordsSep` | getCodeCLI.py:57 | any whitespace character separates: splitting `a`, a whitespace character and `b` gives the words of `a` followed by the words of `b` (with `WordsCons`, this fixes the result of `split()` on every input) |
| `Text.WordsCons` | getCodeCLI.py:57 | a non-empty, whitespace-free word followed by nothing or by whitespace is the first word, and the rest is split on its own |
| `Text.Join` | getCodeCLI.py:105 | `sep.join(parts)` is `""` for no parts; otherwise it starts with the first part and its length is the parts' total plus one separator between each two |
| `Text.LineCount` | getCodeCLI.py:106 | `len(s.splitlines())` is 0 exactly for the empty string |
| `Text.LineEnd` | getCodeCLI.py:106 | the first line runs up to the first line-break character, which `splitlines` recognises among `\n`, `\r`, `\v`, `\f`, `\x1c`-`\x1e`, `\x85`, U+2028 and U+2029 |
| `Text.LineCountBreak` | getCodeCLI.py:106 | a line break ends the first line and the text after it is counted on its own |
| `Text.LineCountCrlf` | getCodeCLI.py:106 | `\r\n` is one line break |
| `Text.OneLine` | getCodeCLI.py:106 | a break-free line with at most one line ending after it is one line |
| `Text.WordsOfJoin` | getCodeCLI.py:57 | identifiers sent space-separated are split back into the same list, in order |
| `Text.SplitAt` | getCodeCLI.py:14 | `FORWARD_TO.split(',')` yields at least one piece and no piece contains a comma |
| `Text.SplitJoin` | getCodeCLI.py:14 | comma-free addresses written comma-separated split back into the same list |
| `Forwarder.Recipients` | getCodeCLI.py:14 | the recipient list has at least one entry (an unset setting gives one empty entry) and no entry contains a comma |
| `Forwarder.SettingRoundTrip` | getCodeCLI.py:14 | a `FORWARD_TO` value `a,b,...` of comma-free addresses yields exactly that recipient list |
| `Forwarder.ToFromSetting` | getCodeCLI.py:105 | the `To` field is the `FORWARD_TO` value with every comma replaced by `", "` (an unset value gives an empty `To`) |
| `Text.JoinSplit` | getCodeCLI.py:105 | joining the pieces of `s.split(c)` with a separator equals replacing each `c` in `s` by that separator |
| `Locator.SearchKey` | getCodeCLI.py:46-50 | the key sent is never empty: the criteria when it is a non-empty string, `ALL` otherwise |
| `Locator.CheckEmail` | getCodeCLI.py:38-78 | no command runs when connect, login or select fails, or when the key holds a non-ASCII character; otherwise SEARCH goes first with the criteria or `ALL`; FETCH `(RFC822)` is issued exactly when the search is `OK` and non-empty, and always for the last identifier; a message is returned exactly when the FETCH is also `OK`; each failure (non-`OK` search, empty result, non-`OK` fetch, exception) is its own outcome, and the exceptions are exactly the failed session, the unwritable key and a raising SEARCH or FETCH |
| `Locator.Returned` | getCodeCLI.py:53-78 | `check_email` returns a message exactly when the lookup found one, and it is that message; every other outcome returns `None` |
| `Locator.NonAsciiNotSent` | getCodeCLI.py:47 | criteria with a character outside ASCII fail the check before any command is issued |
| `Locator.FetchesLastOfThree` | getCodeCLI.py:57-69 | a search answering `3 7 9` fetches `9` |
| `Locator.EmptySearchFetchesNothing` | getCodeCLI.py:57-63 | an empty search answer is "not found" and issues no FETCH |
| `Locator.NoCriteriaSearchesAll` | getCodeCLI.py:46-50 | with no criteria the search key is `ALL` |
| `Mime.GetHeader` | getCodeCLI.py:106 | `msg[name]` is absent exactly when no field has that name ignoring case; otherwise it is the value of the first such field |
| `Mime.TruthyMessage` | getCodeCLI.py:123 | a message with no header fields is false and answers every field lookup with `None`; a true one has at least its first field |
| `Mime.Walk` | getCodeCLI.py:93 | `walk()` yields the part itself first |
| `Mime.FirstBody` | getCodeCLI.py:93-97 | the position found holds a `text/plain` part without a disposition, and no earlier part in walk order is one; none is found only when no part is one |
| `Mime.BodyText` | getCodeCLI.py:91-100 | a single-part message gives its own decoded payload; a multipart message gives `""` when no part in walk order is a body part, else the decoding of the first one |
| `Mime.ExtractBody` | getCodeCLI.py:91-100 | the loop returns the decoded first body part in walk order, or `""` when there is none; a single-part message yields its own decoded payload; the charset defaults to `utf-8` |
| `Mime.FindBodyIsFirstInWalk` | getCodeCLI.py:93-97 | a direct depth-first search of the part tree finds the same part as the first match in `walk()` order |
| `Mime.FindBodyInIsFirstInWalkAll` | getCodeCLI.py:93-97 | the same, for a list of sibling parts |
| `Mime.FirstBodyPartAppend` | getCodeCLI.py:93-97 | the first match in two walks in a row is the first match of the first walk, else that of the second |
| `Mime.FirstBodyIsFirst` | getCodeCLI.py:93-97 | a body part with no body part before it is the one selected |
| `Mime.BodyTextByTreeSearch` | getCodeCLI.py:91-97 | the body of a multipart message is the decoded part the tree search finds, or `""` |
| `Mime.HtmlThenPlain` | getCodeCLI.py:93-97 | an HTML part ahead of a plain-text part is passed over, and the plain text is decoded as `utf-8` |
| `Mime.DispositionExcludes` | getCodeCLI.py:94 | a `text/plain` part with any non-empty `Content-Disposition` is not taken, so the body is `""` |
| `Forwarder.SubjectOf` | getCodeCLI.py:106 | the subject text is the value of the first field named `Subject` in any case, or `None` when there is none |
| `Forwarder.Compose` | getCodeCLI.py:103-107 | From is the account; To is the recipients joined by `", "`; Subject is `FWD: ` followed by the original subject; the body is the extracted text |
| `Forwarder.ForwardOutcome` | getCodeCLI.py:87-118 | extraction fails exactly when decoding raises (an unknown charset name, or a codec that refuses `errors='replace'`); otherwise the envelope is composed from the extracted body; composing fails exactly when From, To or Subject would span more than one line; the message is sent exactly when extraction and composing worked and SMTP went through |
| `Forwarder.ForwardEmail` | getCodeCLI.py:87-118 | the method extracts, composes and submits as `ForwardOutcome` describes |
| `Forwarder.TwoRecipients` | getCodeCLI.py:105-106 | recipients `a@x.com`, `b@x.com` and subject `Hello` give `To: a@x.com, b@x.com` and `Subject: FWD: Hello` |
| `Forwarder.MissingSubject` | getCodeCLI.py:106 | a message without a `Subject` field gets the subject `FWD: None` |
| `Forwarder.FoldedSubjectNotSent` | getCodeCLI.py:106 | a subject `Long\r\n subject`, folded over two lines, stops the forward while composing, whatever SMTP would do |
| `Forwarder.TrailingNewlineSent` | getCodeCLI.py:104-106 | a subject ending in a single `\n`, with single-line From and To, is still forwarded |
| `Forwarder.SingleLineEnvelope` | getCodeCLI.py:104-106 | break-free From and To and a subject line with at most one line ending make an envelope `EmailMessage` accepts |
| `Agent.CycleOf` | getCodeCLI.py:121-128 | a cycle's lookup is `check_email`'s; a forward is attempted exactly when a message came back with at least one header field, and the attempt is `forward_email` on that message |
| `Agent.OnCheck` | getCodeCLI.py:121-128 | the method performs the cycle `CycleOf` describes |
| `Agent.HeaderlessNotForwarded` | getCodeCLI.py:123 | a fetched message without header fields is false in Python and is not forwarded |
| `Agent.ModeOf` | getCodeCLI.py:159-182 | `--test-login` is chosen whenever given; the watch mode exactly when `--watch N` is given with N non-zero and no `--test-login`; otherwise one check |
| `Agent.WatchEvents` | getCodeCLI.py:170-175 | the loop's trace starts with a check; it holds two events per cycle when `time.sleep` accepts the interval, and only that first check when it does not |
| `Agent.WatchExit` | getCodeCLI.py:170-175 | the loop ends with an uncaught error exactly when it ran a cycle and `time.sleep` rejected the interval (negative, or above 9223372036 seconds); otherwise Ctrl+C stops it cleanly |
| `Agent.WatchEventsStep` | getCodeCLI.py:171-173 | each turn of the loop is one check followed by one sleep of the interval |
| `Agent.WatchLoop` | getCodeCLI.py:170-175 | the loop's trace is check, sleep, check, sleep, ... over the cycles given, and it exits cleanly; when `time.sleep` rejects the interval it stops with an uncaught error after the first check |
| `Agent.WatchShape` | getCodeCLI.py:171-173 | event `2k` of the trace is the check of cycle `k`, and event `2k+1` is a sleep of the interval |
| `Agent.CountsAppend` | getCodeCLI.py:171-173 | checks and forward attempts of two traces in a row add up |
| `Agent.WatchForwardsFoundOnly` | getCodeCLI.py:171-173 | with an interval `time.sleep` accepts, the trace has two events per cycle, event `2k` is the check of cycle `k` and event `2k+1` a sleep; there is one check per cycle, no cycle's failure stops the loop, and forwards are attempted exactly in the cycles that found a message |
| `Agent.AlternatingCount` | getCodeCLI.py:123-126 | of N cycles that alternate "not found" and "found", N/2 (rounded down) find a message |
| `Agent.AlternatingWatch` | getCodeCLI.py:171-173 | N watch cycles that alternate "not found" and "found" make N/2 (rounded down) forward attempts |
| `Agent.RunEvents` | getCodeCLI.py:143-182 | with `--test-login` only login events occur; otherwise the first event is a check with the built criteria; a one-shot run is that one check; a watch run is the watch loop's trace and exit over the first cycle and the later ones; the run crashes exactly when connecting or logging in for the login test raised something other than `IMAP4.error`, or the watch interval is rejected by `time.sleep` |
| `Agent.WatchRun` | getCodeCLI.py:161-175 | a whole `--watch` run with an interval `time.sleep` accepts has two events per cycle, one check per cycle, a forward attempt exactly in the cycles that found a message, and a clean exit |
| `Agent.Run` | getCodeCLI.py:143-182 | `main` builds the criteria and runs the chosen mode with the trace and exit described by `RunEvents` |
| `Agent.TestLoginFirst` | getCodeCLI.py:159-160 | with `--test-login` the only event is the login test: no mailbox check is made, whatever `--watch` says |
| `Agent.WatchZeroChecksOnce` | getCodeCLI.py:161 | `--watch 0` is false and the run is a single check that exits cleanly |
| `Agent.NegativeWatchCrashes` | getCodeCLI.py:173 | a negative `--watch` runs one check and then ends with the uncaught `ValueError` from `time.sleep` |
| `Agent.OverlongWatchCrashes` | getCodeCLI.py:173 | a `--watch` of 9223372037 seconds runs one check and then ends with the uncaught `OverflowError` from `time.sleep` |
| `Agent.NonAsciiSubjectNeverSearched` | getCodeCLI.py:146-157 | a `--subject` with a non-ASCII character, whatever other filters are given, makes a cycle that issues no command and forwards nothing |
| `Criteria.SubjectClauseFirst` | getCodeCLI.py:146-157 | a given subject is always the first clause of the criteria, right after the opening parenthesis when there are several |
| `Agent.InvoiceForwarded` | getCodeCLI.py:103-107 | a message with subject `Invoice #123` and one plain-text part is forwarded with subject `FWD: Invoice #123` and its decoded text as body |
| `Agent.OneShotInvoice` | getCodeCLI.py:176-182 | a one-shot run with `--subject Invoice` searches `SUBJECT "Invoice"`, fetches the one match, and forwards its text with subject `FWD: Invoice #123` to the joined recipients |

## Left out

- IMAP and SMTP transport are left out: connecting, TLS, login, `select('INBOX')`, logout and the SMTP dialogue (`EHLO`, `STARTTLS`, `AUTH`, sending) are network I/O. A session is reduced to whether it opened, the SEARCH and FETCH replies (or an exception), and whether SMTP went through. Logging out on every path is not traced.
- `test_login` is reduced to its outcome: accepted, rejected (`IMAP4.error`, caught), or unreachable (any other exception from connecting or logging in, such as a password outside ASCII, which nothing catches). `m.debug = 4` is console output and is not modelled.
- Parsing the fetched bytes (`email.message_from_bytes`), the header parameters (`get_content_type`, `get_content_charset`) and Content-Transfer-Encoding decoding are library code. Each part carries their results. A multipart part never has content type `text/plain`, so it has no fields of its own.
- Character decoding with `errors='replace'` is the `Codec` parameter. Its replacement characters are the library's business; it fails, with `None`, exactly when the decoding raises (an unknown charset name, or a codec such as `idna` or `undefined` that refuses the `replace` handler).
- Reading `.env` and the environment, and argument parsing, are configuration plumbing. Their results are the `Config` and `Args` values. `Config` keeps the `FORWARD_TO` text, and the recipient list is always `FORWARD_TO.split(',')` (`Forwarder.Recipients`).
- Serialising the envelope (`set_content`, header folding, line endings) is not modelled.
- Forwarder.SubjectOf: a raw header holding bytes outside ASCII comes back from the parser as a `Header` object, whose text form is not modelled; the subject is taken as the field's text.
- `print` output and timing are left out: the sleep is an event with its length, and no time passes.
- Agent.WatchLoop: Ctrl+C is taken to arrive only during a sleep, after the last given cycle. An interrupt in the middle of a check, which would also end the loop, is not modelled.
- Mime.Lower: header names are compared after ASCII lower-casing. Python lower-cases all of Unicode.
- Exception types are not modelled. Every exception caught in `check_email` or `forward_email` is one error outcome of the cycle.
