# Gmail reminder backend: decision core in Dafny

This project models the parts of the reminder backend that make decisions.
Every foreign call becomes an input:

- **Daily notifier** (`runDailyJob`). It lists the connected users. It skips anyone already notified on the current calendar day. It POSTs `{userEmail}` to the reminder webhook for everyone else. When the POST succeeds it stamps `last_summary_sent_at`. A failed POST is logged and the loop goes on.
- **Send-email handler** (`POST /send-email`). It validates the three fields and looks up the recipient's row. It composes a plain-text message, turns it into base64url text without padding, and maps the mail API's verdict to an HTTP status.
- **Token store** (`users` table). The OAuth callback writes it with `INSERT OR REPLACE`, keyed by e-mail. The notifier writes it with a one-column `UPDATE`.

Modules (one per concern, all pure functions over immutable values):

| file | module | models |
|---|---|---|
| `store.dfy` | `Store` | the `users` table as `map<string, UserRecord>`, the callback's upsert, the notifier's update |
| `notifier.dfy` | `Notifier` | `runDailyJob` as a recursive fold over the listed users, driven by one webhook outcome per user |
| `base64.dfy` | `Base64` | the base64 encoding of section 4 of RFC 4648 and the URL- and filename-safe alphabet of section 5, with or without padding (section 3.2), plus a strict decoder |
| `raw_message.dfy` | `RawMessage` | the runtime's base64 text rewritten by the two global replaces and the trailing-`=` strip |
| `utf8.dfy` | `Utf8` | the string-to-octets conversion of `Buffer.from` (UTF-8) |
| `mime.dfy` | `Mime` | the composed message text and its split at the first blank line |
| `send_email.dfy` | `SendEmail` | the handler, with the lookup error and the mail API's verdict as inputs |
| `octets.dfy` | `Octets` | the octet type `byte` |
| `wrappers.dfy` | `Wrappers` | `Option` |

Inputs that stand in for the environment:

- The notifier's clock is `start`, the `Date.now()` from which "today" is computed once. Each webhook outcome also carries the `Date.now()` read after its call.
- The calendar is `dayOf: int -> int`, standing for `toDateString` in the process's time zone. Day-based lemmas assume only that it is monotone.
- The webhook, the listing query and the mail API are given as their outcomes.

Facts about the code, and how the model treats them:

- The OAuth callback handler is registered on `/auth/google` (index.js:39), the same path as the login redirect. The registration is left out with the routing (see "## Left out"); the handler's body is `Store.Connect`.
- The callback does not check for a missing `code`. `Store.Connect` has no branch for it: that case reaches the token exchange, which fails, so it is `ExchangeFailed` and answers 500.
- The webhook URL is one hard-coded address (cron.js:24). Every POST has the same target, so the model records only the payload and no per-user address.
- "Today" is the process's local date (cron.js:10). `dayOf` stands for the process's local day.

## Model

| member | source | states |
|---|---|---|
| Store.Upsert | index.js:62-74 | insert-or-replace keyed by e-mail: the key set gains the address, every other row is unchanged, the three supplied token fields are stored, and `scope`, `token_type` and `last_summary_sent_at` are NULL; rows stay keyed by their own address |
| Store.UpsertReplacesWholeRow | index.js:62-74 | nothing of the replaced row survives: stores that agree off the address agree after the upsert |
| Store.UpsertTwice | index.js:62-74 | signing in twice leaves exactly the second sign-in's row |
| Store.Connect | index.js:39-82 | a failed token exchange or identity lookup answers 500 and writes nothing; a successful one answers 200, adds the address, writes exactly the row the upsert writes (the access token, refresh token and expiry date from the exchange; `scope`, `token_type` and `last_summary_sent_at` NULL) and leaves every other row alone |
| Store.Get | index.js:94-97 | the lookup by `to` finds a row exactly when the address is a key, and the row it returns is the one stored under that address |
| Store.MarkNotified | cron.js:29-32 | the update changes only `last_summary_sent_at` of the matching row, and nothing when no row matches; the key set is unchanged |
| Notifier.Run | cron.js:12-38 | users are visited in listing order, once each; a user is skipped iff the stored timestamp is truthy and on "today"; a NULL or 0 timestamp is never skipped; a non-skipped user is notified iff the webhook delivered, stamped with the time read after the call; the key set is unchanged |
| Notifier.DailyJob | cron.js:7-10 | a failed listing makes no webhook call and leaves the store as it was; otherwise one visit per listed row |
| Notifier.WebhookCalls | cron.js:23-26 | every non-skipped visit contributes a `{userEmail}` payload, and every payload comes from a non-skipped visit |
| Notifier.WebhookCallsAppend | cron.js:12-26 | the POSTs go out in visit order, which is listing order: the calls for visits `a + b` are the calls for `a` followed by those for `b` |
| Notifier.RunLeavesUnlistedRows | cron.js:12-32 | a row the listing does not contain is never written |
| Notifier.RunEffectOnListedRow | cron.js:13-37 | for a listed user: skipped leaves the row unchanged; a failed webhook leaves it unchanged; a delivered one sets only `last_summary_sent_at`, to the time read after the call; no other user's outcome interferes |
| Notifier.RunOnlyStamps | cron.js:28-32 | a run changes no column but `last_summary_sent_at`, and every value it writes is at least the run's start when the clock does not go back |
| Notifier.CallCount | cron.js:23-26 | with distinct addresses, each non-skipped visit's payload occurs exactly once among the calls and a skipped one's not at all |
| Notifier.WebhookCalledOncePerUser | cron.js:12-26 | each listed user gets exactly one webhook call with their address, or none when already sent today |
| Notifier.AllSentAfterDeliveredRun | cron.js:10-32 | after a run in which every call is delivered, every row counts as sent on that run's day |
| Notifier.SameDayRunIsIdempotent | cron.js:10-32 | when every call of a run succeeds, a later run on the same calendar day makes zero webhook calls |
| Notifier.ReauthenticationReenablesNotice | index.js:62-74 | re-authenticating clears the sent mark: the next run calls the webhook for that user whatever the day |
| Base64.Digit | index.js:123 | a digit is never the pad character, and the RFC 4648 section 5 alphabet yields only `A-Z a-z 0-9 - _` |
| Base64.Value | index.js:123-125 | a character that has a value is the digit of that value (the inverse of `Digit`) |
| Base64.EncodeLength | index.js:123-126 | n octets encode to 4 * ceil(n/3) characters padded and ceil(4n/3) unpadded |
| Base64.EncodeAlphabet | index.js:123-126 | every encoded character is an alphabet character or a pad; an unpadded encoding has no pad |
| Base64.DecodeEncode | index.js:123 | decoding the padded encoding returns the octets |
| Base64.EncodeDecode | index.js:123 | whatever the strict decoder accepts is exactly the encoding of its result |
| RawMessage.ReplaceAll | index.js:124-125 | a global one-character replace keeps the length and swaps exactly the matching positions |
| RawMessage.TrimTrailing | index.js:126 | stripping `=+$` leaves a prefix, removes only pad characters, and leaves no pad at the end |
| RawMessage.EncodeSwap | index.js:123-125 | the RFC 4648 section 5 encoding is the section 4 encoding with `+` and `/` swapped for `-` and `_` |
| RawMessage.PaddedIsUnpaddedPlusPad | index.js:123-126 | a padded encoding is the unpadded one followed by the pad count of the input length |
| RawMessage.TrimPadded | index.js:126 | stripping trailing pads off a pad-free text followed by pads gives that text back |
| RawMessage.RawIsUnpaddedBase64Url | index.js:117-126 | the handler's replace-and-strip chain computes exactly the unpadded base64url encoding |
| RawMessage.RawAlphabetAndLength | index.js:117-126 | `raw` contains only `A-Z a-z 0-9 - _` and has length ceil(4n/3), the padded length less the stripped pads |
| RawMessage.DecodeRawInvertsRaw | index.js:117-126 | restoring the padding and decoding `raw` with the RFC 4648 section 5 alphabet yields exactly the message octets |
| RawMessage.RawInvertsDecodeRaw | index.js:117-126 | whatever decodes is the `raw` of its result, so each message has one `raw` form |
| Utf8.EncodeChar | index.js:117-121 | the shortest form: one octet below U+0080, two below U+0800, three below U+10000, otherwise four; a single octet equals the character, otherwise a lead octet and continuation octets |
| Utf8.DecodeEncodeChar | index.js:117-121 | every character is recovered from its octets |
| Utf8.Encode | index.js:117-121 | a string of n characters becomes between n and 4n octets |
| Utf8.EncodeAscii | index.js:117-121 | an ASCII message is encoded octet for character |
| Mime.SplitAtBlankLine | index.js:118-121 | a split message reassembles as header, blank line, body |
| Mime.SplitFindsFirstBlankLine | index.js:118-121 | the split is at the first blank line, and fails only when there is none |
| Mime.SplitCompose | index.js:118-121 | when neither `to` nor `subject` holds a carriage return, the composed text's first blank line follows the To, Subject and Content-Type lines, so the body is recovered exactly |
| Mime.SubjectBlankLineEndsHeader | index.js:118-121 | the header fields are not escaped: for any subject `s1` + blank line + `s2` with no carriage return in `to` or `s1`, the header ends after `s1`, and `s2` followed by the Content-Type line starts the body |
| SendEmail.StatusFor | index.js:90-136 | 200 iff fields present, user found and send accepted; 400 iff a field is missing or the user is not found; 500 iff only the send failed |
| SendEmail.Handle | index.js:87-139 | a missing or empty field gives 400 "Missing fields" with no lookup and no send; a failed or empty lookup gives 400 "User not connected" with no send; otherwise one send of the composed message under the row's credentials, then 200 with `{success: true}` or 500 "Email failed" |
| SendEmail.SubmittedRawDecodesToMessage | index.js:117-131 | the submitted `raw` is the unpadded base64url text of the message octets: URL-safe alphabet, ceil(4n/3) long, and decoding it gives the octets back |

## Left out

- Express routing and the server (index.js:8-11, 144-146). The callback's registration on the login path `/auth/google` (index.js:39), which makes it unreachable, is not modelled; its body is `Store.Connect`. Handlers are modelled as functions of their inputs.
- The Google OAuth client, the token exchange and the userinfo call (index.js:17-31, 43-58). These are foreign libraries. `Store.Connect` takes their result as an input.
- The Gmail API call (index.js:100-115, 128-131). It is a foreign library. `SendEmail.Handle` takes its verdict as a boolean and records the request it would make.
- The axios webhook POST (cron.js:24). It is network I/O. Each outcome is an input, one per listed user.
- sqlite I/O and callback asynchrony. The `UPDATE` in cron.js:29 is not awaited and its errors are ignored. It is modelled as an immediate map update. The callback's insert is treated the same way.
- `CREATE TABLE` (db.js:5-17). It is setup only. The column list is the record type.
- The node-cron schedule (index.js:151-155). It fires every minute, and runs can overlap. Scheduling and concurrency are outside a sequential model.
- Time zones and `Date` parsing. `dayOf` stays abstract. Invalid dates (`toDateString` gives "Invalid Date" beyond 8.64e15 ms) are not modelled, because the only values written to `last_summary_sent_at`, the column passed to `toDateString`, are `Date.now()` readings (cron.js:31).
- `Store.Connect`: an undefined `data.email` is bound as NULL, which sqlite accepts in a TEXT primary key. It is not modelled, because addresses are strings.
- `SendEmail.Handle`: non-string truthy request fields (numbers, objects) are not modelled, because fields are optional strings. Their string conversion by the template literal is left out with them.
- `Utf8.Encode`: lone UTF-16 surrogates, which the runtime replaces by U+FFFD, are not modelled, because characters are Unicode scalar values.
- Logging, response text beyond the status and error tag.
