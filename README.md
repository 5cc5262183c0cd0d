# Smart Airdrop Telegram bots — a verified model of the two webhook handlers

The repository runs two Telegram bots as serverless webhook handlers over a
Firestore `users` collection:

- the **alert bot** (`api/services/send_alert.js`):
  - relays texts from the Mini App;
  - answers `ans_…` answer buttons and the `check_and_share` invitation button;
  - welcomes `/start` with an optional referral id;
  - blocks everyone but the administrator while `maintenance_mode` is on;
  - gives the administrator `/maintenance on|off`, `/stats`, `/check_user`,
    `/export`, `/broadcast` and `/mreply`. `/mreply` sends a message with inline
    buttons written as `[label](url)` and `[label]{tag}` to a comma-separated
    list of ids, and reports how many sends succeeded.
- the **support bot** (`api/services/support_bot.js`):
  - on `/start <id>`, reports that user's record to the administrator;
  - forwards every other user's message to the administrator, preceded by what
    the database knows about the sender;
  - lets the administrator answer with `/reply <id> <text>`, or by replying to a
    forwarded message or a report that shows `ID: <digits>`.

Each handler is modelled as a pure function of:

- the request;
- what the handler reads: ADMIN_ID, the `settings/bot_config` document, a
  snapshot of the users collection, and the outcome of each send whose result
  the code inspects.

The handler returns the **ordered list of Bot API calls** it makes (`sendMessage`,
`answerCallbackQuery`, `setChatMenuButton`, `forwardMessage`, `sendDocument`),
the value it merges into `maintenance_mode` (if any), and the response text.

The loops of the source are `method`s, each proved equal to the function the
handler uses:

- the `/mreply` button extraction and its send-and-count loop;
- the `/export` accumulation;
- the `/broadcast` loop.

Modules:

- `JsStrings` (js_strings.dfy) models the JavaScript string operations the handlers use:
  `||` on strings, `indexOf`, `split` with a one-character separator, `replace` of a first
  occurrence and of every occurrence, `trim`, `Number`, `String`.
- `Store` (store.dfy) models the users collection: a sequence of documents, each with an id
  and a record whose `telegram_id` may be a number or a string. It covers the
  three-step existence lookup, the counts behind `/stats` and the rank behind
  `/check_user`.
- `Telegram` (telegram.dfy) defines buttons, keyboards and Bot API calls as values.
- `Markup` (markup.dfy) covers the `/mreply` regular expressions, written out as scanners
  with the leftmost, lazy, single-line `.*?` semantics. It also covers the
  removal of matched markup, the keyboard, the `ans_` prefix, the HTML escape
  of names and `{name}` filling.
- `AlertTypes` (alert_types.dfy) defines the alert bot's inputs, its message templates (the
  values interpolated into each fixed text) and `sendToAdmin`.
- `AlertAdmin` (alert_admin.dfy) models the administrator's commands.
- `AlertBot` (alert_bot.dfy) models the alert bot handler: dispatch, the gate, the buttons and
  `/start`.
- `SupportBot` (support_bot.dfy) models the support bot handler.

## Model

| member | source | states |
|---|---|---|
| JsStrings.IndexFrom | api/services/support_bot.js:89 | the result is -1 or a position at or after `from` where the pattern occurs, and no earlier position at or after `from` holds it |
| JsStrings.StartsWith | api/services/send_alert.js:111 | no contract of its own; `startsWith`, a prefix test; IndexOfPrefix, PrefixesDiffer, CallbackDataHasPrefix and StartIsNoCommand state what it decides |
| JsStrings.IndexOf | api/services/support_bot.js:89 | `indexOf` returns the first occurrence, and -1 exactly when the pattern occurs nowhere |
| JsStrings.IndexOfPrefix | api/services/send_alert.js:112 | a text that starts with the pattern finds it at 0 |
| JsStrings.IndexOfChar | api/services/send_alert.js:340 | the first position of the character, -1 exactly when absent |
| JsStrings.Split | api/services/send_alert.js:367 | `split` gives at least one part and no part contains the separator |
| JsStrings.JoinSplit | api/services/send_alert.js:367 | joining the parts of a split with the separator gives back the text |
| JsStrings.SplitCons | api/services/send_alert.js:467 | a separator-free head, the separator and a rest split into the head followed by the parts of the rest |
| JsStrings.SplitNoSep | api/services/send_alert.js:467 | a text without the separator splits into itself alone |
| JsStrings.RemoveFirst | api/services/send_alert.js:377 | `replace(str, '')` leaves the text unchanged when the pattern is absent and otherwise shortens it by the pattern's length |
| JsStrings.ReplaceAll | api/services/send_alert.js:343 | no contract of its own; a `/g` replace of a literal pattern; ReplaceAllAbsent, ReplaceAllSkip, EscapeHtmlIsPerCharacter and FillNameJoin state what it replaces |
| JsStrings.RemoveFirstSplice | api/services/send_alert.js:377 | what `replace(str, '')` removes is the first occurrence: putting the pattern back at the position `indexOf` reports gives the original text |
| JsStrings.RemoveFirstPrefix | api/services/send_alert.js:112 | removing a pattern the text starts with leaves the rest of the text |
| JsStrings.ReplaceAllAbsent | api/services/send_alert.js:343 | a global replace of a pattern that does not occur changes nothing |
| JsStrings.ReplaceChar | api/services/send_alert.js:417 | a global replace of one character leaves a text without it unchanged and introduces only characters of the text (other than that one) or of the replacement |
| JsStrings.ReplaceCharAppend | api/services/send_alert.js:417 | a global one-character replace distributes over concatenation |
| JsStrings.TrimStart | api/services/send_alert.js:394 | the result is a suffix of the text, what was dropped is all whitespace, and the result does not start with whitespace |
| JsStrings.TrimEnd | api/services/send_alert.js:394 | the result is a prefix of the text, what was dropped is all whitespace, and the result does not end with whitespace |
| JsStrings.Trim | api/services/send_alert.js:394 | `trim` returns a stretch of the text that neither starts nor ends with whitespace, and everything cut off before and after it is whitespace |
| JsStrings.TrimDigits | api/services/send_alert.js:367 | trimming an id made of digits leaves it unchanged |
| JsStrings.NumberOf | api/services/send_alert.js:146 | `Number` of a non-empty digit string, optionally after `-`, is its decimal value; other texts ("" among them) contribute no numeric value, which only matters where `doc(id)` has not already thrown |
| JsStrings.NatToString | api/services/send_alert.js:328 | the decimal form of a count is non-empty digits |
| JsStrings.IntToString | api/services/send_alert.js:328 | the decimal form of a number is non-empty and holds no line break |
| JsStrings.DigitsValueOfNatToString | api/services/send_alert.js:328 | reading back the decimal form of a natural gives the number |
| JsStrings.NumberOfIntToString | api/services/send_alert.js:146 | `Number(String(n)) == n` for every integer chat id |
| Store.FirstWithId | api/services/send_alert.js:140 | the document lookup finds nothing exactly when no document has the id, and otherwise returns the data of a document with that id |
| Store.FirstWithTelegramId | api/services/send_alert.js:145-158 | the `telegram_id` query is empty exactly when no document's `telegram_id` is among the values, and otherwise returns such a document |
| Store.FirstWithIdAt | api/services/send_alert.js:264-268 | `doc(id).get()` yields the data of the first document whose id is `id` |
| Store.FirstWithTelegramIdAt | api/services/send_alert.js:269-279 | a `telegram_id` query with `limit(1)` yields the first document whose `telegram_id` is among the values |
| Store.GetDoc | api/services/send_alert.js:140 | no contract of its own; `doc(id).get()`, throwing on an unreadable collection or an empty id; FirstWithId and FirstWithIdAt state what it finds; ids holding `/` are treated as plain ids (see "## Left out") |
| Store.QueryTelegramId | api/services/send_alert.js:145-158 | no contract of its own; the `telegram_id` query; FirstWithTelegramId and FirstWithTelegramIdAt state what it finds |
| Store.UserExists | api/services/send_alert.js:139-160 | no contract of its own; the three-step existence check; UserExistsMeaning states when it throws and when it finds the user |
| Store.UserExistsMeaning | api/services/send_alert.js:139-160 | for an id without `/`, the three-step lookup throws exactly when the collection is unreadable or the id empty, and otherwise finds the user exactly when some document has the id as its document id, as a numeric `telegram_id` or as a string `telegram_id` |
| Store.CountBanned | api/services/send_alert.js:232-233 | the banned count is at most the number of users |
| Store.CountBannedOne | api/services/send_alert.js:232-233 | one document counts 1 exactly when it is banned |
| Store.CountBannedAppend | api/services/send_alert.js:232-233 | the banned count of two runs of documents is the sum of their counts, so with `CountBannedOne` it is the number of banned documents |
| Store.ActiveIsNotBanned | api/services/send_alert.js:236 | total minus banned equals the number of users not banned |
| Store.CountHigher | api/services/send_alert.js:290-292 | the number of strictly higher scores is at most the number of users |
| Store.CountHigherOne | api/services/send_alert.js:290-292 | one document counts 1 exactly when it has a `total_score` strictly above the given score |
| Store.CountHigherAppend | api/services/send_alert.js:290-292 | the count of higher scores over two runs of documents is the sum of theirs, so with `CountHigherOne` it is the number of documents scoring strictly higher |
| Store.Rank | api/services/send_alert.js:290-293 | the rank is one plus the number of strictly higher scores, so between 1 and the number of users plus one |
| Store.RankMonotone | api/services/send_alert.js:290-293 | a higher score never gets a worse rank |
| Store.RankOneIffTop | api/services/send_alert.js:290-293 | the rank is 1 exactly when no user has a strictly higher score |
| Markup.LabelEnd | api/services/send_alert.js:374 | the lazy `(.*?)\]` before `(` or `{` stops at the first `](` (or `]{`) and crosses no line break; it finds none exactly when every such pair lies beyond a line break |
| Markup.LabelEndFinds | api/services/send_alert.js:374 | the label search finds the first `](` (or `]{`) whenever no line break comes before it |
| Markup.PayloadEnd | api/services/send_alert.js:374 | the lazy `(.*?)\)` stops at the first closing character and crosses no line break; it finds none exactly when every closing character lies beyond a line break |
| Markup.PayloadEndFinds | api/services/send_alert.js:374 | the url or tag search finds the first closing character whenever no line break comes before it |
| Markup.MatchAt | api/services/send_alert.js:374 | a match found at a `[` starts there and is a match of the pattern |
| Markup.MatchLayout | api/services/send_alert.js:374 | a match's brackets and groups lie where the pattern puts them |
| Markup.LabelIsLazy | api/services/send_alert.js:374 | no `](` (or `]{`) lies inside a match's label |
| Markup.NoCloseInside | api/services/send_alert.js:374 | a label taken from a stretch without `](` holds none itself |
| Markup.LabelStops | api/services/send_alert.js:374 | at a match's `[` the label search stops where its label ends |
| Markup.PayloadStops | api/services/send_alert.js:374 | after a match's label the url or tag search stops where its url or tag ends |
| Markup.MatchAtComplete | api/services/send_alert.js:374 | every match of the pattern starts at a `[` and is exactly the match found there: the lazy groups leave no other choice |
| Markup.ScanFrom | api/services/send_alert.js:374 | the scan finds only matches at or after its start, in order and without overlap |
| Markup.ScanFromComplete | api/services/send_alert.js:374 | the scan misses nothing: every match at or after its start that no match found before it overlaps is found |
| Markup.MatchAll | api/services/send_alert.js:382 | `matchAll` returns matches of the pattern, in order and without overlap |
| Markup.MatchAllComplete | api/services/send_alert.js:374-382 | every match of the pattern that no earlier match overlaps is among those `matchAll` returns, so each link and each answer markup gets its button |
| Markup.ScanFromNoBracket | api/services/send_alert.js:374 | a text without `[` has no matches |
| Markup.CutBefore | api/services/send_alert.js:377 | cutting a piece out before an occurrence keeps the occurrence, shifted left |
| Markup.RemoveStep | api/services/send_alert.js:375-378 | removing the first occurrence of the next match's text shortens the text by its length and keeps every later match in place, shifted |
| Markup.LaterKept | api/services/send_alert.js:375-378 | one later match survives the removal of an earlier match's text |
| Markup.KeepsLaterStep | api/services/send_alert.js:375-378 | one more step of the removal loop keeps the length and the later matches |
| Markup.RemoveEachKeepsLater | api/services/send_alert.js:375-378 | while the matches are removed in order, each removal takes out exactly that match's length and the matches not yet removed are still there |
| Markup.OrderedStep | api/services/send_alert.js:374 | in the list of matches, each ends before any later one starts |
| Markup.RemoveAllMatchesLength | api/services/send_alert.js:375-378 | removing all matches shortens the text by exactly the total matched length |
| Markup.CallbackDataHasPrefix | api/services/send_alert.js:387 | every answer button's data starts with `ans_` |
| Markup.CallbackDataIdempotent | api/services/send_alert.js:387 | prefixing a tag that already carries `ans_` leaves it unchanged |
| Markup.AnswerOfCallbackData | api/services/send_alert.js:111-112 | pressing an answer button records the tag as written, without the one `ans_` prefix |
| Markup.CallbackData | api/services/send_alert.js:387 | no contract of its own; CallbackDataHasPrefix and CallbackDataIdempotent state that the data carries `ans_` once |
| Markup.AnswerOf | api/services/send_alert.js:112 | no contract of its own; AnswerOfCallbackData states that it undoes CallbackData |
| Markup.LinkRowsSnoc | api/services/send_alert.js:375-376 | each link adds one row, after the earlier ones |
| Markup.AnswerRowSnoc | api/services/send_alert.js:385-388 | each answer match adds one button to the answer row, after the earlier ones |
| Markup.RemoveEachSnoc | api/services/send_alert.js:377 | each iteration removes the next match's text from what is left |
| Markup.ExtractButtons | api/services/send_alert.js:371-394 | the extraction loops leave exactly the body and keyboard of `Buttons`: one row per link in order, then one row of all answer buttons if any, with the markup removed and the body trimmed |
| Markup.Buttons | api/services/send_alert.js:371-394 | no contract of its own; ExtractButtons proves the source's loops equal to it, and KeyboardRows, LinkRowsHoldLinks, AnswerRowPrefixed and NoMarkupNoButtons state its keyboard |
| Markup.AnswerButtonsPrefixed | api/services/send_alert.js:384-391 | every callback button on a `/mreply` keyboard carries `ans_` |
| Markup.LinkRowsHoldLinks | api/services/send_alert.js:376 | link rows hold only URL buttons |
| Markup.AnswerRowPrefixed | api/services/send_alert.js:387-388 | the answer row holds only callback buttons whose data starts with `ans_` |
| Markup.NoMarkupNoButtons | api/services/send_alert.js:371-394 | a message without `[` gets no keyboard and is only trimmed |
| Markup.KeyboardRows | api/services/send_alert.js:371-392 | the keyboard has one row per link plus one row when any answer markup matched |
| Markup.EscapeHtmlOne | api/services/send_alert.js:417 | the three replaces escape a single character as its entity |
| Markup.EscapeHtmlAppend | api/services/send_alert.js:417 | the escape distributes over concatenation |
| Markup.EscapeHtmlIsPerCharacter | api/services/send_alert.js:417 | because `&` is replaced first, the chain escapes each character exactly once |
| Markup.EscapedHasNoAngles | api/services/send_alert.js:417 | an escaped name holds no raw `<` or `>` |
| Markup.UnescapeOne | api/services/send_alert.js:417 | decoding the escape of one character gives that character back |
| Markup.UnescapeEscapeEach | api/services/send_alert.js:417 | decoding the per-character escape gives back the name |
| Markup.UnescapeEscape | api/services/send_alert.js:417 | the escape loses nothing: decoding it gives back the name |
| Markup.EscapeHtml | api/services/send_alert.js:417 | no contract of its own; EscapeHtmlIsPerCharacter, EscapedHasNoAngles and UnescapeEscape state that it escapes each character once and loses nothing |
| Markup.FillNameAbsent | api/services/send_alert.js:418 | a body without `{name}` is sent unchanged |
| JsStrings.ReplaceAllSkip | api/services/send_alert.js:418 | a global replace passes a run holding no occurrence unchanged and replaces the occurrence that follows it |
| Markup.NoStraddle | api/services/send_alert.js:418 | `{name}` cannot overlap itself, so no occurrence starts inside a placeholder-free run and reaches into the next `{name}` |
| Markup.FillNameJoin | api/services/send_alert.js:418 | filling a body cut at its placeholders puts the name between the pieces: every `{name}` is replaced by the name and nothing else changes |
| Markup.FillName | api/services/send_alert.js:418 | no contract of its own; FillNameJoin and FillNameAbsent state what it replaces |
| JsStrings.Or | api/services/send_alert.js:45 | `value \|\| fallback` is non-empty whenever the fallback is |
| AlertAdmin.AdminCommand | api/services/send_alert.js:211-460 | the administrator's text is a command exactly when it is `/maintenance on`, `/maintenance off`, `/stats` or `/export`, or starts with `/check_user`, `/broadcast` or `/mreply`; only the two exact maintenance texts write, true for on and false for off |
| AlertAdmin.StatsReport | api/services/send_alert.js:225-249 | `/stats` reports the total, the banned count and their difference as active, or the failure notice when the collection is unreadable |
| AlertAdmin.CheckUserArgument | api/services/send_alert.js:252-258 | no contract of its own; the trimmed second space-separated word; CheckUserArgumentMissing and CheckUserArgumentOf state when there is none and what it is |
| AlertAdmin.CheckUserArgumentMissing | api/services/send_alert.js:252-256 | `/check_user` reports the missing id exactly when the text has no space |
| AlertAdmin.CheckUserArgumentOf | api/services/send_alert.js:252-258 | `/check_user <digits>` looks up exactly those digits |
| AlertAdmin.FindUserMeaning | api/services/send_alert.js:261-287 | for an id without `/`, the lookup throws exactly when the collection is unreadable or the id empty, finds a record exactly when the three-step existence check does, and returns the data of a document registering that id |
| AlertAdmin.FindUser | api/services/send_alert.js:260-281 | no contract of its own; FindUserMeaning states when it throws and which record it finds |
| AlertAdmin.CheckUser | api/services/send_alert.js:251-320 | no contract of its own; CheckUserArgumentMissing, CheckUserArgumentOf, FindUserMeaning and Rank state the missing-id, lookup and rank parts |
| AlertAdmin.LinesSnoc | api/services/send_alert.js:326-329 | each iteration of the export appends one line |
| AlertAdmin.ExportCsv | api/services/send_alert.js:323-329 | the export loop builds the header line and then one line per document, in collection order |
| AlertAdmin.RowAfterHeader | api/services/send_alert.js:328 | the line after the header for the k-th document is that document's record |
| AlertAdmin.CommaJoinOneLine | api/services/send_alert.js:328 | fields without line breaks join into one line |
| AlertAdmin.CsvRow | api/services/send_alert.js:328 | no contract of its own; one document's CSV line with the `none` and `0` defaults; RowOneLine, RowAfterHeader and CsvSplit state its place in the file |
| AlertAdmin.RowOneLine | api/services/send_alert.js:328 | a document whose id, username and referrer hold no line break gives one CSV line |
| AlertAdmin.HeaderOneLine | api/services/send_alert.js:325 | the header is one line |
| AlertAdmin.LinesSplit | api/services/send_alert.js:325-329 | splitting line-broken lines on `\n` gives them back, followed by one empty part |
| AlertAdmin.CsvSplit | api/services/send_alert.js:325-329 | read back line by line, the export is the header, one record per user in order, and nothing after the last line break |
| AlertAdmin.Export | api/services/send_alert.js:323-334 | no contract of its own; one `sendDocument` of the CSV to the administrator; ExportCsv and CsvSplit state the file |
| AlertAdmin.BroadcastText | api/services/send_alert.js:340 | no contract of its own; `text.substring(text.indexOf(' ') + 1)`; BroadcastTextAfterCommand states what it keeps |
| AlertAdmin.BroadcastTextAfterCommand | api/services/send_alert.js:340 | the broadcast body is the text after the first space, or the whole text when there is none |
| AlertAdmin.Broadcast | api/services/send_alert.js:341-349 | the broadcast loop sends one message per user document, in order, each to that document's id |
| AlertAdmin.BroadcastWithoutPlaceholder | api/services/send_alert.js:343-347 | without `{name}`, every user receives the body unchanged |
| AlertAdmin.BroadcastRun | api/services/send_alert.js:339-351 | no contract of its own; Broadcast, BroadcastTextAfterCommand and BroadcastWithoutPlaceholder state the sends |
| AlertAdmin.SpaceRun | api/services/send_alert.js:360 | the run of `\s` at the start is all whitespace and maximal |
| AlertAdmin.IdRun | api/services/send_alert.js:360 | the run of `[\d,]` at the start is all digits and commas and maximal |
| AlertAdmin.TakeSpaces | api/services/send_alert.js:360 | greedy `\s+` cuts the text into a whitespace front and a back that does not start with whitespace |
| AlertAdmin.TakeIds | api/services/send_alert.js:360 | greedy `[\d,]+` cuts the text into an id front and a back that does not start with an id character |
| AlertAdmin.ParseArgs | api/services/send_alert.js:360 | a match after the command has non-empty whitespace, ids, whitespace and message groups that make up the text |
| AlertAdmin.ParseMassReply | api/services/send_alert.js:360 | a successful match is a well-formed `/mreply` text: the command, whitespace, ids, whitespace and a non-empty message, which together give back the text |
| AlertAdmin.SpaceRunOf | api/services/send_alert.js:360 | `\s+` takes exactly a whitespace run followed by a non-whitespace character |
| AlertAdmin.IdRunOf | api/services/send_alert.js:360 | `[\d,]+` takes exactly an id run followed by a non-id character |
| AlertAdmin.TakeSpacesOf | api/services/send_alert.js:360 | greedy whitespace cuts exactly at the first non-whitespace character |
| AlertAdmin.TakeIdsOf | api/services/send_alert.js:360 | greedy ids cut exactly at the first non-id character |
| AlertAdmin.ParseArgsComplete | api/services/send_alert.js:360 | every well-formed argument text matches, with the same id group |
| AlertAdmin.ParseMassReplyComplete | api/services/send_alert.js:360-367 | every text of the pattern's form is accepted, with the id group it was built from |
| AlertAdmin.ParseArgsGreedy | api/services/send_alert.js:360 | the greedy `\s+` before `(.+)` leaves the message starting with whitespace only when that message is a single whitespace character |
| AlertAdmin.TrimEach | api/services/send_alert.js:367 | trimming keeps one id per comma-separated part |
| AlertAdmin.SplitIdsDigits | api/services/send_alert.js:360-367 | the comma-separated parts of a `[\d,]+` group are runs of digits |
| AlertAdmin.RecipientsAreParts | api/services/send_alert.js:360-367 | for a matched `/mreply` the recipients are exactly the comma-separated parts of the id group, each a run of digits, which `trim` leaves unchanged |
| AlertAdmin.RecipientNameMeaning | api/services/send_alert.js:404-414 | `{name}` stands for the first name of the first document with the recipient's id, else of the first document with that numeric `telegram_id`, else "friend"; an empty first name or a failed read also gives "friend", so the name is never empty |
| AlertAdmin.RecipientName | api/services/send_alert.js:404-414 | no contract of its own; RecipientNameMeaning states whose first name it is |
| AlertAdmin.KeyboardMarkup | api/services/send_alert.js:428 | no contract of its own; the markup is sent only for a non-empty keyboard; PersonalMessage, DeliveriesPersonal and MassReplyEffect state this for every recipient |
| AlertAdmin.MassSend | api/services/send_alert.js:416-432 | no contract of its own; DeliveriesPersonal and MassReplyEffect state each message |
| AlertAdmin.ErrorLine | api/services/send_alert.js:440-445 | each failed send adds a non-empty line to the error report |
| AlertAdmin.Messages | api/services/send_alert.js:402-432 | one message is prepared per id |
| AlertAdmin.Record | api/services/send_alert.js:436-446 | no contract of its own; one send counted as delivered or failed, with its error line; TalliedSnoc and TalliedCounts state its effect on the counters |
| AlertAdmin.Tallied | api/services/send_alert.js:402-447 | no contract of its own; the loop's sends, counters and error report; TalliedSnoc, TalliedSends and TalliedCounts state what it accumulates |
| AlertAdmin.TalliedSnoc | api/services/send_alert.js:402-447 | each iteration of the send loop extends the tally by that id's outcome |
| AlertAdmin.TalliedSends | api/services/send_alert.js:402-447 | the loop makes exactly the prepared sends, in order |
| AlertAdmin.DeliveriesSends | api/services/send_alert.js:402-432 | the k-th send goes to the k-th id |
| AlertAdmin.DeliveriesPersonal | api/services/send_alert.js:402-432 | the k-th send goes to the k-th id with the body, the escaped name of that recipient in place of every `{name}`, and the keyboard exactly when it has a row |
| AlertAdmin.TalliedCounts | api/services/send_alert.js:396-447 | delivered counts the successful sends, delivered plus failed is the number of ids, and the error report is empty exactly when nothing failed |
| AlertAdmin.Deliver | api/services/send_alert.js:396-447 | the send-and-count loop produces exactly the sends, counts and error report of the tally |
| AlertAdmin.MassReplyEffect | api/services/send_alert.js:357-460 | a matched `/mreply` writes nothing and answers OK; it sends the "sending" notice, then one message per comma-separated trimmed id in order, then the summary; each message carries that recipient's escaped name in place of `{name}` and the keyboard exactly when it has a row; delivered plus failed is the number of ids, and the error list appears exactly when something failed |
| AlertAdmin.MassReplyInvalid | api/services/send_alert.js:360-365 | an unmatched `/mreply` only sends the usage notice to the administrator and answers "Invalid syntax" |
| AlertAdmin.Summary | api/services/send_alert.js:450-456 | no contract of its own; the counts, with the error list only when some send failed; MassReplyEffect states that the list is there exactly when a send failed |
| AlertAdmin.MassReplyRun | api/services/send_alert.js:357-460 | no contract of its own; MassReplyInvalid and MassReplyEffect state both outcomes of the match |
| AlertAdmin.MassReplyTo | api/services/send_alert.js:366-460 | no contract of its own; MassReplyEffect states its calls, counts and summary |
| AlertBot.StartIsNoCommand | api/services/send_alert.js:466 | a `/start` text is no administrator command, no answer data and not the share data, so even the administrator reaches `/start` |
| AlertBot.GateIffBlocked | api/services/send_alert.js:86-107 | the handler answers "Maintenance Mode" exactly when the settings were read and maintenance is on for a sender other than the administrator; it then makes only the one notice (an alert for a button press, a message to the chat otherwise) and writes nothing |
| AlertBot.DispatchNotMaintenance | api/services/send_alert.js:110-582 | no handler past the gate answers "Maintenance Mode" |
| AlertBot.AdminNotMaintenance | api/services/send_alert.js:211-460 | no administrator command answers "Maintenance Mode" |
| AlertBot.OthersCannotCommand | api/services/send_alert.js:209-211 | a sender other than the administrator never causes a write and never receives an export; every message that sender's update causes goes to the sender, the administrator or the `/start` referrer, and none is a command's reply (maintenance switch, stats, user card, broadcast, mass reply) |
| AlertBot.DispatchOthers | api/services/send_alert.js:109-582 | past the gate, a sender other than the administrator reaches only the answer buttons, the share button and `/start`, none of which writes, uploads or sends a command's reply to anyone but that sender, the administrator or the referrer |
| AlertBot.RecordAnswerOrdinary | api/services/send_alert.js:110-136 | an answer press writes nothing and messages only the voter and the administrator, with no command's reply |
| AlertBot.ShareOrdinary | api/services/send_alert.js:138-206 | a share press writes nothing and messages only the user, with no command's reply |
| AlertBot.StartOrdinary | api/services/send_alert.js:466-580 | `/start` messages only the user, the administrator and the referrer, with none of the commands' replies |
| AlertBot.StartHarmless | api/services/send_alert.js:466-580 | `/start` writes nothing and uploads nothing |
| AlertBot.WriteOnlyBySwitch | api/services/send_alert.js:214-224 | the only write to `maintenance_mode` comes from the administrator's exact `/maintenance on` (true) or `/maintenance off` (false) |
| AlertBot.MaintenanceSwitch | api/services/send_alert.js:214-224 | the switch writes the mode and reports it to the administrator; afterwards the gate blocks exactly the other users when on, and nobody when off |
| AlertBot.AnswerButtonRecorded | api/services/send_alert.js:111-136 | pressing any answer button of a `/mreply` keyboard reaches the answer handler, which confirms the data without `ans_` to the voter |
| AlertBot.AnswerRoundTrip | api/services/send_alert.js:111-136 | for a tag written without `ans_`, the press confirms that tag to the voter, reports it to the administrator and answers the press, in that order |
| AlertBot.ShareInvitesRegistered | api/services/send_alert.js:138-206 | the share button fails exactly when the lookup throws, and otherwise sends the user their invitation exactly when some document registers them |
| AlertBot.WelcomeSharesOnly | api/services/send_alert.js:570-575 | the welcome keyboard's only callback button is the share button, and it has one |
| AlertBot.ReferralOf | api/services/send_alert.js:467-473 | for `/start <arg>` the referrer is `arg` exactly when it is non-empty digits other than the user's own id; a self-referral gets the "Self" label and any other rejected argument the plain label |
| AlertBot.InviteLinkRefers | api/services/send_alert.js:176 | the referral link of a user, opened by another, makes that user the referrer and opens the game with them as its start parameter |
| AlertBot.StartEffect | api/services/send_alert.js:466-580 | `/start` writes nothing, fails exactly when the lookup throws, always ends with the welcome keyboard; for a registered user it sends only the menu button (exactly when there is a referrer) and the welcome, both to the user's own chat, so neither the newcomer card nor the referrer notice |
| AlertBot.NewcomerAnnounced | api/services/send_alert.js:495-522 | for a user no lookup finds, the administrator (when set) gets the newcomer card and a valid referrer gets the notice |
| AlertBot.MenuButtonFollowsReferrer | api/services/send_alert.js:536-557 | the menu button is set exactly when there is a valid referrer, whether or not the user is registered, and opens the game with that referrer |
| AlertBot.StartMenu | api/services/send_alert.js:536-557 | in the `/start` actions, a menu button occurs exactly when there is a referrer, and is the one for that referrer |
| AlertBot.MenuAmong | api/services/send_alert.js:536-578 | among the announcements, the optional menu button and the welcome, the menu button is the only one |
| AlertBot.Announce | api/services/send_alert.js:495-522 | the newcomer announcements are all messages |
| AlertBot.NothingToHandle | api/services/send_alert.js:41-64 | an empty body, or a body with neither a relayed text nor an update, makes no call and no write |
| AlertBot.CallbackPreferred | api/services/send_alert.js:69-79 | a callback query is handled in preference to a message in the same body |
| AlertBot.RelayIgnoresState | api/services/send_alert.js:44-61 | a non-empty string message bypasses gate and database: exactly one message to `custom_chat_id`, else ADMIN_ID, and success |
| AlertBot.Handle | api/services/send_alert.js:35-79 | no contract of its own; NothingToHandle, RelayIgnoresState and CallbackPreferred state its branches |
| AlertBot.Classify | api/services/send_alert.js:43-79 | no contract of its own; RelayIgnoresState, CallbackPreferred and NothingToHandle state the routing |
| AlertBot.MaintenanceReply | api/services/send_alert.js:93-105 | no contract of its own; an alert for a button press, else a message to the chat; GateIffBlocked states that it is the gate's only action |
| AlertBot.HandleUpdate | api/services/send_alert.js:81-107 | no contract of its own; GateIffBlocked and OthersCannotCommand state the gate and what other senders can cause |
| AlertBot.Dispatch | api/services/send_alert.js:109-582 | no contract of its own; DispatchNotMaintenance, StartIsNoCommand and WriteOnlyBySwitch state the order of the handlers and the one write |
| AlertBot.RecordAnswer | api/services/send_alert.js:110-136 | no contract of its own; AnswerRoundTrip and AnswerButtonRecorded state its three calls |
| AlertBot.Share | api/services/send_alert.js:138-206 | no contract of its own; ShareInvitesRegistered and InviteLinkRefers state when the invitation is sent and what its link does |
| AlertBot.Start | api/services/send_alert.js:466-580 | no contract of its own; StartEffect, NewcomerAnnounced, MenuButtonFollowsReferrer, StartMenu and StartOrdinary state its calls |
| AlertBot.ReferrerForApp | api/services/send_alert.js:467-473 | no contract of its own; ReferralOf states which argument becomes the referrer |
| AlertBot.ReferrerLabel | api/services/send_alert.js:473 | no contract of its own; the referrer, the self label or the no-referrer label; ReferralOf states which label each argument gets, and NewcomerAnnounced where the label is reported |
| AlertTypes.ToAdmin | api/services/send_alert.js:590-602 | no contract of its own; one message to the administrator, or none when `ADMIN_ID` is unset; Announce, StartEffect, NewcomerAnnounced and MassReplyEffect state the administrator's messages it builds |
| SupportBot.DigitRun | api/services/support_bot.js:114 | `(\d+)` takes the maximal run of digits, at least one when the text starts with a digit |
| SupportBot.IdFrom | api/services/support_bot.js:114 | a found id is the whole digit run after an `ID: `, the first `ID: ` followed by a digit; none is found exactly when no `ID: ` is followed by a digit |
| SupportBot.LookupMeaning | api/services/support_bot.js:38-56 | for an id without `/`, the lookup throws exactly when the collection is unreadable or the id empty, and otherwise finds a record exactly when some document has the id as document id or as a string or numeric `telegram_id`, returning that document's data |
| SupportBot.SenderInfoMeaning | api/services/support_bot.js:135-172 | the administrator gets the error notice exactly when the lookup throws, and the sender's card exactly when the sender is registered |
| SupportBot.SplitCount | api/services/support_bot.js:86-87 | the number of parts of a split is one more than the number of separators |
| SupportBot.SeparatorCount | api/services/support_bot.js:86 | the text after the first separator holds one separator fewer |
| SupportBot.StartEffect | api/services/support_bot.js:31-82 | `/start` always greets the sender last; without a payload that is all; with one, unless the lookup throws, the administrator gets exactly one message about it, the card exactly when the id is registered |
| SupportBot.ReplyUsageIff | api/services/support_bot.js:86-99 | `/reply` falls back to the usage notice exactly when the text has fewer than two spaces |
| SupportBot.ParseReplyAt | api/services/support_bot.js:86-89 | the target is the second part and the answer starts at the first occurrence of the third part |
| SupportBot.ManualReplyOf | api/services/support_bot.js:86-89 | `/reply <id> <answer>` sends the whole answer to the id when the answer's first word does not occur earlier |
| SupportBot.ReplyParts | api/services/support_bot.js:86-88 | the parts of `/reply <id> <answer>` are the command, the id and the answer's first word |
| SupportBot.ReplyAnswerAt | api/services/support_bot.js:89 | the answer's first word occurs where the answer starts |
| SupportBot.OccursInside | api/services/support_bot.js:89 | an occurrence inside the id is an occurrence in the text |
| SupportBot.ManualReplyQuirk | api/services/support_bot.js:89 | when the answer's first word occurs inside the id, the sent answer starts there, with the tail of the id, and differs from what the administrator wrote |
| SupportBot.OnlyAdminAnswers | api/services/support_bot.js:85-129 | a message from anyone but the administrator sends no answer to a user |
| SupportBot.ManualReplyEffect | api/services/support_bot.js:85-101 | the administrator's `/reply` sends only the usage notice when malformed; otherwise it sends the answer to the target, then a confirmation that reports success exactly when the send succeeded |
| SupportBot.ReplyToEffect | api/services/support_bot.js:104-129 | a reply's target is the forwarded sender when known, else the `ID:` in the text; without a target only the error goes to the administrator; with one, the text goes to the target and the confirmation reflects the send's success |
| SupportBot.IdFromSkips | api/services/support_bot.js:114 | the search for `ID: ` skips positions where it does not occur |
| SupportBot.IdInTextOf | api/services/support_bot.js:114-115 | the first `ID: ` followed by digits yields exactly those digits |
| SupportBot.IdAfterLabel | api/services/support_bot.js:114 | in a text built as prefix, `ID: `, id and a non-digit, the digit run after the label is the id |
| SupportBot.DigitRunOf | api/services/support_bot.js:114 | the digit run of digits followed by a non-digit is exactly those digits |
| SupportBot.ForwardEffect | api/services/support_bot.js:132-200 | a user's message gives the administrator the sender info and then the forward; the hidden-sender notice follows exactly when the forward succeeded without revealing the sender; the user is acknowledged last unless the forward threw |
| SupportBot.AdminOtherwiseSilent | api/services/support_bot.js:203 | an administrator's message that is neither `/start`, nor `/reply`, nor a reply makes no call |
| SupportBot.AdminOf | api/services/support_bot.js:17 | no contract of its own; ADMIN_ID is the trimmed setting, "undefined" when unset |
| SupportBot.Handle | api/services/support_bot.js:20-208 | no contract of its own; the body checks, then HandleMessage; every path answers 200 |
| SupportBot.HandleMessage | api/services/support_bot.js:31-203 | no contract of its own; StartEffect, ManualReplyEffect, ReplyToEffect, ForwardEffect, OnlyAdminAnswers and AdminOtherwiseSilent state each branch |
| SupportBot.Start | api/services/support_bot.js:31-82 | no contract of its own; StartEffect states its calls |
| SupportBot.StartLookup | api/services/support_bot.js:33-76 | no contract of its own; StartEffect and LookupMeaning state the report on the id |
| SupportBot.Lookup | api/services/support_bot.js:38-56 | no contract of its own; LookupMeaning states when it throws and what it finds |
| SupportBot.ParseReply | api/services/support_bot.js:86-89 | no contract of its own; ReplyUsageIff, ParseReplyAt, ManualReplyOf and ManualReplyQuirk state the parse |
| SupportBot.Ok | api/services/support_bot.js:210-222 | no contract of its own; `data.ok`, false when the call threw; ManualReplyEffect and ReplyToEffect state that the confirmation reports success exactly when the reply was answered with ok |
| SupportBot.ManualReply | api/services/support_bot.js:85-101 | no contract of its own; ManualReplyEffect states its calls |
| SupportBot.ReplyTarget | api/services/support_bot.js:104-116 | no contract of its own; ReplyToEffect and IdInTextOf state the target |
| SupportBot.ReplyTo | api/services/support_bot.js:104-129 | no contract of its own; ReplyToEffect states its calls |
| SupportBot.SenderInfo | api/services/support_bot.js:135-172 | no contract of its own; SenderInfoMeaning states which notice the administrator gets |
| SupportBot.ForwardToAdmin | api/services/support_bot.js:132-200 | no contract of its own; ForwardEffect states its calls |

## Left out

- The CORS preflight (`OPTIONS`) answer and the CORS headers are not modelled; the HTTP status, which is 200 on every path, is not modelled either.
- Firebase initialisation and the normalisation of the private key are credential set-up.
- `fetch` itself is left out: each Bot API call is a value in the returned list. Only the outcomes the code inspects are inputs: each `/mreply` send, and the support bot's answer send and forward.
- A send whose failure is swallowed or ignored is listed as made. The failures the code does not catch are not modelled: the relay send, the gate notice, the answer, share, welcome and `/export` sends, and every send in `/broadcast`. In the source each would turn the response into "Error" midway.
- The `maintenance_mode` write is returned as a value. A failing write, the one thing that would change the outcome, is not modelled.
- `toLocaleString`, `toDate` and `new Date().toISOString()` depend on locale and clock. Scores and counts are carried as numbers in the templates; the newcomer card's date and `/check_user`'s creation date are not modelled.
- `encodeURIComponent` in the share URL is an opaque function given by the environment.
- The fixed Amharic and emoji wording of each message is not reproduced. A message is a template value carrying the values interpolated into it. Computed texts are real strings: the CSV, the `/mreply` body and error lines, the referral labels and links.
- `/export` writes `/tmp/users.csv` and uploads it as multipart form data. It is modelled as one `sendDocument` carrying the CSV text.
- Markup.FillNameAbsent: `String.replace` expands `$&`, `$1` and similar in the replacement. `{name}` filling and the broadcast substitution insert the name literally; a name containing `$` is not modelled.
- JsStrings.NumberOf: `Number` accepts only an optional `-` and decimal digits. Spaces, `+`, exponents, hex, and `NaN` are not modelled; a text with any of those matches no numeric `telegram_id`. `Number("")` is 0 in JavaScript but no value here; every caller reaches the numeric query only after `doc("")` has thrown, so the difference is never observed. Digit strings above 2^53 get their exact value here, while `Number` rounds them to the nearest double; Telegram ids fit in 52 bits.
- `/check_user` splits on the first space and trims the second word. A repeated space gives an empty id, which is a failed lookup here; Firestore would reject the empty document path.
- Store.GetDoc: `doc(id)` takes `id` as a path, so an id holding `/` is not a plain document id. Firestore throws when the path has an odd number of segments (`a/b`) or holds `//`. It drops a leading or trailing `/` and then reads another document (`123/` reads `123`). With three or more segments it reads a document in a subcollection. The model treats every non-empty id as a plain document id: such an id finds no document and does not throw. So `/start a/b` to the support bot reports "not found" to the administrator, while the source swallows the throw and reports nothing. Likewise `/check_user a/b` answers "not found" instead of the lookup failure. Ids the bots build themselves are decimal chat ids and never hold `/`.
- Store.FirstWithId: Firestore rejects an empty document path. The model treats it as a thrown read, and treats a `users` collection as either wholly readable or wholly unreadable within one request.
- A callback query without its `message`, and a `forward_from.id` of 0, are not modelled; both are inputs Telegram does not send.
- In the alert bot, an unset ADMIN_ID is "". `sendToAdmin` then sends nothing, and `String(ADMIN_ID)` is "undefined": a chat whose id is the text "undefined" would count as the administrator. The support bot trims the setting the same way (`String(undefined).trim()`).
- Firestore's `in` query and `count()` are functions over the document sequence; indexes and consistency are not modelled.
- A `telegram_id` query that Firestore answers in an unspecified order is taken as the first matching document in collection order.
