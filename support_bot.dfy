/** The webhook handler of the support bot (api/services/support_bot.js):
    `/start` with a user id reports that user to the administrator; the
    administrator answers with `/reply <id> <text>` or by replying to a
    report; any other user's message is forwarded to the administrator
    with what the database knows about its sender. */
module SupportBot {
  import opened JsStrings
  import opened Store
  import opened Telegram

  // ---------------------------------------------------------------------
  // What arrives and what the handler reads
  // ---------------------------------------------------------------------

  /** The message replied to: the sender it was forwarded from, if
      Telegram reveals one, and its text ("" when none). */
  datatype Replied = Replied(forwardFrom: Option<string>, text: string)

  /** A message: its chat, its text ("" when none), its id, the sender's
      first name ("" when none) and what it replies to. */
  datatype SupportMessage = SupportMessage(
    chat: string, text: string, messageId: int, firstName: string, replyTo: Option<Replied>)

  /** The request body: missing, not JSON, JSON without a message, or a
      message. */
  datatype SupportRequest = NoBody | BadJson | NoMessage | Incoming(m: SupportMessage)

  /** What a `sendMessage` call came back with: Telegram's `ok`, or a
      thrown error. */
  datatype SendReply = Answered(ok: bool) | SendThrew

  /** What `forwardMessage` came back with: accepted, with or without the
      original sender visible; refused; or a thrown error. */
  datatype ForwardReply = Forwarded(showsSender: bool) | ForwardRefused | ForwardThrew

  /** The environment of one request. `adminSetting` is ADMIN_ID (None when
      unset); `userSend` is the outcome of the one send to a user that an
      answer of the administrator makes; `forward` that of the forward. */
  datatype SupportEnv = SupportEnv(
    adminSetting: Option<string>, users: Users, userSend: SendReply, forward: ForwardReply)

  /** The messages the bot sends, with the values interpolated into them.
      The fixed Amharic wording is not reproduced. */
  datatype SupportText =
    | Greeting(name: string)                                             // to a user on /start
    | StartReport(name: string, id: string, score: int, invites: int, isBanned: bool)
    | StartNotFound(id: string)
    | AnswerToUser(body: string)                                         // the administrator's answer
    | ManualSent(id: string)
    | ManualFailed
    | ReplyUsage
    | ReplySent
    | ReplyFailed
    | NoTarget
    | SenderCard(name: string, id: string, score: int, invites: int, isBanned: bool)
    | SenderUnknown(id: string)
    | SenderLookupFailed(id: string)
    | HiddenSender
    | Acknowledged(name: string)

  /** The response text: "No body", "OK", or none; the status is 200 on
      every path. */
  datatype SupportBody = NoBodyText | OkText | NoText

  datatype SupportResponse = SupportResponse(actions: seq<Action<SupportText>>, body: SupportBody)

  const GuestName := "ተጠቃሚ"
  const UnknownName := "ያልታወቀ"

  // ---------------------------------------------------------------------
  // Helpers
  // ---------------------------------------------------------------------

  /** `String(process.env.ADMIN_ID).trim()`. */
  function AdminOf(setting: Option<string>): string {
    if setting.Some? then Trim(setting.value) else "undefined"
  }

  /** `sendMessage`'s result: `data.ok`, and false when the call threw. */
  function Ok(r: SendReply): bool {
    match r
    case Answered(ok) => ok
    case SendThrew => false
  }

  /** A template literal shows an absent text as "undefined". */
  function Shown(text: string): string {
    if text == "" then "undefined" else text
  }

  /** The lookup both handlers make: the document with that id, else the
      first document whose `telegram_id` is the id as a string or as a
      number. */
  function Lookup(users: Users, id: string): Read<Option<UserRecord>> {
    match GetDoc(users, id)
    case Threw => Threw
    case Got(byId) =>
      if byId.Some? then Got(byId)
      else
        match QueryTelegramId(users, {StrId(id)} + NumberValues(id))
        case Threw => Threw
        case Got(byField) => Got(if byField.Some? then Some(byField.value.data) else None)
  }

  /** The document registers the id, by document id or by `telegram_id`. */
  predicate Known(d: Doc, id: string) {
    d.id == id || HasTelegramId(d, {StrId(id)} + NumberValues(id))
  }

  // ---------------------------------------------------------------------
  // The handler
  // ---------------------------------------------------------------------

  function Handle(req: SupportRequest, env: SupportEnv): SupportResponse {
    match req
    case NoBody => SupportResponse([], NoBodyText)
    case BadJson => SupportResponse([], NoText)
    case NoMessage => SupportResponse([], OkText)
    case Incoming(m) => SupportResponse(HandleMessage(m, env), NoText)
  }

  /** The branches in order: `/start` from anyone, then the administrator's
      `/reply`, then the administrator's reply to a message, then any other
      user's message; the administrator's other messages do nothing. */
  function HandleMessage(m: SupportMessage, env: SupportEnv): seq<Action<SupportText>> {
    var admin := AdminOf(env.adminSetting);
    if StartsWith(m.text, "/start") then Start(m, env)
    else if m.chat == admin && StartsWith(m.text, "/reply") then ManualReply(m.text, admin, env)
    else if m.chat == admin && m.replyTo.Some? then ReplyTo(m, admin, env)
    else if m.chat != admin then ForwardToAdmin(m, admin, env)
    else []
  }

  // ---------------------------------------------------------------------
  // /start
  // ---------------------------------------------------------------------

  /** The report on the id after `/start`: a card, a not-found notice, or
      nothing when the lookup threw. */
  function StartLookup(id: string, admin: string, users: Users): seq<Action<SupportText>> {
    match Lookup(users, id)
    case Threw => []
    case Got(found) =>
      if found.Some? then
        var d := found.value;
        [SendMessage(admin, StartReport(Or(d.firstName, UnknownName), id, Score(d), d.inviteCount, d.isBanned), None)]
      else [SendMessage(admin, StartNotFound(id), None)]
  }

  function Start(m: SupportMessage, env: SupportEnv): seq<Action<SupportText>> {
    var parts := Split(m.text, ' ');
    (if |parts| > 1 then StartLookup(parts[1], AdminOf(env.adminSetting), env.users) else [])
    + [SendMessage(m.chat, Greeting(Or(m.firstName, GuestName)), None)]
  }

  // ---------------------------------------------------------------------
  // /reply <id> <text>
  // ---------------------------------------------------------------------

  /** The target and the answer of `/reply`: the second word, and the text
      from the first occurrence of the third word on. `substring(-1)` is the
      whole text; `OccursInside` shows the third word always occurs. */
  function ParseReply(text: string): Option<(string, string)> {
    var parts := Split(text, ' ');
    if |parts| < 3 then None
    else
      var at := IndexOf(text, parts[2]);
      Some((parts[1], if at == -1 then text else text[at..]))
  }

  function ManualReply(text: string, admin: string, env: SupportEnv): seq<Action<SupportText>> {
    match ParseReply(text)
    case None => [SendMessage(admin, ReplyUsage, None)]
    case Some(r) =>
      [SendMessage(r.0, AnswerToUser(r.1), None),
       SendMessage(admin, if Ok(env.userSend) then ManualSent(r.0) else ManualFailed, None)]
  }

  // ---------------------------------------------------------------------
  // A reply to a message
  // ---------------------------------------------------------------------

  /** The length of the run of digits `s` starts with. */
  function DigitRun(s: string): (n: nat)
    ensures n <= |s| && AllDigits(s[..n]) && (n < |s| ==> !IsDigit(s[n]))
    ensures |s| > 0 && IsDigit(s[0]) ==> n > 0
  {
    if |s| == 0 || !IsDigit(s[0]) then 0
    else
      var n := DigitRun(s[1..]);
      assert s[1..][..n] == s[1..n + 1];
      1 + n
  }

  const IdLabel := "ID: "

  /** An `ID: ` at `q` directly followed by a digit. */
  predicate LabelledDigit(s: string, q: int) {
    OccursAt(s, IdLabel, q) && q + 4 < |s| && IsDigit(s[q + 4])
  }

  /** `ID: ` at `q` followed by the whole run of digits `d`. */
  predicate IdAt(s: string, q: int, d: string) {
    OccursAt(s, IdLabel + d, q) && d != "" && AllDigits(d)
    && (q + 4 + |d| == |s| || !IsDigit(s[q + 4 + |d|]))
  }

  /** `s.match(/ID: (\d+)/)` searched from `i`: the digits after the first
      `ID: ` that has at least one; None when no `ID: ` from `i` on is
      followed by a digit. */
  function IdFrom(s: string, i: nat): (r: Option<string>)
    decreases |s| - i
    ensures r.Some? ==> r.value != "" && AllDigits(r.value)
    ensures r.Some? ==> exists q :: i <= q && IdAt(s, q, r.value) && forall q' :: i <= q' < q ==> !LabelledDigit(s, q')
    ensures r.None? ==> forall q :: i <= q ==> !LabelledDigit(s, q)
  {
    if i + 4 >= |s| then None
    else if s[i..i + 4] == IdLabel && IsDigit(s[i + 4]) then
      var n := DigitRun(s[i + 4..]);
      var d := s[i + 4..i + 4 + n];
      assert d == s[i + 4..][..n];
      assert s[i..i + 4 + n] == IdLabel + d;
      assert i + 4 + n < |s| ==> s[i + 4 + n] == s[i + 4..][n];
      assert IdAt(s, i, d);
      Some(d)
    else
      assert !LabelledDigit(s, i);
      IdFrom(s, i + 1)
  }

  function IdInText(s: string): Option<string> {
    IdFrom(s, 0)
  }

  /** The user the administrator answers: the original sender of a
      forwarded message, else the id in the text replied to. */
  function ReplyTarget(r: Replied): Option<string> {
    if r.forwardFrom.Some? then r.forwardFrom
    else if r.text != "" then IdInText(r.text)
    else None
  }

  function ReplyTo(m: SupportMessage, admin: string, env: SupportEnv): seq<Action<SupportText>>
    requires m.replyTo.Some?
  {
    match ReplyTarget(m.replyTo.value)
    case None => [SendMessage(admin, NoTarget, None)]
    case Some(target) =>
      [SendMessage(target, AnswerToUser(Shown(m.text)), None),
       SendMessage(admin, if Ok(env.userSend) then ReplySent else ReplyFailed, None)]
  }

  // ---------------------------------------------------------------------
  // A user's message
  // ---------------------------------------------------------------------

  /** What the administrator is told about the sender. */
  function SenderInfo(chat: string, users: Users): SupportText {
    match Lookup(users, chat)
    case Threw => SenderLookupFailed(chat)
    case Got(found) =>
      if found.Some? then
        var d := found.value;
        SenderCard(Or(d.firstName, UnknownName), chat, Score(d), d.inviteCount, d.isBanned)
      else SenderUnknown(chat)
  }

  /** The info, the forward, the note on a hidden sender, and the
      acknowledgement; a forward that throws ends the handler. */
  function ForwardToAdmin(m: SupportMessage, admin: string, env: SupportEnv): seq<Action<SupportText>> {
    [SendMessage(admin, SenderInfo(m.chat, env.users), None), ForwardMessage(admin, m.chat, m.messageId)]
    + (if env.forward.ForwardThrew? then []
       else (if env.forward == Forwarded(false) then [SendMessage(admin, HiddenSender, None)] else [])
            + [SendMessage(m.chat, Acknowledged(Or(m.firstName, GuestName)), None)])
  }

  // ---------------------------------------------------------------------
  // Properties
  // ---------------------------------------------------------------------

  /** The lookup throws exactly when the collection is unreadable or the id
      empty; otherwise it finds a user exactly when some document registers
      the id, and what it finds is that document's data. */
  lemma LookupMeaning(users: Users, id: string)
    ensures Lookup(users, id).Threw? <==> !users.up || id == ""
    ensures Lookup(users, id).Got? ==>
      (Lookup(users, id).value.Some? <==> exists d :: d in users.docs && Known(d, id))
    ensures Lookup(users, id).Got? && Lookup(users, id).value.Some? ==>
      exists d :: d in users.docs && Known(d, id) && d.data == Lookup(users, id).value.value
  {
    if users.up && id != "" {
      var values := {StrId(id)} + NumberValues(id);
      var byId := FirstWithId(users.docs, id);
      if byId.Some? {
        var k :| 0 <= k < |users.docs| && users.docs[k].id == id && users.docs[k].data == byId.value;
        assert users.docs[k] in users.docs && Known(users.docs[k], id);
      } else {
        var byField := FirstWithTelegramId(users.docs, values);
        if !exists d :: d in users.docs && Known(d, id) {
          assert byField.None?;
        }
        if byField.Some? {
          assert Known(byField.value, id);
        } else {
          forall d | d in users.docs ensures !Known(d, id) {
            var k :| 0 <= k < |users.docs| && users.docs[k] == d;
          }
        }
      }
    }
  }

  /** What the administrator is told about a sender: a failure notice
      exactly when the lookup threw, the card exactly when the sender is
      registered. */
  lemma SenderInfoMeaning(chat: string, users: Users)
    ensures SenderInfo(chat, users).SenderLookupFailed? <==> !users.up || chat == ""
    ensures SenderInfo(chat, users).SenderCard? <==> users.up && chat != "" && exists d :: d in users.docs && Known(d, chat)
  {
    LookupMeaning(users, chat);
  }

  /** A space splits the text into more than one part. */
  lemma {:induction false} SplitCount(s: string, sep: char)
    ensures |Split(s, sep)| == multiset(s)[sep] + 1
    decreases |s|
  {
    var i := IndexOfChar(s, sep);
    if i == -1 {
      assert Split(s, sep) == [s];
      assert sep !in multiset(s);
    } else {
      assert Split(s, sep) == [s[..i]] + Split(s[i + 1..], sep);
      SplitCount(s[i + 1..], sep);
      SeparatorCount(s, i, sep);
    }
  }

  /** The separator at `i` is the first: the rest holds one fewer. */
  lemma SeparatorCount(s: string, i: nat, sep: char)
    requires i < |s| && s[i] == sep && sep !in s[..i]
    ensures multiset(s)[sep] == multiset(s[i + 1..])[sep] + 1
  {
    assert s == s[..i] + [sep] + s[i + 1..];
    assert multiset(s[..i])[sep] == 0;
  }

  /** `/start`: the sender is always greeted, last; without a payload that is
      all; with one, the administrator gets exactly one message about it
      (the card exactly when the id is registered) unless the lookup threw. */
  lemma StartEffect(m: SupportMessage, env: SupportEnv)
    requires StartsWith(m.text, "/start")
    ensures var acts := HandleMessage(m, env);
      |acts| > 0 && acts[|acts| - 1] == SendMessage(m.chat, Greeting(Or(m.firstName, GuestName)), None)
    ensures ' ' !in m.text ==> HandleMessage(m, env) == [SendMessage(m.chat, Greeting(Or(m.firstName, GuestName)), None)]
    ensures ' ' in m.text ==>
      var id := Split(m.text, ' ')[1];
      var acts := HandleMessage(m, env);
      && (!env.users.up || id == "" ==> |acts| == 1)
      && (env.users.up && id != "" ==>
            && |acts| == 2 && SendsTo(acts[0], AdminOf(env.adminSetting))
            && (acts[0].text.StartReport? <==> exists d :: d in env.users.docs && Known(d, id)))
  {
    SplitCount(m.text, ' ');
    if ' ' in m.text {
      LookupMeaning(env.users, Split(m.text, ' ')[1]);
    }
  }

  /** Fewer than two spaces in a `/reply` text get the usage notice. */
  lemma ReplyUsageIff(text: string)
    ensures ParseReply(text).None? <==> multiset(text)[' '] < 2
  {
    SplitCount(text, ' ');
  }

  /** The first part of a split is a prefix of the text. */
  lemma {:induction false} SplitHeadPrefix(s: string, sep: char)
    ensures StartsWith(s, Split(s, sep)[0])
  {
  }

  /** `/reply` parsed from the parts and the first occurrence of the
      third. */
  lemma ParseReplyAt(text: string, target: string, w: string, at: nat)
    requires |Split(text, ' ')| >= 3 && Split(text, ' ')[1] == target && Split(text, ' ')[2] == w
    requires OccursAt(text, w, at) && forall i :: 0 <= i < at ==> !OccursAt(text, w, i)
    ensures ParseReply(text) == Some((target, text[at..]))
  {
    var r := IndexOf(text, w);
    assert r != -1;
    assert r == at;
  }

  /** `/reply <id> <answer>`: when the answer's first word does not occur
      earlier in the text, the target is the id and the answer is sent
      whole. */
  lemma ManualReplyOf(target: string, answer: string)
    requires ' ' !in target
    requires var text := "/reply " + target + " " + answer;
      forall i :: 0 <= i < 8 + |target| ==> !OccursAt(text, Split(answer, ' ')[0], i)
    ensures ParseReply("/reply " + target + " " + answer) == Some((target, answer))
  {
    var text := "/reply " + target + " " + answer;
    ReplyParts(target, answer);
    ReplyAnswerAt(target, answer);
    ParseReplyAt(text, target, Split(answer, ' ')[0], 8 + |target|);
  }

  lemma ReplyParts(target: string, answer: string)
    requires ' ' !in target
    ensures var parts := Split("/reply " + target + " " + answer, ' ');
      |parts| >= 3 && parts[1] == target && parts[2] == Split(answer, ' ')[0]
  {
    var text := "/reply " + target + " " + answer;
    assert ' ' !in "/reply";
    assert text == "/reply" + [' '] + (target + [' '] + answer);
    SplitCons("/reply", ' ', target + [' '] + answer);
    SplitCons(target, ' ', answer);
  }

  lemma ReplyAnswerAt(target: string, answer: string)
    ensures var text := "/reply " + target + " " + answer;
      text[8 + |target|..] == answer && OccursAt(text, Split(answer, ' ')[0], 8 + |target|)
  {
    var text := "/reply " + target + " " + answer;
    var w := Split(answer, ' ')[0];
    var p := 8 + |target|;
    SplitHeadPrefix(answer, ' ');
    assert text[p..] == answer;
    assert text[p..p + |w|] == answer[..|w|];
  }

  lemma SuffixFrom(a: string, b: string, rest: string, k: nat)
    requires k <= |b|
    ensures (a + b + rest)[|a| + k..] == b[k..] + rest
  {
  }

  lemma OccursInside(pre: string, mid: string, post: string, w: string, k: nat)
    requires OccursAt(mid, w, k)
    ensures OccursAt(pre + mid + post, w, |pre| + k)
  {
    assert (pre + mid + post)[|pre| + k..|pre| + k + |w|] == mid[k..k + |w|];
  }

  /** The answer begins at the first occurrence of its first word, which
      may lie inside the id: answering user 123 with "2 hi" sends
      "23 2 hi", not "2 hi". */
  lemma ManualReplyQuirk(target: string, answer: string, k: nat)
    requires ' ' !in target && OccursAt(target, Split(answer, ' ')[0], k)
    requires forall i :: 0 <= i < 7 + k ==> !OccursAt("/reply " + target + " " + answer, Split(answer, ' ')[0], i)
    ensures ParseReply("/reply " + target + " " + answer) == Some((target, target[k..] + " " + answer))
    ensures ParseReply("/reply " + target + " " + answer).value.1 != answer
  {
    var text := "/reply " + target + " " + answer;
    var w := Split(answer, ' ')[0];
    ReplyParts(target, answer);
    SuffixFrom("/reply ", target, " " + answer, k);
    ConcatAssoc("/reply " + target, " ", answer);
    assert text[7 + k..] == target[k..] + (" " + answer);
    assert text == "/reply " + target + (" " + answer);
    OccursInside("/reply ", target, " " + answer, w, k);
    ParseReplyAt(text, target, w, 7 + k);
    ConcatAssoc(target[k..], " ", answer);
  }

  /** Only the administrator's messages reach users: any other sender's
      message sends no answer. */
  lemma OnlyAdminAnswers(m: SupportMessage, env: SupportEnv)
    requires m.chat != AdminOf(env.adminSetting)
    ensures forall a :: a in HandleMessage(m, env) ==> !(a.SendMessage? && a.text.AnswerToUser?)
  {
  }

  /** The administrator's `/reply`: the usage notice alone when it does not
      parse, else the answer to the target and a confirmation that holds
      exactly when Telegram accepted the answer. */
  lemma ManualReplyEffect(m: SupportMessage, env: SupportEnv)
    requires m.chat == AdminOf(env.adminSetting) && StartsWith(m.text, "/reply")
    ensures ParseReply(m.text).None? ==>
      HandleMessage(m, env) == [SendMessage(AdminOf(env.adminSetting), ReplyUsage, None)]
    ensures ParseReply(m.text).Some? ==>
      var target := ParseReply(m.text).value.0;
      && |HandleMessage(m, env)| == 2
      && HandleMessage(m, env)[0] == SendMessage(target, AnswerToUser(ParseReply(m.text).value.1), None)
      && (HandleMessage(m, env)[1].text == ManualSent(target) <==> env.userSend == Answered(true))
  {
    PrefixesDiffer(m.text, "/reply", "/start", 1);
  }

  /** The administrator's reply to a message: sent to the forwarded
      message's original sender when known, else to the id in the text;
      with neither, only a notice to the administrator. */
  lemma ReplyToEffect(m: SupportMessage, env: SupportEnv)
    requires m.chat == AdminOf(env.adminSetting) && m.replyTo.Some?
    requires !StartsWith(m.text, "/start") && !StartsWith(m.text, "/reply")
    ensures m.replyTo.value.forwardFrom.Some? ==> ReplyTarget(m.replyTo.value) == m.replyTo.value.forwardFrom
    ensures ReplyTarget(m.replyTo.value).None? ==>
      HandleMessage(m, env) == [SendMessage(AdminOf(env.adminSetting), NoTarget, None)]
    ensures ReplyTarget(m.replyTo.value).Some? ==>
      && |HandleMessage(m, env)| == 2
      && HandleMessage(m, env)[0] == SendMessage(ReplyTarget(m.replyTo.value).value, AnswerToUser(Shown(m.text)), None)
      && (HandleMessage(m, env)[1].text == ReplySent <==> env.userSend == Answered(true))
  {
  }

  lemma {:induction false} IdFromSkips(s: string, i: nat, p: nat)
    requires i <= p && p + 4 < |s|
    requires forall j :: i <= j < p ==> !OccursAt(s, IdLabel, j)
    ensures IdFrom(s, i) == IdFrom(s, p)
    decreases p - i
  {
    if i < p {
      assert !OccursAt(s, IdLabel, i);
      IdFromSkips(s, i + 1, p);
    }
  }

  /** The id in a report is found again: when the first `ID: ` of a text is
      followed by the id and then by something other than a digit, the id
      is what a reply to that text is sent to. */
  lemma IdInTextOf(pre: string, id: string, post: string)
    requires id != "" && AllDigits(id) && (post == "" || !IsDigit(post[0]))
    requires forall i :: 0 <= i < |pre| ==> !OccursAt(pre + IdLabel + id + post, IdLabel, i)
    ensures IdInText(pre + IdLabel + id + post) == Some(id)
  {
    var s := pre + IdLabel + id + post;
    IdAfterLabel(pre, id, post);
    IdFromSkips(s, 0, |pre|);
    IdFromAt(s, |pre|);
  }

  /** In `pre + "ID: " + id + post` the label sits right after `pre`, and
      the digit run after it is the id. */
  lemma IdAfterLabel(pre: string, id: string, post: string)
    requires id != "" && AllDigits(id) && (post == "" || !IsDigit(post[0]))
    ensures var s, p := pre + IdLabel + id + post, |pre|;
      p + 4 < |s| && s[p..p + 4] == IdLabel && IsDigit(s[p + 4])
      && s[p + 4..p + 4 + DigitRun(s[p + 4..])] == id
  {
    var s := pre + IdLabel + id + post;
    var p := |pre|;
    assert s[p..p + 4] == IdLabel;
    assert s[p + 4..] == id + post;
    assert s[p + 4] == id[0];
    DigitRunOf(id, post);
    assert s[p + 4..p + 4 + |id|] == id;
  }

  /** At an `ID: ` followed by a digit the search takes the digit run. */
  lemma IdFromAt(s: string, p: nat)
    requires p + 4 < |s| && s[p..p + 4] == IdLabel && IsDigit(s[p + 4])
    ensures IdFrom(s, p) == Some(s[p + 4..p + 4 + DigitRun(s[p + 4..])])
  {
  }

  /** The digits of an id followed by a non-digit are exactly the id. */
  lemma {:induction false} DigitRunOf(id: string, post: string)
    requires AllDigits(id) && (post == "" || !IsDigit(post[0]))
    ensures DigitRun(id + post) == |id|
    decreases |id|
  {
    if |id| > 0 {
      assert (id + post)[0] == id[0];
      assert (id + post)[1..] == id[1..] + post;
      DigitRunOf(id[1..], post);
    } else {
      assert id + post == post;
    }
  }

  /** A user's message: the administrator first gets what is known of the
      sender, then the forward, then the note on a hidden sender exactly
      when the forward went through without revealing them; the sender is
      acknowledged unless the forward threw. */
  lemma ForwardEffect(m: SupportMessage, env: SupportEnv)
    requires m.chat != AdminOf(env.adminSetting) && !StartsWith(m.text, "/start")
    ensures var acts := HandleMessage(m, env);
      var admin := AdminOf(env.adminSetting);
      && |acts| >= 2
      && acts[0] == SendMessage(admin, SenderInfo(m.chat, env.users), None)
      && acts[1] == ForwardMessage(admin, m.chat, m.messageId)
      && (SendMessage(admin, HiddenSender, None) in acts <==> env.forward == Forwarded(false))
      && (env.forward.ForwardThrew? <==> |acts| == 2)
      && (!env.forward.ForwardThrew? ==>
            acts[|acts| - 1] == SendMessage(m.chat, Acknowledged(Or(m.firstName, GuestName)), None))
  {
  }

  /** The administrator's other messages do nothing. */
  lemma AdminOtherwiseSilent(m: SupportMessage, env: SupportEnv)
    requires m.chat == AdminOf(env.adminSetting) && m.replyTo.None?
    requires !StartsWith(m.text, "/start") && !StartsWith(m.text, "/reply")
    ensures HandleMessage(m, env) == []
  {
  }
}
