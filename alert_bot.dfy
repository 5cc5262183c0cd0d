/** The webhook handler of the main alert bot (api/services/send_alert.js):
    the Mini App relay, the maintenance gate, the answer and share buttons,
    the administrator's commands and `/start` with its referral link. */
module AlertBot {
  import opened JsStrings
  import opened Store
  import opened Telegram
  import opened Markup
  import opened AlertTypes
  import opened AlertAdmin

  // ---------------------------------------------------------------------
  // Dispatch on the body
  // ---------------------------------------------------------------------

  /** What a parsed body asks for: a Mini App relay of a text to a chat,
      nothing, or the handling of a Telegram update. */
  datatype Route = Relay(text: string, target: string) | Ignore | Tg(u: Update)

  /** A non-empty string `message` is relayed to `custom_chat_id`, else to
      ADMIN_ID; otherwise a callback query is preferred to a message, and
      a body with neither is ignored. */
  function Classify(b: Body, admin: string): Route {
    if b.message.StringMessage? && b.message.s != "" then Relay(b.message.s, Or(b.customChatId, admin))
    else if b.callback.Some? then
      var c := b.callback.value;
      Tg(Update(true, c.id, c.chat, c.data, c.from))
    else if b.message.UpdateMessage? then
      var m := b.message.m;
      Tg(Update(false, "", m.chat, m.text, m.from))
    else Ignore
  }

  /** The handler: no body, a body that is not JSON, a relay, or an update. */
  function Handle(req: Request, env: Env): Response {
    match req
    case EmptyBody => Response([], None, NoBodyText)
    case Unparsable => Response([], None, ErrorText)
    case Json(b) =>
      match Classify(b, env.admin)
      case Relay(text, target) => Response([SendMessage(target, Raw(text), None)], None, SuccessJson)
      case Ignore => Sent([])
      case Tg(u) => HandleUpdate(u, env)
  }

  // ---------------------------------------------------------------------
  // The maintenance gate
  // ---------------------------------------------------------------------

  /** `String(ADMIN_ID)`: "undefined" when the setting is unset. */
  function AdminChat(admin: string): string {
    if admin == "" then "undefined" else admin
  }

  predicate IsAdmin(chat: string, admin: string) {
    chat == AdminChat(admin)
  }

  /** Maintenance is on and the sender is not the administrator. */
  predicate Blocked(u: Update, env: Env) {
    env.settings == Config(true) && !IsAdmin(u.chat, env.admin)
  }

  /** The notice a blocked user gets: an alert on a button press, else a
      message. */
  function MaintenanceReply(u: Update): Action<Text> {
    if u.isCallback then AnswerCallback(u.callbackId, Some(MaintenanceAlert), true)
    else SendMessage(u.chat, MaintenanceNotice, None)
  }

  /** An update: the settings read, the gate, then the handlers in order. */
  function HandleUpdate(u: Update, env: Env): Response {
    if env.settings.Unreadable? then Response([], None, ErrorText)
    else if Blocked(u, env) then Response([MaintenanceReply(u)], None, MaintenanceMode)
    else Dispatch(u, env)
  }

  /** The handlers past the gate, tried in order: an answer button, the
      share button, an administrator's command, `/start`; anything else is
      acknowledged and dropped. */
  function Dispatch(u: Update, env: Env): Response {
    if u.isCallback && StartsWith(u.text, AnsPrefix) then RecordAnswer(u, env)
    else if u.isCallback && u.text == ShareData then Share(u, env)
    else if IsAdmin(u.chat, env.admin) && AdminCommand(u.text, env).Some? then AdminCommand(u.text, env).value
    else if StartsWith(u.text, "/start") then Start(u, env)
    else Sent([])
  }

  // ---------------------------------------------------------------------
  // Answer buttons
  // ---------------------------------------------------------------------

  /** A press on an answer button: the confirmation to the voter, the
      report to the administrator, then the press is answered silently. */
  function RecordAnswer(u: Update, env: Env): Response {
    var name := Or(u.user.firstName, FriendName);
    var answer := AnswerOf(u.text);
    Sent([SendMessage(u.chat, AnswerRecorded(name, answer), None)]
         + ToAdmin(env.admin, AnswerReport(name, answer))
         + [AnswerCallback(u.callbackId, None, false)])
  }

  // ---------------------------------------------------------------------
  // The share button
  // ---------------------------------------------------------------------

  /** The referral link of a chat. */
  function RefLink(chat: string): string {
    "https://t.me/" + BotUsername + "?start=" + chat
  }

  const ShareCaption := "🔥 አዲስ የቴሌግራም Airdrop እንዳያመልጥዎ! አሁኑኑ ይጀምሩ!"
  const SendToFriendLabel := "🚀 አሁኑኑ ለጓደኛ ላክ"

  /** Telegram's share dialog for the link, with the caption. */
  function ShareUrl(link: string, encodeUri: string -> string): string {
    "https://t.me/share/url?url=" + encodeUri(link) + "&text=" + encodeUri(ShareCaption)
  }

  /** A press on the share button: a registered user gets the invitation
      with their link and a button to forward it; anyone else an alert to
      register first. */
  function Share(u: Update, env: Env): Response {
    match UserExists(env.users, u.chat)
    case Threw => Response([], None, ErrorText)
    case Got(registered) =>
      if !registered then Sent([AnswerCallback(u.callbackId, Some(RegisterFirst), true)])
      else
        var link := RefLink(u.chat);
        Sent([AnswerCallback(u.callbackId, Some(InviteReady), false),
              SendMessage(u.chat, Invitation(link), Some([[UrlButton(SendToFriendLabel, ShareUrl(link, env.encodeUri))]]))])
  }

  // ---------------------------------------------------------------------
  // /start
  // ---------------------------------------------------------------------

  /** The second space-separated word of the text, if any. */
  function RawReferrer(text: string): Option<string> {
    var parts := Split(text, ' ');
    if |parts| > 1 then Some(parts[1]) else None
  }

  /** The referrer passed to the Mini App: a non-empty run of digits that
      is not the user's own id. */
  function ReferrerForApp(text: string, chat: string): Option<string> {
    var raw := RawReferrer(text);
    if raw.Some? && raw.value != "" && AllDigits(raw.value) && raw.value != chat then raw else None
  }

  /** The referrer as the administrator's report shows it. */
  function ReferrerLabel(text: string, chat: string): string {
    var referrer := ReferrerForApp(text, chat);
    if referrer.Some? then referrer.value
    else if RawReferrer(text) == Some(chat) then SelfReferrerLabel
    else NoReferrerLabel
  }

  /** The Mini App address, carrying the referrer as its start parameter. */
  function PlayUrl(referrer: Option<string>): string {
    if referrer.Some? then MiniAppUrl + "?tgWebAppStartParam=" + referrer.value else MiniAppUrl
  }

  const PlayLabel := "Play Now 🚀"
  const NoUsername := "የለውም"

  /** The welcome keyboard: the channel, the share button, the game. */
  function WelcomeKeyboard(referrer: Option<string>): Keyboard {
    [[UrlButton("📢 Official Channel", ChannelUrl)],
     [CallbackButton("🔗 Share (ጓደኞችን ይጋብዙ)", ShareData)],
     [WebAppButton("🚀 Play Now ", PlayUrl(referrer))]]
  }

  /** The report on a newcomer, and the notice to the referrer if any. */
  function Announce(u: Update, env: Env, referrer: Option<string>): (r: seq<Action<Text>>)
    ensures forall a :: a in r ==> a.SendMessage?
  {
    var card := NewUser(u.chat, Or(u.user.firstName, UnknownName),
                        if u.user.username != "" then "@" + u.user.username else NoUsername,
                        Or(u.user.languageCode, UnknownName), ReferrerLabel(u.text, u.chat));
    ToAdmin(env.admin, card)
    + (if referrer.Some? then [SendMessage(referrer.value, ReferrerNotice(Or(u.user.username, u.user.firstName)), None)] else [])
  }

  /** `/start`: a newcomer is announced; with a referrer the menu button is
      set to open the game with it; everyone gets the welcome. Nothing is
      written. */
  function Start(u: Update, env: Env): Response {
    var referrer := ReferrerForApp(u.text, u.chat);
    match UserExists(env.users, u.chat)
    case Threw => Response([], None, ErrorText)
    case Got(registered) =>
      Sent((if registered then [] else Announce(u, env, referrer))
           + (if referrer.Some? then [SetMenuButton(u.chat, PlayLabel, PlayUrl(referrer))] else [])
           + [SendMessage(u.chat, Welcome, Some(WelcomeKeyboard(referrer)))])
  }

  // ---------------------------------------------------------------------
  // Properties
  // ---------------------------------------------------------------------

  /** A text starting with `/start` is no administrator's command and no
      button's data the handler knows. */
  lemma StartIsNoCommand(text: string, env: Env)
    requires StartsWith(text, "/start")
    ensures AdminCommand(text, env).None?
    ensures !StartsWith(text, AnsPrefix) && text != ShareData
  {
    PrefixesDiffer(text, "/start", "/maintenance on", 1);
    PrefixesDiffer(text, "/start", "/maintenance off", 1);
    PrefixesDiffer(text, "/start", "/stats", 4);
    PrefixesDiffer(text, "/start", "/export", 1);
    PrefixesDiffer(text, "/start", "/check_user", 1);
    PrefixesDiffer(text, "/start", "/broadcast", 1);
    PrefixesDiffer(text, "/start", "/mreply", 1);
    PrefixesDiffer(text, "/start", AnsPrefix, 0);
    PrefixesDiffer(text, "/start", ShareData, 0);
  }

  /** Only the gate answers "Maintenance Mode": it does so exactly for a
      user other than the administrator while maintenance is on, with the
      single notice addressed to that user and no write. */
  lemma GateIffBlocked(u: Update, env: Env)
    ensures HandleUpdate(u, env).body == MaintenanceMode <==> !env.settings.Unreadable? && Blocked(u, env)
    ensures HandleUpdate(u, env).body == MaintenanceMode ==>
      HandleUpdate(u, env).actions == [MaintenanceReply(u)] && HandleUpdate(u, env).maintenanceWrite == None &&
      (SendsTo(MaintenanceReply(u), u.chat) || MaintenanceReply(u).AnswerCallback?)
  {
    if !env.settings.Unreadable? && !Blocked(u, env) {
      DispatchNotMaintenance(u, env);
    }
  }

  lemma DispatchNotMaintenance(u: Update, env: Env)
    ensures Dispatch(u, env).body != MaintenanceMode
  {
    if !(u.isCallback && StartsWith(u.text, AnsPrefix)) && !(u.isCallback && u.text == ShareData)
       && IsAdmin(u.chat, env.admin) && AdminCommand(u.text, env).Some? {
      AdminNotMaintenance(u.text, env);
    }
  }

  lemma AdminNotMaintenance(text: string, env: Env)
    requires AdminCommand(text, env).Some?
    ensures AdminCommand(text, env).value.body != MaintenanceMode
  {
  }

  /** The texts only the administrator's commands send: maintenance
      switches, statistics, user cards, broadcasts and mass replies. */
  predicate AdminOnlyText(t: Text) {
    t.MaintenanceOn? || t.MaintenanceOff? || t.Stats? || t.StatsFailed? || t.CheckUserUsage?
    || t.UserNotFound? || t.UserCard? || t.LookupFailed? || t.BroadcastDone? || t.Raw?
    || t.MassReplyUsage? || t.MassReplySending? || t.MassReply? || t.MassReplySummary?
  }

  /** Every message goes to the sender, the administrator or the
      referrer named in the text, and carries no administrator's output. */
  predicate OrdinaryMessages(r: Response, u: Update, env: Env) {
    forall a :: a in r.actions && a.SendMessage? ==>
      (a.chat == u.chat || a.chat == env.admin || Some(a.chat) == ReferrerForApp(u.text, u.chat))
      && !AdminOnlyText(a.text)
  }

  /** The administrator's commands run only for the administrator: any
      other sender causes no write, gets no export, and every message the
      update causes goes to that sender, the administrator or the referrer
      of `/start`, with none of the commands' replies. */
  lemma OthersCannotCommand(u: Update, env: Env)
    requires !IsAdmin(u.chat, env.admin)
    ensures HandleUpdate(u, env).maintenanceWrite == None
    ensures forall a :: a in HandleUpdate(u, env).actions ==> !a.SendDocument?
    ensures OrdinaryMessages(HandleUpdate(u, env), u, env)
  {
    if !env.settings.Unreadable? && !Blocked(u, env) {
      DispatchOthers(u, env);
    }
  }

  /** Past the gate, another sender reaches only the buttons and `/start`. */
  lemma DispatchOthers(u: Update, env: Env)
    requires !IsAdmin(u.chat, env.admin)
    ensures Harmless(Dispatch(u, env)) && OrdinaryMessages(Dispatch(u, env), u, env)
  {
    if u.isCallback && StartsWith(u.text, AnsPrefix) {
      RecordAnswerOrdinary(u, env);
    } else if u.isCallback && u.text == ShareData {
      ShareOrdinary(u, env);
    } else if StartsWith(u.text, "/start") {
      StartHarmless(u, env);
      StartOrdinary(u, env);
    }
  }

  /** An answer press messages only the voter and the administrator. */
  lemma RecordAnswerOrdinary(u: Update, env: Env)
    ensures Harmless(RecordAnswer(u, env)) && OrdinaryMessages(RecordAnswer(u, env), u, env)
  {
  }

  /** A share press messages only the user who pressed it. */
  lemma ShareOrdinary(u: Update, env: Env)
    ensures Harmless(Share(u, env)) && OrdinaryMessages(Share(u, env), u, env)
  {
  }

  /** `/start` messages only the user, the administrator and the referrer. */
  lemma StartOrdinary(u: Update, env: Env)
    ensures OrdinaryMessages(Start(u, env), u, env)
  {
    var referrer := ReferrerForApp(u.text, u.chat);
    if UserExists(env.users, u.chat).Got? {
      var announce := if UserExists(env.users, u.chat).value then [] else Announce(u, env, referrer);
      var menu := if referrer.Some? then [SetMenuButton(u.chat, PlayLabel, PlayUrl(referrer))] else [];
      var welcome := [SendMessage(u.chat, Welcome, Some(WelcomeKeyboard(referrer)))];
      AnnounceOrdinary(u, env, referrer);
      assert Start(u, env).actions == announce + menu + welcome;
    }
  }

  /** A newcomer is announced to the administrator and the referrer only. */
  lemma AnnounceOrdinary(u: Update, env: Env, referrer: Option<string>)
    ensures forall a :: a in Announce(u, env, referrer) ==>
      a.SendMessage? && (a.chat == env.admin || Some(a.chat) == referrer) && !AdminOnlyText(a.text)
  {
  }

  /** Writes nothing and sends no file. */
  predicate Harmless(r: Response) {
    r.maintenanceWrite == None && forall a :: a in r.actions ==> !a.SendDocument?
  }

  lemma StartHarmless(u: Update, env: Env)
    ensures Harmless(Start(u, env))
  {
    var referrer := ReferrerForApp(u.text, u.chat);
    var announce := Announce(u, env, referrer);
    assert forall a :: a in announce ==> a.SendMessage?;
  }

  /** The one write, to `maintenance_mode`, happens only on the exact
      `/maintenance on` or `/maintenance off` text from the administrator. */
  lemma WriteOnlyBySwitch(req: Request, env: Env)
    ensures Handle(req, env).maintenanceWrite.Some? ==>
      && req.Json? && Classify(req.body, env.admin).Tg?
      && IsAdmin(Classify(req.body, env.admin).u.chat, env.admin)
      && Classify(req.body, env.admin).u.text
         == (if Handle(req, env).maintenanceWrite.value then "/maintenance on" else "/maintenance off")
  {
    if req.Json? && Classify(req.body, env.admin).Tg? {
      var u := Classify(req.body, env.admin).u;
      if !env.settings.Unreadable? && !Blocked(u, env) {
        if !IsAdmin(u.chat, env.admin) {
          OthersCannotCommand(u, env);
        }
      }
    }
  }

  /** `settings/bot_config` after a merge of `maintenance_mode`. */
  function Merged(s: Settings, write: Option<bool>): Settings {
    if write.Some? then Config(write.value) else s
  }

  /** The administrator's switch: it writes the mode, reports it, and from
      then on the gate stops exactly the other users when the mode is on,
      and nobody when it is off. */
  lemma MaintenanceSwitch(u: Update, env: Env, on: bool)
    requires IsAdmin(u.chat, env.admin) && !env.settings.Unreadable?
    requires u.text == (if on then "/maintenance on" else "/maintenance off")
    ensures HandleUpdate(u, env).maintenanceWrite == Some(on)
    ensures HandleUpdate(u, env).actions == ToAdmin(env.admin, if on then MaintenanceOn else MaintenanceOff)
    ensures var after := env.(settings := Merged(env.settings, HandleUpdate(u, env).maintenanceWrite));
      forall w: Update :: Blocked(w, after) <==> on && !IsAdmin(w.chat, env.admin)
  {
    PrefixesDiffer(u.text, u.text, AnsPrefix, 0);
    PrefixesDiffer(u.text, u.text, ShareData, 0);
  }

  /** Pressing a button `/mreply` attached for an answer records the answer
      tag: the press goes to the answer handler, which reports the tag
      without its `ans_` prefix. */
  lemma AnswerButtonRecorded(content: string, row: seq<Button>, b: Button, u: Update, env: Env)
    requires row in Buttons(content).keyboard && b in row && b.CallbackButton?
    requires u.isCallback && u.text == b.data
    requires !env.settings.Unreadable? && !Blocked(u, env)
    ensures StartsWith(u.text, AnsPrefix)
    ensures HandleUpdate(u, env) == RecordAnswer(u, env)
    ensures HandleUpdate(u, env).actions[0] == SendMessage(u.chat, AnswerRecorded(Or(u.user.firstName, FriendName), u.text[|AnsPrefix|..]), None)
  {
    AnswerButtonsPrefixed(content);
    RemoveFirstPrefix(u.text, AnsPrefix);
  }

  /** An answer tag survives the round trip through a button: the data
      carries the prefix once, and the handler records the tag itself. */
  lemma AnswerRoundTrip(tag: string, u: Update, env: Env)
    requires !StartsWith(tag, AnsPrefix)
    requires u.isCallback && u.text == CallbackData(tag)
    requires !env.settings.Unreadable? && !Blocked(u, env)
    ensures HandleUpdate(u, env).actions ==
      [SendMessage(u.chat, AnswerRecorded(Or(u.user.firstName, FriendName), tag), None)]
      + ToAdmin(env.admin, AnswerReport(Or(u.user.firstName, FriendName), tag))
      + [AnswerCallback(u.callbackId, None, false)]
  {
    CallbackDataHasPrefix(tag);
    AnswerOfCallbackData(tag);
  }

  /** The invitation a user receives. */
  predicate Invites(r: Response, chat: string) {
    exists a :: a in r.actions && a.SendMessage? && a.chat == chat && a.text == Invitation(RefLink(chat))
  }

  /** The share button: the lookup fails exactly when the collection is
      unreadable or the chat id empty; otherwise the user gets their
      invitation exactly when some document registers them. */
  lemma ShareInvitesRegistered(u: Update, env: Env)
    requires u.isCallback && u.text == ShareData
    requires !env.settings.Unreadable? && !Blocked(u, env)
    ensures HandleUpdate(u, env).body == ErrorText <==> !env.users.up || u.chat == ""
    ensures env.users.up && u.chat != "" ==>
      (Invites(HandleUpdate(u, env), u.chat) <==> exists d :: d in env.users.docs && Registers(d, u.chat))
  {
    PrefixesDiffer(u.text, u.text, AnsPrefix, 0);
    UserExistsMeaning(env.users, u.chat);
    var r := HandleUpdate(u, env);
    if UserExists(env.users, u.chat) == Got(true) {
      assert r.actions[1] in r.actions;
    }
  }

  /** The welcome keyboard's only callback button is the share button. */
  lemma WelcomeSharesOnly(referrer: Option<string>)
    ensures forall row, b :: row in WelcomeKeyboard(referrer) && b in row && b.CallbackButton? ==> b.data == ShareData
    ensures exists row, b :: row in WelcomeKeyboard(referrer) && b in row && b.CallbackButton?
  {
    var kb := WelcomeKeyboard(referrer);
    assert kb[1] in kb && kb[1][0] in kb[1];
  }

  /** `/start <arg>`: the argument is the referrer exactly when it is a
      non-empty run of digits other than the user's own id; the report
      labels a self-referral as such. */
  lemma ReferralOf(arg: string, chat: string)
    requires ' ' !in arg
    ensures RawReferrer("/start " + arg) == Some(arg)
    ensures ReferrerForApp("/start " + arg, chat).Some? <==> arg != "" && AllDigits(arg) && arg != chat
    ensures ReferrerForApp("/start " + arg, chat).Some? ==> ReferrerForApp("/start " + arg, chat).value == arg
    ensures arg == chat ==> ReferrerLabel("/start " + arg, chat) == SelfReferrerLabel
    ensures arg != chat && ReferrerForApp("/start " + arg, chat).None? ==>
      ReferrerLabel("/start " + arg, chat) == NoReferrerLabel
  {
    assert ' ' !in "/start";
    assert "/start " + arg == "/start" + [' '] + arg;
    SplitCons("/start", ' ', arg);
    SplitNoSep(arg, ' ');
  }

  /** A user's referral link, opened by someone else, makes that user the
      newcomer's referrer and opens the game with it. */
  lemma InviteLinkRefers(inviter: string, newcomer: string)
    requires inviter != "" && AllDigits(inviter) && newcomer != inviter
    ensures RefLink(inviter) == "https://t.me/" + BotUsername + "?start=" + inviter
    ensures ReferrerForApp("/start " + inviter, newcomer) == Some(inviter)
    ensures PlayUrl(ReferrerForApp("/start " + inviter, newcomer)) == MiniAppUrl + "?tgWebAppStartParam=" + inviter
  {
    assert ' ' !in inviter by {
      forall i | 0 <= i < |inviter| ensures inviter[i] != ' ' {
        assert IsDigit(inviter[i]);
      }
    }
    ReferralOf(inviter, newcomer);
  }

  /** `/start` writes nothing, ends with the welcome, and only a user not
      yet registered is announced to the administrator and the referrer. */
  lemma StartEffect(u: Update, env: Env)
    requires StartsWith(u.text, "/start")
    requires !env.settings.Unreadable? && !Blocked(u, env)
    ensures HandleUpdate(u, env).maintenanceWrite == None
    ensures HandleUpdate(u, env).body == ErrorText <==> !env.users.up || u.chat == ""
    ensures HandleUpdate(u, env).body != ErrorText ==>
      var r := ReferrerForApp(u.text, u.chat);
      && |HandleUpdate(u, env).actions| > 0
      && HandleUpdate(u, env).actions[|HandleUpdate(u, env).actions| - 1]
         == SendMessage(u.chat, Welcome, Some(WelcomeKeyboard(r)))
    ensures UserExists(env.users, u.chat) == Got(true) ==>
      var r := ReferrerForApp(u.text, u.chat);
      HandleUpdate(u, env).actions
      == (if r.Some? then [SetMenuButton(u.chat, PlayLabel, PlayUrl(r))] else [])
         + [SendMessage(u.chat, Welcome, Some(WelcomeKeyboard(r)))]
    ensures UserExists(env.users, u.chat) == Got(true) ==>
      forall a :: a in HandleUpdate(u, env).actions ==> a.SendMessage? || a.SetMenuButton?
    ensures UserExists(env.users, u.chat) == Got(true) ==>
      forall a :: a in HandleUpdate(u, env).actions ==> a.chat == u.chat
  {
    StartIsNoCommand(u.text, env);
    UserExistsMeaning(env.users, u.chat);
  }

  /** A newcomer is announced: the administrator, when set, gets the card,
      and the referrer, when valid, gets the notice. */
  lemma NewcomerAnnounced(u: Update, env: Env)
    requires StartsWith(u.text, "/start")
    requires !env.settings.Unreadable? && !Blocked(u, env)
    requires UserExists(env.users, u.chat) == Got(false)
    ensures env.admin != "" ==>
      SendMessage(env.admin, NewUser(u.chat, Or(u.user.firstName, UnknownName),
                                     if u.user.username != "" then "@" + u.user.username else NoUsername,
                                     Or(u.user.languageCode, UnknownName), ReferrerLabel(u.text, u.chat)), None)
      in HandleUpdate(u, env).actions
    ensures ReferrerForApp(u.text, u.chat).Some? ==>
      SendMessage(ReferrerForApp(u.text, u.chat).value, ReferrerNotice(Or(u.user.username, u.user.firstName)), None)
      in HandleUpdate(u, env).actions
  {
    StartIsNoCommand(u.text, env);
  }

  /** With `/start` past the gate, the menu button is set exactly when there
      is a referrer, whether or not the user is registered, and it opens
      the game with that referrer. */
  lemma MenuButtonFollowsReferrer(u: Update, env: Env)
    requires StartsWith(u.text, "/start")
    requires !env.settings.Unreadable? && !Blocked(u, env)
    requires env.users.up && u.chat != ""
    ensures var r := ReferrerForApp(u.text, u.chat);
      (exists a :: a in HandleUpdate(u, env).actions && a.SetMenuButton?) <==> r.Some?
    ensures forall a :: a in HandleUpdate(u, env).actions && a.SetMenuButton? ==>
      a == SetMenuButton(u.chat, PlayLabel, PlayUrl(ReferrerForApp(u.text, u.chat)))
  {
    StartIsNoCommand(u.text, env);
    UserExistsMeaning(env.users, u.chat);
    assert HandleUpdate(u, env) == Start(u, env);
    StartMenu(u, env);
  }

  lemma StartMenu(u: Update, env: Env)
    requires UserExists(env.users, u.chat).Got?
    ensures var r := ReferrerForApp(u.text, u.chat);
      (exists a :: a in Start(u, env).actions && a.SetMenuButton?) <==> r.Some?
    ensures forall a :: a in Start(u, env).actions && a.SetMenuButton? ==>
      a == SetMenuButton(u.chat, PlayLabel, PlayUrl(ReferrerForApp(u.text, u.chat)))
  {
    var r := ReferrerForApp(u.text, u.chat);
    var announce := if UserExists(env.users, u.chat).value then [] else Announce(u, env, r);
    var m := SetMenuButton(u.chat, PlayLabel, PlayUrl(r));
    var menu := if r.Some? then [m] else [];
    var last := SendMessage(u.chat, Welcome, Some(WelcomeKeyboard(r)));
    assert Start(u, env).actions == announce + menu + [last];
    MenuAmong(announce, menu, last, m, r.Some?);
  }

  /** Among messages, an optional menu button and a last message, the
      menu button is the only one. */
  lemma MenuAmong(announce: seq<Action<Text>>, menu: seq<Action<Text>>, last: Action<Text>,
                  m: Action<Text>, present: bool)
    requires forall a :: a in announce ==> a.SendMessage?
    requires last.SendMessage? && m.SetMenuButton?
    requires menu == (if present then [m] else [])
    ensures (exists a :: a in announce + menu + [last] && a.SetMenuButton?) <==> present
    ensures forall a :: a in announce + menu + [last] && a.SetMenuButton? ==> a == m
  {
    var acts := announce + menu + [last];
    if present {
      assert acts[|announce|] == m;
    }
  }

  /** An empty body, and a body with neither a relayed text nor an update,
      cause no call and no write. */
  lemma NothingToHandle(req: Request, env: Env)
    requires req.EmptyBody? ||
      (req.Json? && req.body.callback.None? && !req.body.message.UpdateMessage?
       && !(req.body.message.StringMessage? && req.body.message.s != ""))
    ensures Handle(req, env).actions == [] && Handle(req, env).maintenanceWrite == None
    ensures req.EmptyBody? ==> Handle(req, env).body == NoBodyText
    ensures req.Json? ==> Handle(req, env).body == OkText
  {
  }

  /** A callback query is handled in preference to a message in the same
      body, unless the message is a relayed text. */
  lemma CallbackPreferred(b: Body, env: Env)
    requires b.callback.Some? && !(b.message.StringMessage? && b.message.s != "")
    ensures var c := b.callback.value;
      Handle(Json(b), env) == HandleUpdate(Update(true, c.id, c.chat, c.data, c.from), env)
  {
  }

  /** A relay bypasses the gate and the database: one message to
      `custom_chat_id`, else to the administrator, and success. */
  lemma RelayIgnoresState(b: Body, env: Env)
    requires b.message.StringMessage? && b.message.s != ""
    ensures Handle(Json(b), env).actions == [SendMessage(Or(b.customChatId, env.admin), Raw(b.message.s), None)]
    ensures Handle(Json(b), env).body == SuccessJson && Handle(Json(b), env).maintenanceWrite == None
  {
  }
}
