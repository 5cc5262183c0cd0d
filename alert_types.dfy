/** The vocabulary of the main alert bot (api/services/send_alert.js): what
    arrives at the webhook, what the handler reads (the admin id, the
    maintenance setting, the users collection, the outcome of each
    `/mreply` send), the messages it sends and what it answers. */
module AlertTypes {
  import opened JsStrings
  import opened Store
  import opened Telegram

  // ---------------------------------------------------------------------
  // Inbound
  // ---------------------------------------------------------------------

  /** A Telegram callback query: its id, the chat of the message carrying
      the button, the button's data ("" when absent) and the sender. */
  datatype Callback = Callback(id: string, chat: string, data: string, from: User)

  /** A Telegram message; `text` is "" when the message has none. */
  datatype Message = Message(chat: string, text: string, from: User)

  /** The `message` field of the body: absent, a string (a Mini App relay)
      or a Telegram message. */
  datatype MessageField = NoMessage | StringMessage(s: string) | UpdateMessage(m: Message)

  /** The parsed JSON body; `customChatId` is "" when absent or falsy. */
  datatype Body = Body(message: MessageField, callback: Option<Callback>, customChatId: string)

  /** The request body: missing, not JSON, or a JSON object. */
  datatype Request = EmptyBody | Unparsable | Json(body: Body)

  /** A Telegram update reduced to what the handler reads from it. For a
      callback, `text` is the button data. */
  datatype Update = Update(isCallback: bool, callbackId: string, chat: string, text: string, user: User)

  // ---------------------------------------------------------------------
  // What the handler reads
  // ---------------------------------------------------------------------

  /** The `settings/bot_config` document: unreadable (the read throws),
      missing, or present with its `maintenance_mode`. */
  datatype Settings = Unreadable | NoConfig | Config(maintenance: bool)

  /** What one `/mreply` `sendMessage` came back with: `ok`, a refusal with
      Telegram's `description`, or a thrown network error. */
  datatype SendOutcome = Delivered | Refused(description: string) | NetworkFailure

  /** The environment of one request. `admin` is the ADMIN_ID setting ("" when
      unset); `massReplyOutcomes[k]` is the outcome of the k-th `/mreply`
      send (a send past its end is delivered); `encodeUri` is
      `encodeURIComponent`, which the model treats as opaque. */
  datatype Env = Env(
    admin: string,
    settings: Settings,
    users: Users,
    massReplyOutcomes: seq<SendOutcome>,
    encodeUri: string -> string)

  // ---------------------------------------------------------------------
  // Outbound
  // ---------------------------------------------------------------------

  /** The messages the bot sends, each with the values interpolated into
      it. The fixed Amharic wording is not reproduced. */
  datatype Text =
    | Raw(body: string)                                   // relayed or broadcast text
    | MaintenanceNotice                                   // maintenance notice to a user
    | MaintenanceAlert                                    // maintenance alert on a button press
    | AnswerRecorded(name: string, answer: string)        // confirmation to the voter
    | AnswerReport(name: string, answer: string)          // new answer, to the admin
    | RegisterFirst                                       // share pressed by an unknown user
    | InviteReady                                         // share pressed: answer to the press
    | Invitation(refLink: string)                         // the invitation text with the link
    | MaintenanceOn
    | MaintenanceOff
    | Stats(total: int, banned: int, active: int)
    | StatsFailed
    | CheckUserUsage
    | UserNotFound(id: string)
    | UserCard(name: string, id: string, score: int, rank: int, invites: int, isBanned: bool, invitedBy: string)
    | LookupFailed
    | BroadcastDone
    | MassReplyUsage
    | MassReplySending
    | MassReply(body: string)                             // "Smart Airdrop:" heading, then the body
    | MassReplySummary(delivered: nat, failed: nat, errors: Option<string>)
    | NewUser(chat: string, name: string, username: string, language: string, referrer: string)
    | ReferrerNotice(handle: string)
    | Welcome

  /** The text of the HTTP response; the status code is 200 on every path. */
  datatype ReplyBody = NoBodyText | OkText | SuccessJson | MaintenanceMode | MissingIdText
                     | UserNotFoundText | InvalidSyntaxText | ErrorText

  /** What one request does: the Telegram calls in order, the value merged
      into `maintenance_mode` if any, and the response text. */
  datatype Response = Response(actions: seq<Action<Text>>, maintenanceWrite: Option<bool>, body: ReplyBody)

  // ---------------------------------------------------------------------
  // Constants and shared helpers
  // ---------------------------------------------------------------------

  /** The default names: "friend" and "unknown". */
  const FriendName := "ወዳጄ"
  const UnknownName := "ያልታወቀ"
  /** "came by himself": the referrer label when there is none. */
  const NoReferrerLabel := "በራሱ የመጣ"
  const SelfReferrerLabel := "በራሱ የመጣ (Self)"

  const ShareData := "check_and_share"
  const MiniAppUrl := "https://newsmartgame.netlify.app/"
  const ChannelUrl := "https://t.me/Smart_Airdropss"
  const BotUsername := "Smartgame21_bot"

  /** `sendToAdmin`: nothing when ADMIN_ID is unset, else one message to
      the admin; a failed send is swallowed. */
  function ToAdmin(admin: string, t: Text): seq<Action<Text>> {
    if admin == "" then [] else [SendMessage(admin, t, None)]
  }

  /** A response that only sends, writes nothing and answers "OK". */
  function Sent(actions: seq<Action<Text>>): Response {
    Response(actions, None, OkText)
  }
}
