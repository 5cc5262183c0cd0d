/** What the handlers ask of the Telegram Bot API, as values: each outbound
    call is one `Action`, and a handler's effect is the ordered list of the
    actions it issues. `M` is the bot's own set of message templates. */
module Telegram {
  import opened JsStrings

  /** An inline-keyboard button. */
  datatype Button =
    | UrlButton(text: string, url: string)
    | CallbackButton(text: string, data: string)
    | WebAppButton(text: string, url: string)

  /** `inline_keyboard`: a list of rows. */
  type Keyboard = seq<seq<Button>>

  datatype Action<M> =
      /** `sendMessage` (HTML parse mode), with `reply_markup` when present. */
    | SendMessage(chat: string, text: M, markup: Option<Keyboard>)
      /** `answerCallbackQuery`, with an optional notice and `show_alert`. */
    | AnswerCallback(callbackId: string, notice: Option<M>, showAlert: bool)
      /** `setChatMenuButton` with a web-app button. */
    | SetMenuButton(chat: string, buttonText: string, url: string)
      /** `forwardMessage` from `fromChat` into `chat`. */
    | ForwardMessage(chat: string, fromChat: string, messageId: int)
      /** `sendDocument` of a file holding `content`. */
    | SendDocument(chat: string, content: string)

  /** The `from` field of a message or callback query; an absent field is "". */
  datatype User = User(firstName: string, username: string, languageCode: string)

  predicate SendsTo<M>(a: Action<M>, chat: string) {
    a.SendMessage? && a.chat == chat
  }
}
