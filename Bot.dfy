/**
 * The aiogram bot's relay of a manager's reply in the staff group back to
 * the user who asked. Sending is replaced by the decision to send: the
 * handler either forwards one reply, or does nothing.
 */
module Bot {
  import opened Wrappers
  import opened PyText
  import opened QuestionFormat

  datatype Chat = Chat(id: int, kind: string)

  /** The message a reply answers; photos and stickers carry no text. */
  datatype RepliedTo = RepliedTo(text: Option<string>)

  /** An incoming Telegram message, reduced to what the handler reads. */
  datatype Message = Message(chat: Chat, text: Option<string>, replyTo: Option<RepliedTo>)

  /** The dispatcher filter in front of `handle_group_message`: a reply posted in a supergroup. */
  predicate IsGroupReply(m: Message): (b: bool)
    ensures b ==> m.replyTo.Some?
  {
    m.chat.kind == "supergroup" && m.replyTo.Some?
  }

  /** How an f-string renders an optional text: `None` prints as "None". */
  function Render(text: Option<string>): (r: string)
    ensures text.Some? ==> r == text.value
    ensures text.None? ==> r == "None"
  {
    match text
    case Some(t) => t
    case None => "None"
  }

  /**
   * What a forwarded reply produces: one bot message to the user's chat, then
   * a POST of the raw text to the backend's WebSocket route for that user.
   */
  datatype Forward = Forward(chatId: string, text: string, wsUrl: string, wsMessage: Option<string>)

  /**
   * `handle_group_message` behind its filter. `groupChatId` is the
   * configured `GROUP_CHAT_ID` string, `wsUrl` the configured `WS_URL`, and
   * `lookup` stands for `get_user_id_by_question_id`, whose backend route is
   * not defined.
   */
  function HandleGroupMessage(m: Message, groupChatId: string, wsUrl: string,
                              lookup: int -> Option<string>): (r: Option<Forward>)
    ensures r.Some? ==> IsGroupReply(m) && PyInt(groupChatId) == Some(m.chat.id)
    ensures r.Some? ==> var reply := m.replyTo.value.text;
                        && reply.Some? && reply.value != ""
                        && ExtractQuestionId(reply.value).Some?
                        && ExtractQuestionId(reply.value).value != 0
                        && lookup(ExtractQuestionId(reply.value).value) == Some(r.value.chatId)
                        && r.value.chatId != ""
    ensures r.Some? ==> r.value.text == "Manager replied:\n\n" + Render(m.text)
                        && r.value.wsUrl == wsUrl + "/ws/" + r.value.chatId
                        && r.value.wsMessage == m.text
    ensures && IsGroupReply(m) && PyInt(groupChatId) == Some(m.chat.id)
            && m.replyTo.value.text.Some? && m.replyTo.value.text.value != ""
            && ExtractQuestionId(m.replyTo.value.text.value).Some?
            && ExtractQuestionId(m.replyTo.value.text.value).value != 0
            && lookup(ExtractQuestionId(m.replyTo.value.text.value).value).Some?
            && lookup(ExtractQuestionId(m.replyTo.value.text.value).value).value != ""
            ==> r.Some?
  {
    if !IsGroupReply(m) then None
    else if PyInt(groupChatId) != Some(m.chat.id) then None   // also when `int(GROUP_CHAT_ID)` raises
    else match m.replyTo.value.text
      case None => None
      case Some(reply) =>
        if reply == "" then None
        else match ExtractQuestionId(reply)
          case None => None
          case Some(questionId) =>
            if questionId == 0 then None
            else match lookup(questionId)
              case None => None
              case Some(userId) =>
                if userId == "" then None
                else Some(Forward(userId, "Manager replied:\n\n" + Render(m.text), wsUrl + "/ws/" + userId, m.text))
  }

  /** A message shaped like a manager's reply to the opening post of a question. */
  predicate RepliesTo(m: Message, groupChatId: string, opening: string) {
    IsGroupReply(m) && PyInt(groupChatId) == Some(m.chat.id) && m.replyTo.value.text == Some(opening)
  }

  /**
   * End to end: a manager's reply to the backend's opening post for a
   * nonzero decimal user id reaches the user the lookup names for that id.
   */
  lemma ReplyToTopicForwarded(m: Message, groupChatId: string, wsUrl: string, lookup: int -> Option<string>,
                              userName: string, questionText: string, n: nat, userId: string)
    requires !Contains(userName, Marker) && !Contains(questionText, Marker)
    requires RepliesTo(m, groupChatId, TopicText(userName, questionText, Decimal(n)))
    requires n != 0 && lookup(n) == Some(userId) && userId != ""
    ensures HandleGroupMessage(m, groupChatId, wsUrl, lookup)
            == Some(Forward(userId, "Manager replied:\n\n" + Render(m.text), wsUrl + "/ws/" + userId, m.text))
  {
    RoundTrip(userName, questionText, n);
  }

  /** The question id 0 is falsy in Python, so replies to its topic are dropped. */
  lemma ZeroIdDropped(m: Message, groupChatId: string, wsUrl: string, lookup: int -> Option<string>,
                      userName: string, questionText: string)
    requires !Contains(userName, Marker) && !Contains(questionText, Marker)
    requires RepliesTo(m, groupChatId, TopicText(userName, questionText, Decimal(0)))
    ensures HandleGroupMessage(m, groupChatId, wsUrl, lookup) == None
  {
    RoundTrip(userName, questionText, 0);
  }

  /** Replies to a topic whose user id is not an integer literal, such as "alice7", are dropped. */
  lemma NonNumericUserDropped(m: Message, groupChatId: string, wsUrl: string, lookup: int -> Option<string>,
                              userName: string, questionText: string, userId: string)
    requires !Contains(userName, Marker) && !Contains(questionText, Marker)
    requires |userId| > 0 && !IsDigit(userId[0]) && !IsSpace(userId[0])
    requires userId[0] != '+' && userId[0] != '-'
    requires RepliesTo(m, groupChatId, TopicText(userName, questionText, userId))
    ensures HandleGroupMessage(m, groupChatId, wsUrl, lookup) == None
  {
    NonNumericIdLost(userName, questionText, userId);
  }

  /** Replies to a message without the marker are dropped. */
  lemma UnmarkedReplyDropped(m: Message, groupChatId: string, wsUrl: string, lookup: int -> Option<string>)
    requires IsGroupReply(m) && m.replyTo.value.text.Some? && !Contains(m.replyTo.value.text.value, Marker)
    ensures HandleGroupMessage(m, groupChatId, wsUrl, lookup) == None
  {
    NoMarkerNoId(m.replyTo.value.text.value);
  }
}
