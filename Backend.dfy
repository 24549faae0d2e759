/**
 * The FastAPI backend: the `/ask` handler that opens a forum topic for a new
 * question, and the `/ws/{user_id}` handler that stores what a connected user
 * types. Redis is an in-memory map of lists; every Telegram Bot API call is
 * replaced by the reply it got, given as a parameter.
 */
module Backend {
  import opened Wrappers
  import opened QuestionFormat
  import opened Connections

  /** Redis key of a user's message list. */
  function MessagesKey(userId: string): (r: string)
    ensures |r| == |userId| + 14 && r[5..|r| - 9] == userId
  {
    "user:" + userId + ":messages"
  }

  /** Distinct users have distinct message lists. */
  lemma MessagesKeyInjective(u: string, v: string)
    requires MessagesKey(u) == MessagesKey(v)
    ensures u == v
  {
  }

  /** The Redis lists the backend writes to. */
  class MessageStore {
    var lists: map<string, seq<string>>

    /** `LRANGE key 0 -1`: a missing key reads as the empty list. */
    function Log(key: string): seq<string>
      reads this
    {
      if key in lists then lists[key] else []
    }

    constructor ()
      ensures lists == map[]
    {
      lists := map[];
    }

    /** `RPUSH key value`: append at the tail, creating the list if needed. */
    method RPush(key: string, value: string)
      modifies this
      ensures lists == old(lists)[key := old(Log(key)) + [value]]
    {
      lists := lists[key := Log(key) + [value]];
    }
  }

  /**
   * The JSON body of a Bot API reply, reduced to the one field the handler
   * reads: `result.message_id` of the first reply, `result.message_thread_id`
   * of the topic reply.
   */
  datatype Body =
    | Json(field: Option<int>)   // None: the field, or the whole `result`, is absent
    | Malformed                  // not JSON, or the top level or `result` is not an object

  /** What an httpx POST produced: an HTTP reply, or a transport exception. */
  datatype Reply = Reply(status: int, body: Body) | Raised

  /** httpx `raise_for_status` lets exactly the 2xx statuses through. */
  predicate IsSuccess(status: int) {
    200 <= status < 300
  }

  /** Python truthiness of an optional JSON integer. */
  predicate Truthy(v: Option<int>) {
    v.Some? && v.value != 0
  }

  /** A request the handler sends to the Bot API. */
  datatype ApiCall =
    | SendMessage(chatId: string, threadId: Option<int>, text: string)
    | CreateForumTopic(chatId: string, name: string, iconColor: int)

  /** Icon colour of every forum topic the backend opens. */
  const IconColor: int := 0x6FB9F0

  /** The body of `/ask`'s POST request. */
  datatype QuestionRequest = QuestionRequest(userId: string, userName: string, questionText: string)

  /** The HTTP answer of `/ask`: the success message, or an HTTPException with its status. */
  datatype Response = Success | HttpError(status: int)

  /** One run of `/ask`: the Bot API calls made, whether the text was stored and pushed, and the answer. */
  datatype AskRun = AskRun(calls: seq<ApiCall>, saved: bool, response: Response)

  /**
   * The conditions under which `/ask` stores its text: the first sendMessage
   * succeeds with a truthy message id, createForumTopic succeeds with a
   * thread id, and the third call at least gets an HTTP answer (its status is
   * never checked).
   */
  predicate RelayCompletes(first: Reply, topic: Reply, third: Reply) {
    FirstOk(first) && TopicOk(topic) && !third.Raised?
  }

  /** The first sendMessage passes `raise_for_status` and gives a truthy message id. */
  predicate FirstOk(first: Reply) {
    first.Reply? && IsSuccess(first.status) && first.body.Json? && Truthy(first.body.field)
  }

  /** createForumTopic passes `raise_for_status` and gives a thread id. */
  predicate TopicOk(topic: Reply) {
    topic.Reply? && IsSuccess(topic.status) && topic.body.Json? && topic.body.field.Some?
  }

  /** The steps of `create_question` with each Bot API call replaced by its reply. */
  function Ask(groupChatId: string, request: QuestionRequest, first: Reply, topic: Reply, third: Reply): (r: AskRun)
    ensures 1 <= |r.calls| <= 3
    ensures r.calls[0] == SendMessage(groupChatId, None, TopicText(request.userName, request.questionText, request.userId))
    ensures |r.calls| >= 2 ==> r.calls[1] == CreateForumTopic(groupChatId, TopicName(request.userName), IconColor)
    ensures |r.calls| == 3 ==> && topic.Reply? && topic.body.Json?
                               && r.calls[2] == SendMessage(groupChatId, topic.body.field,
                                                            TopicText(request.userName, request.questionText, request.userId))
    // the first sendMessage decides whether anything else is called
    ensures |r.calls| >= 2 <==> FirstOk(first)
    ensures first.Raised? ==> |r.calls| == 1 && r.response == HttpError(500)
    ensures first.Reply? && !IsSuccess(first.status) ==> |r.calls| == 1 && r.response == HttpError(first.status)
    ensures first.Reply? && IsSuccess(first.status) && first.body.Malformed? ==>
              |r.calls| == 1 && r.response == HttpError(500)
    ensures first.Reply? && IsSuccess(first.status) && first.body.Json? && !Truthy(first.body.field) ==>
              |r.calls| == 1 && r.response == Success
    // then createForumTopic decides whether the text is posted into the topic
    ensures |r.calls| == 3 <==> FirstOk(first) && TopicOk(topic)
    ensures FirstOk(first) && topic.Raised? ==> |r.calls| == 2 && r.response == HttpError(500)
    ensures FirstOk(first) && topic.Reply? && !IsSuccess(topic.status) ==>
              |r.calls| == 2 && r.response == HttpError(topic.status)
    ensures FirstOk(first) && topic.Reply? && IsSuccess(topic.status)
            && (topic.body.Malformed? || topic.body.field.None?) ==>
              |r.calls| == 2 && r.response == HttpError(500)
    // and only a transport error of the last call stops the text from being stored
    ensures |r.calls| == 3 && third.Raised? ==> r.response == HttpError(500)
    ensures r.saved <==> RelayCompletes(first, topic, third)
    ensures r.saved <==> |r.calls| == 3 && r.response == Success
    ensures r.response == Success && !r.saved ==>
              |r.calls| == 1 && first.Reply? && IsSuccess(first.status) && first.body.Json? && !Truthy(first.body.field)
    ensures r.response.HttpError? && r.response.status != 500 ==>
              || (first.Reply? && first.status == r.response.status && !IsSuccess(first.status))
              || (topic.Reply? && topic.status == r.response.status && !IsSuccess(topic.status))
  {
    var text := TopicText(request.userName, request.questionText, request.userId);
    var post := SendMessage(groupChatId, None, text);
    match first
    case Raised => AskRun([post], false, HttpError(500))
    case Reply(status, body) =>
      if !IsSuccess(status) then AskRun([post], false, HttpError(status))
      else if body.Malformed? then AskRun([post], false, HttpError(500))
      else if !Truthy(body.field) then AskRun([post], false, Success)
      else
        var open := CreateForumTopic(groupChatId, TopicName(request.userName), IconColor);
        match topic
        case Raised => AskRun([post, open], false, HttpError(500))
        case Reply(topicStatus, topicBody) =>
          if !IsSuccess(topicStatus) then AskRun([post, open], false, HttpError(topicStatus))
          else if topicBody.Malformed? || topicBody.field.None? then AskRun([post, open], false, HttpError(500))
          else
            var repost := SendMessage(groupChatId, topicBody.field, text);
            if third.Raised? then AskRun([post, open, repost], false, HttpError(500))
            else AskRun([post, open, repost], true, Success)
  }

  /** The status of the third sendMessage is never looked at: an HTTP error there changes nothing. */
  lemma ThirdStatusIgnored(groupChatId: string, request: QuestionRequest, first: Reply, topic: Reply,
                           status: int, body: Body)
    ensures Ask(groupChatId, request, first, topic, Reply(status, body))
            == Ask(groupChatId, request, first, topic, Reply(200, Json(None)))
  {
  }

  /**
   * `create_question`. The text goes to the group, a topic is opened, the
   * text is posted into the topic, then appended to the user's list and
   * pushed to the user's socket if connected; the first failing step decides
   * the answer and nothing is stored.
   */
  method CreateQuestion(store: MessageStore, manager: ConnectionManager, groupChatId: string,
                        request: QuestionRequest, first: Reply, topic: Reply, third: Reply)
      returns (calls: seq<ApiCall>, response: Response)
    modifies store, manager
    ensures var run := Ask(groupChatId, request, first, topic, third);
            && calls == run.calls && response == run.response
            && store.lists == (if run.saved
                               then old(store.lists)[MessagesKey(request.userId) :=
                                      old(store.Log(MessagesKey(request.userId)))
                                      + [TopicText(request.userName, request.questionText, request.userId)]]
                               else old(store.lists))
            && manager.sent == (if run.saved
                                then Delivered(old(manager.active), old(manager.sent),
                                               TopicText(request.userName, request.questionText, request.userId),
                                               request.userId)
                                else old(manager.sent))
    ensures manager.active == old(manager.active)
  {
    var text := TopicText(request.userName, request.questionText, request.userId);
    calls := [SendMessage(groupChatId, None, text)];
    if first.Raised? {
      response := HttpError(500);
      return;
    }
    if !IsSuccess(first.status) {
      response := HttpError(first.status);
      return;
    }
    if first.body.Malformed? {
      response := HttpError(500);
      return;
    }
    if !Truthy(first.body.field) {
      response := Success;
      return;
    }
    calls := calls + [CreateForumTopic(groupChatId, TopicName(request.userName), IconColor)];
    if topic.Raised? {
      response := HttpError(500);
      return;
    }
    if !IsSuccess(topic.status) {
      response := HttpError(topic.status);
      return;
    }
    if topic.body.Malformed? || topic.body.field.None? {
      response := HttpError(500);
      return;
    }
    calls := calls + [SendMessage(groupChatId, topic.body.field, text)];
    if third.Raised? {
      response := HttpError(500);
      return;
    }
    store.RPush(MessagesKey(request.userId), text);
    manager.SendPersonalMessage(text, request.userId);
    response := Success;
  }

  /**
   * `websocket_endpoint`: register the socket, append every received frame
   * to the user's list in arrival order, and unregister the user when the
   * client goes away. The frames are the finite sequence received before
   * the disconnect.
   */
  method WebsocketEndpoint(store: MessageStore, manager: ConnectionManager, socket: Handle,
                           userId: string, frames: seq<string>)
    modifies store, manager
    ensures store.lists == (if frames == [] then old(store.lists)
                            else old(store.lists)[MessagesKey(userId) := old(store.Log(MessagesKey(userId))) + frames])
    ensures store.Log(MessagesKey(userId)) == old(store.Log(MessagesKey(userId))) + frames
    ensures manager.active == Disconnected(Connected(old(manager.active), userId, socket), userId)
    ensures manager.sent == old(manager.sent)
  {
    manager.Connect(userId, socket);
    var key := MessagesKey(userId);
    var i := 0;
    while i < |frames|
      invariant 0 <= i <= |frames|
      invariant manager.active == Connected(old(manager.active), userId, socket)
      invariant manager.sent == old(manager.sent)
      invariant store.lists == (if i == 0 then old(store.lists)
                                else old(store.lists)[key := old(store.Log(key)) + frames[..i]])
      invariant store.Log(key) == old(store.Log(key)) + frames[..i]
    {
      store.RPush(key, frames[i]);
      assert frames[..i + 1] == frames[..i] + [frames[i]];
      assert old(store.Log(key)) + frames[..i + 1] == old(store.Log(key)) + frames[..i] + [frames[i]];
      i := i + 1;
    }
    assert frames[..i] == frames;
    manager.Disconnect(userId);
  }
}
