# support-bot-platform: the relay logic, modelled in Dafny

The system relays a question from an anonymous web user into a Telegram staff group, and relays a manager's reply back to the user. It has two programs. The FastAPI backend (`backend/app/main.py`) posts each question to the group, opens a forum topic for it, keeps a Redis list of messages per user, and holds a table of live WebSocket connections. The aiogram bot (`bot/bot.py`) watches the group for replies, recovers the question id from the text being replied to, and forwards the reply.

The model covers the deterministic parts of both programs:

- `PyText`: the Python string builtins the code relies on, over `seq<char>`. These are `str.find`, `str.split`, `str.strip`, `int(str)` and `str(int)`. Facts about them are proved here: joining the pieces of a split with the separator gives the string back, no piece contains the separator, every integer literal parses to its value, and `int(str(n)) == n` (for ids short enough to fit in a Telegram message; see "## Left out").
- `QuestionFormat`: the opening message `topic_text` and the parser `extract_question_id`. The main result is the round trip: the bot recovers a decimal id `n` from the backend's message whenever neither the user name nor the question text contains `"Question ID: "`. Two lemmas show where the id is lost or wrong:
  - a non-numeric user id, such as `"alice7"`, is never recovered;
  - a question text that is exactly the marker followed by `str(n)` makes the bot parse `n`, whatever the real user id is.
- `Connections`: `ConnectionManager` as a class. It has a `map` from user id to socket handle, and a ghost trace of the frames written to sockets.
- `Backend`:
  - the Redis lists, as a class holding a `map<string, seq<string>>`;
  - `create_question`, with each Bot API call replaced by the reply it got (status and the JSON field read, or a transport exception);
  - the `websocket_endpoint` loop, run over the finite sequence of frames received before the client disconnects.
- `Bot`: `handle_group_message` and the filter in front of it, as a function. It returns the one forward to perform, or nothing. The user lookup `get_user_id_by_question_id` is a function parameter.

## Behaviours worth knowing

- `disconnect` is keyed by user id only: it removes the entry for the user whatever socket registered it (`backend/app/main.py:37-39`). So when an old session closes after a reconnect, the newer connection is evicted too (`StaleDisconnectEvicts`, `ReconnectRace`).
- The user id comes from the client's request (`backend/app/main.py:70`). No server-side id is generated, and no thread-to-user correlation is stored anywhere. The bot's lookup calls a `/questions/{id}` route that the backend does not define.
- The backend stores the opening text and also pushes it live (`backend/app/main.py:104-105`); the two are not alternatives. On the bot side there is no durable fallback: a forwarded reply becomes one Telegram message to the user's chat id, then a POST to the backend's WebSocket path.
- Only integer ids can be routed back, because the bot parses the id with `int()`. A non-numeric user id such as `"alice7"` is never routed back (`NonNumericIdLost`, `NonNumericUserDropped`).
- Nothing expires: no TTL is set anywhere.

## Model

| member | source | states |
|---|---|---|
| `PyText.FindFromSpec` | bot/bot.py:48 | a search from an index finds an occurrence with none skipped before it, or None when no occurrence starts at or after the index |
| `PyText.Find` | bot/bot.py:48 | a found index is an occurrence of the separator |
| `PyText.FindSpec` | bot/bot.py:48 | the first occurrence of the separator; None exactly when the string does not contain it |
| `PyText.Split` | bot/bot.py:48 | `str.split` yields at least one piece |
| `PyText.SplitJoin` | bot/bot.py:48 | joining the pieces with the separator rebuilds the string |
| `PyText.SplitPiecesClean` | bot/bot.py:48 | no piece contains the separator |
| `PyText.SplitSeveral` | bot/bot.py:48-49 | `len(parts) > 1` exactly when the separator occurs |
| `PyText.SplitNone` | bot/bot.py:48 | without the separator, `s.split(sep)` is `[s]` |
| `PyText.SecondPieceLast` | bot/bot.py:48-51 | with one occurrence, `parts[1]` is everything after it |
| `PyText.SecondPieceMiddle` | bot/bot.py:48-51 | `parts[1]` runs from the end of the first occurrence to the next occurrence in the rest of the text |
| `PyText.StripLeft` | bot/bot.py:51 | the result is a suffix, only spaces were removed, and it starts with a non-space |
| `PyText.StripRight` | bot/bot.py:51 | the result is a prefix, only spaces were removed, and it ends with a non-space |
| `PyText.Strip` | bot/bot.py:51 | the stripped string is no longer than the input, and neither starts nor ends with whitespace |
| `PyText.StripUnchanged` | bot/bot.py:51 | a string without surrounding spaces is its own strip |
| `PyText.StripIdempotent` | bot/bot.py:51 | stripping twice is stripping once, so `int(x.strip())` is `int(x)` |
| `PyText.ParseInt` | bot/bot.py:51-53 | only a literal parses: a digit, or a sign followed by at least one more character, then digits only; the value's sign follows the leading `-` |
| `PyText.ParseIntLiteral` | bot/bot.py:51-53 | every literal parses: `""`, `"+"` or `"-"` followed by a non-empty digit string gives the digits' value, negated after `-` |
| `PyText.PyInt` | bot/bot.py:51-53 | a blank or all-whitespace string is a ValueError (None) |
| `PyText.PyIntStripped` | bot/bot.py:51 | `int(x.strip()) == int(x)`: the explicit strip changes nothing |
| `PyText.DigitChar` | backend/app/main.py:72 | a digit is written as the character of that value |
| `PyText.Decimal` | backend/app/main.py:72 | `str(n)` is a non-empty digit string without a leading zero |
| `PyText.DecimalValue` | bot/bot.py:51 | the digits of `str(n)` denote `n` |
| `PyText.PyIntDigits` | bot/bot.py:51 | `int` of a non-empty digit string is the number its digits denote |
| `PyText.PyIntNegativeDigits` | bot/bot.py:51 | `int` of `-` and a non-empty digit string is that number negated |
| `PyText.DecimalRoundTrip` | bot/bot.py:51 | `int(str(n)) == n` |
| `PyText.NegativeDecimalRoundTrip` | bot/bot.py:51 | `int("-" + str(n)) == -n` |
| `PyText.StripKeepsFirst` | bot/bot.py:51 | strip keeps a leading non-space character |
| `PyText.StripTrailing` | bot/bot.py:51 | strip removes trailing whitespace after a stripped string |
| `PyText.DigitsSplit` | bot/bot.py:48 | a digit string split on a separator holding a non-digit stays whole |
| `QuestionFormat.TopicText` | backend/app/main.py:72 | the opening text is the header, the marker and the user id, and nothing else |
| `QuestionFormat.TopicName` | backend/app/main.py:89 | the topic name is `"Dialogue with "` followed by the user name |
| `QuestionFormat.ExtractQuestionId` | bot/bot.py:47-54 | an id is returned only for a text that contains `"Question ID: "` |
| `QuestionFormat.NoMarkerNoId` | bot/bot.py:47-54 | `extract_question_id` gives None whenever the text lacks `"Question ID: "` |
| `QuestionFormat.FirstMarkerInTopic` | backend/app/main.py:72 | if name and text are marker-free, the first marker in the opening text is the one before the user id |
| `QuestionFormat.TopicSplit` | bot/bot.py:48 | the opening text splits into the header followed by the pieces of the user id |
| `QuestionFormat.ExtractFromTopic` | bot/bot.py:47-54 | the id parsed from the opening text is `int` of the stripped user id up to its own first marker |
| `QuestionFormat.RoundTrip` | bot/bot.py:47-54 | `extract_question_id(topic_text(name, text, str(n))) == n` for marker-free name and text |
| `QuestionFormat.DigitsIdRecovered` | bot/bot.py:47-54 | any all-digit user id, leading zeros included, comes back as the integer it spells |
| `QuestionFormat.NonNumericIdLost` | bot/bot.py:51-54 | a user id starting with anything but a digit, sign or space parses to None |
| `QuestionFormat.QuestionTextSpoofsId` | bot/bot.py:48-51 | a question text that is exactly `"Question ID: " + str(n)` makes the bot parse `n`, whatever the real id |
| `QuestionFormat.ExtractSingleMarker` | bot/bot.py:48-53 | with a single marker the id is `int` of the stripped rest of the text |
| `QuestionFormat.ExtractBetweenMarkers` | bot/bot.py:48-53 | otherwise it is `int` of the stripped segment between the first marker and the next |
| `Connections.Connected` | backend/app/main.py:33-35 | after connect the user maps to the new handle; other entries are unchanged |
| `Connections.Disconnected` | backend/app/main.py:37-39 | after disconnect the user is absent, others unchanged, a no-op when absent |
| `Connections.Delivered` | backend/app/main.py:41-43 | exactly one frame to the registered socket if the user is present, none otherwise |
| `Connections.DisconnectIdempotent` | backend/app/main.py:37-39 | a second disconnect changes nothing |
| `Connections.StaleDisconnectEvicts` | backend/app/main.py:37-39 | connect, reconnect, then a disconnect of the old session leaves the user absent |
| `Connections.ConnectionManager.constructor` | backend/app/main.py:30-31 | the table starts empty and no frame has been sent |
| `Connections.ConnectionManager.Connect` | backend/app/main.py:33-35 | the table becomes `Connected(old, u, w)` and no frame is sent |
| `Connections.ConnectionManager.Disconnect` | backend/app/main.py:37-39 | the table becomes `Disconnected(old, u)` and no frame is sent |
| `Connections.ConnectionManager.SendPersonalMessage` | backend/app/main.py:41-43 | the table is untouched and the trace grows by `Delivered` |
| `Connections.ReconnectRace` | backend/app/main.py:51-57 | after two sessions of one user and the end of the first, the user is not live |
| `Backend.MessagesKey` | backend/app/main.py:55 | the key is `"user:"`, the user id, then `":messages"`, so the id can be read back from it |
| `Backend.MessagesKeyInjective` | backend/app/main.py:55 | distinct users write to distinct Redis lists |
| `Backend.MessageStore.RPush` | backend/app/main.py:55 | the list under the key grows by the value at its tail, created if missing, other keys unchanged |
| `Backend.Ask` | backend/app/main.py:67-113 | which Bot API calls are made, in order, with the topic name and colour; for each reply of the first sendMessage and of createForumTopic, how many calls follow and the answer: a non-2xx status is re-raised with that status, a transport error, unreadable body or missing thread id gives 500, a falsy message id gives success after one call; a transport error of the last call gives 500; the text is stored exactly when all steps succeed |
| `Backend.ThirdStatusIgnored` | backend/app/main.py:97-101 | the status of the post into the topic never changes the outcome |
| `Backend.CreateQuestion` | backend/app/main.py:67-113 | the handler's calls and answer are those of `Ask`; the user's list gains the text and the socket gets it exactly when `Ask` stores; otherwise nothing changes |
| `Backend.WebsocketEndpoint` | backend/app/main.py:49-57 | the user's list is its old contents followed by every frame in arrival order, other lists unchanged, and the user is unregistered at the end |
| `Bot.IsGroupReply` | bot/bot.py:32 | a message that passes the filter replies to a message, so the handler can read `reply_to_message` |
| `Bot.Render` | bot/bot.py:41 | the f-string shows a text as itself and a missing text as `"None"` |
| `Bot.HandleGroupMessage` | bot/bot.py:32-43 | a forward happens exactly when every guard holds; it goes to the looked-up user with `"Manager replied:\n\n"` and the reply text |
| `Bot.ReplyToTopicForwarded` | bot/bot.py:32-43 | a reply to the opening post of a nonzero decimal id is forwarded to the user the lookup returns |
| `Bot.ZeroIdDropped` | bot/bot.py:37-38 | question id 0 is falsy, so such replies are dropped |
| `Bot.NonNumericUserDropped` | bot/bot.py:36-38 | replies to a topic with a non-numeric user id are dropped |
| `Bot.UnmarkedReplyDropped` | bot/bot.py:36-38 | replies to a text without the marker are dropped |

## Left out

- Telegram Bot API calls, the httpx clients and JSON responses (`backend/app/main.py:74-101`, `bot/bot.py:41-43`). Each call's reply is a parameter. The JSON body is reduced to the one integer field the handler reads: present, absent, or unreadable. `raise_for_status` follows current httpx, so any non-2xx status raises.
- Redis network behaviour: a failing `rpush` would turn a stored question into a 500. It is not modelled, and there is no expiry because the code sets none.
- WebSocket transport: `accept()`, and `send_text` raising on a closed socket, which would turn a stored question into a 500 after the append.
- Concurrency: each handler runs as one sequential step. In particular, `create_question` cannot interleave with the websocket loop of the same user.
- `get_user_id_by_question_id` (`bot/bot.py:58-63`) calls a route the backend lacks. It is the `lookup` parameter, returning an optional user id.
- `send_welcome`, and the dispatcher's ordering of handlers. A group reply whose text is `/start` or `/help` goes to `send_welcome` first; `HandleGroupMessage` assumes the message reached its own handler.
- A failing `bot.send_message` that would skip the following POST. Aiogram polling, FastAPI routing and pydantic validation (a request missing a field is rejected before the handler). Logging and environment loading: `GROUP_CHAT_ID` and `WS_URL` are parameters. When `int(GROUP_CHAT_ID)` fails, the model drops the reply; the code raises in the handler, which sends nothing too.
- `PyText.ParseInt`: accepts digit runs of any length. CPython 3.11 and later (and the 2022 security releases of 3.7-3.10) raise ValueError in `int()` for more than 4300 digits, which `extract_question_id` turns into None. `DecimalRoundTrip` and `RoundTrip` are stated for every `n`, but they matter only for ids that fit in a message: Telegram caps a message text at 4096 characters, so the bot never sees a longer one.
- `Backend.Body`: the `message_id` and `message_thread_id` fields are modelled as optional integers, because Telegram's Bot API always returns integers there. A topic reply with a null or non-integer `message_thread_id` would be stored and answered with success by the code (`backend/app/main.py:96` does not check its type); the model has no such reply. A non-integer truthy `message_id` is likewise not modelled.
- Python's full `int()` and `strip()`: underscores between digits, non-ASCII digits and non-ASCII whitespace. Only ASCII whitespace and ASCII digits with an optional sign are modelled.
