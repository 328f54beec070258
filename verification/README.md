# Broadcast chat: connection registry, session protocol and browser client

This project is a Dafny model of a small real-time chat. The server side
is `main.py`. It keeps the list of open connections (`ConnectionManager`) and
runs one handler per connection (`websocket_endpoint`). The handler reads a
display name, then broadcasts every later frame to every open connection.
The browser side is `static/script.js`. It sends the name frame, takes each
received frame apart into speaker and message, groups consecutive messages
by speaker, and guards the send button.

Everything is modelled as pure functions over immutable values:

- `Registry` is `active_connections`. It is a sequence of `(handle, ip)`
  entries with `Connect`, `Disconnect` and `Broadcast`. A broadcast is the
  sequence of `(recipient, text)` sends it performs.
- `Session` is one handler. It is a state machine (`AwaitingName`, then
  `Active(name)`, then `Terminated`) folded over the events its connection
  sees. The state shared by all handlers is the registry plus the `Names`
  table. Other handlers act on that shared state only through
  `connect`, `disconnect` and the `Names` write. So those writes appear as
  peer events, interleaved between this handler's own frames.
- `Text` holds whitespace stripping (Python `str.strip`, JavaScript `trim`)
  and the search, split and join on the `": "` separator.
- `Client` holds the browser's parser, grouping, "Self" styling and send
  guard.
- `EndToEnd` holds properties that combine the two sides and a few concrete
  scenarios.

What goes on the wire is `"{ip}: {name}: {data}"`. The handler labels the
message with the registered name (main.py:93), and the comment there calls
the result `"Name: message"`. The broadcast then labels it again with the
sender's address (main.py:60). The model follows the code.

Some consequences follow from this format, and the model proves them:

- A browser takes the frame apart at the first `": "`. So the speaker it
  shows is the sender's address, and the message is `"{name}: {data}"`
  (`EndToEnd.BrowserSeesAddressAsSpeaker`).
- The browser registers as `":/" + userName`. So the registered name keeps
  the `":/"` prefix and never equals the user name
  (`EndToEnd.BrowserRegistersPrefixedName`).
- A bubble is styled "Self" exactly when the user name equals the sender's
  address (`EndToEnd.SelfStyleFollowsAddress`).

## Model

| member | source | states |
|---|---|---|
| Registry.FirstIndex | main.py:48-52 | finds the first entry with the handle, and reports none exactly when no entry has it |
| Registry.Connect | main.py:43 | appends `(h, ip)` after the unchanged old entries; the count of `h` grows by one even if `h` is already present; other handles' counts are unchanged |
| Registry.Disconnect | main.py:46-52 | with no entry for `h` the list is unchanged; otherwise exactly the first entry for `h` is removed, the rest keep their order, the count of `h` drops by one and other counts are unchanged |
| Registry.Broadcast | main.py:54-61 | one send per entry, in list order, the sender included, each with text `senderIp + ": " + message` |
| Registry.ConnectDisconnectRoundTrip | main.py:43-52 | disconnecting a handle that was just connected, and was not present before, restores the list |
| Registry.ConnectTwiceKeepsBoth | main.py:43 | connecting the same handle twice leaves two entries for it, since there is no duplicate check |
| Registry.DisconnectIdempotent | main.py:48-52 | once the only entry for a handle is gone, a second disconnect changes nothing |
| Registry.BroadcastReachesEveryMember | main.py:58-60 | every registered handle, the sender's included, receives the labelled frame |
| Registry.BroadcastOnlyToMembers | main.py:58-60 | no handle outside the registry receives a frame |
| Registry.ConnectFreshKeepsNoDuplicates | main.py:43 | connecting a fresh handle keeps the list free of duplicates and adds exactly that handle to the live set |
| Registry.DisconnectKeepsNoDuplicates | main.py:46-52 | on a duplicate-free list, disconnect removes exactly that handle from the live set |
| Registry.ApplyTracksLive | main.py:35-52 | over any history of connects with fresh handles and disconnects, the registry holds each handle once, and holds exactly the handles that joined and have not left |
| Session.Open | main.py:75 | entering the handler registers `(h, ip)` at the end of the registry, leaves `Names` alone and waits for the name |
| Session.Step | main.py:74-99 | a broadcast happens exactly for a frame in the message loop and reaches as many connections as are registered; handle and address never change; a returned handler stays returned |
| Session.FirstFrameRegistersName | main.py:80-84 | the first frame, stripped, becomes the name; `Names[name]` becomes the client's address, overwriting any earlier entry; every other name keeps its address; nothing is sent and the registry is unchanged |
| Session.MessageFrameBroadcasts | main.py:88-96 | in the loop, a frame goes unstripped to every registered connection in order as `"{ip}: {name}: {data}"`; the shared state is unchanged |
| Session.CloseRemovesConnection | main.py:98-99 | a disconnect while receiving removes one entry of this connection, keeps every other connection, leaves `Names` alone and ends the handler |
| Session.FailureKeepsConnection | main.py:78-99 | any other exception from `receive_text`, before or after the name, ends the handler without `disconnect`: registry and `Names` are unchanged, and after any later events in which no session disconnects it, a broadcast from any session is still addressed to the connection |
| Session.ReturnedStaysRegistered | main.py:98-99 | after the handler has returned, its connection stays registered through any events that do not disconnect it |
| Session.Run | main.py:86-96 | a run keeps the handler's handle and address, and makes at most one broadcast per event |
| Session.Serve | main.py:74-99 | the handler's first event is never broadcast, so a run of `n > 0` events makes fewer than `n` broadcasts; handle and address are kept |
| Session.NameStays | main.py:84 | once the name has been read, its `Names` entry changes only if another session writes the same name |
| Session.LoopEndsOnlyOnEnd | main.py:88-99 | the loop is still running after a sequence of events exactly when none of them was a disconnect or another receive exception |
| Session.TerminatedIsSilent | main.py:98-99 | after the handler has returned, no later event causes a broadcast |
| Session.PeerEventIsQuiet | main.py:74-99 | another handler's connect, disconnect or name write neither sends anything nor changes this handler's phase |
| Session.LoopBroadcastsInOrder | main.py:88-96 | in the loop there is exactly one broadcast per frame read before the disconnect, in receive order, and the k-th carries the k-th frame |
| Session.SenderHearsItself | main.py:95-96 | while its own connection is registered, every broadcast of a handler also reaches the sender |
| Session.ServeBroadcastsEachMessage | main.py:74-99 | for a name frame followed by any events (frames, other sessions' joins, leaves and name writes, a disconnect or another exception): one broadcast per frame read before the loop ends, in order, each carrying `"{ip}: {stripped name}: {frame}"`; the handler is still looping exactly when no event ended it; `Names` maps the name to the address unless another session wrote that name |
| Session.ServeReachesSender | main.py:95-96 | for a name frame followed by any events, no other session removing this connection, every broadcast has a send addressed to the sender |
| Session.ServeEchoesToSender | main.py:95-96 | for a name frame followed by any events, no other session removing this connection, the sender receives its own copy of each message its loop read |
| Text.TrimStart | main.py:81 | removes exactly a whitespace prefix, leaving a suffix that does not start with whitespace |
| Text.TrimEnd | static/script.js:88 | removes exactly a whitespace suffix, leaving a prefix that does not end with whitespace |
| Text.StripDecomposes | main.py:81 | the input is the stripped text with only whitespace before and after it |
| Text.StripOfPadded | main.py:81 | stripping a text padded with whitespace, whose ends are not whitespace, gives back that text |
| Text.StripIdempotent | main.py:81 | stripping twice is stripping once |
| Text.StripAbsorbsPadding | static/script.js:88 | whitespace added around a text does not change its stripped form |
| Text.Strip | main.py:81 | no whitespace is left at either end (the rest is stated by the two rows below; see "Left out") |
| Text.FirstOccurrence | static/script.js:27 | finds the first position of the separator, and reports none exactly when the separator does not occur |
| Text.Split | static/script.js:27 | joining the pieces with the separator gives back the text, and no piece contains the separator |
| Text.Join | static/script.js:28 | no pieces join to the empty text, one piece to itself, and two or more to a text that contains the separator |
| Client.RegistrationFrame | static/script.js:22 | the name frame is `":/"` followed by the user name, or by `null` when the prompt was cancelled |
| Client.Parse | static/script.js:27-28 | the sender is the text before the first `": "` and the message is everything after it; with no separator the sender is the whole frame and the message is empty |
| Client.FirstSeparatorUnique | static/script.js:27-28 | a text cuts at most one way into a separator-free head, the separator and a tail |
| Client.ParseRoundTrip | static/script.js:27-28 | a sender without `": "` and any message come back out of the frame they make |
| Client.SplitJoinRoundTrip | static/script.js:27-28 | splitting at `": "` the join of one or more pieces free of `": "` gives those pieces back |
| Client.JoinUnique | static/script.js:27-28 | two lists of one or more pieces free of `": "` that join to the same text are equal |
| Client.Show | static/script.js:34-64 | a new group starts exactly when `lastSpeaker` is null, empty or another speaker, and it is appended after the untouched earlier groups with the sender as speaker, "Self" style iff the sender is the user name, and one bubble; otherwise the message joins the last group, whose speaker is the sender and whose style is kept, and all earlier groups are untouched; `lastSpeaker` becomes the sender; the message is the last bubble, styled as the user's own iff the sender is the user name, under the sender |
| Client.ShowKeepsCoherent | static/script.js:34-64 | showing a message keeps the chat box well formed: groups are non-empty, group and bubble styles agree with the speaker, and neighbouring groups have different speakers unless the first is empty |
| Client.Receive | static/script.js:26-65 | one received frame: its parsed message becomes the last bubble, under its parsed sender, and `lastSpeaker` becomes that sender |
| Client.Render | static/script.js:13-65 | from page load, one bubble per received frame, and `lastSpeaker` is null before any frame and the last frame's sender after |
| Client.RenderIsCoherent | static/script.js:26-65 | after any frames, the box is well formed; its bubbles are the received messages, one each and in arrival order; and the i-th bubble sits in a group whose speaker is the i-th frame's sender |
| Client.Messages | static/script.js:27-28 | one message per frame, the i-th being the message parsed from the i-th frame |
| Client.RenderKeepsTexts | static/script.js:27-28 | the i-th bubble's text is the message parsed from the i-th frame |
| Client.RenderKeepsSpeakers | static/script.js:34-64 | the i-th bubble's group speaker is the sender parsed from the i-th frame |
| Client.SameSpeakerExtendsGroup | static/script.js:57-64 | a message from the current non-empty speaker adds no group, keeps `lastSpeaker` and leaves the earlier groups alone |
| Client.SendMessage | static/script.js:87-95 | the trimmed input is sent, and the box cleared, exactly when it is non-empty and the socket is open; otherwise the box is kept; a warning is logged exactly when the socket is not open |
| Client.SentTextIsTrimmed | static/script.js:88-90 | a sent text is non-empty and has no whitespace at either end |
| Client.SendIgnoresPadding | static/script.js:88-90 | whitespace typed around a message changes neither whether it is sent nor what is sent |
| EndToEnd.BrowserRegistersPrefixedName | static/script.js:22 | the name the server records for a browser is `":/"` plus the user name with its trailing whitespace removed, and never equals the user name |
| EndToEnd.BrowserSeesAddressAsSpeaker | main.py:60 | a browser shows the sender's address as the speaker and `"{name}: {data}"` as the message |
| EndToEnd.SelfStyleFollowsAddress | static/script.js:39 | a received bubble is styled as the user's own exactly when the user name equals the sender's address |
| EndToEnd.BrowserChat | main.py:93 | whatever other sessions do meanwhile, every browser shows each message of a registered browser user as speaker = address, message = `":/{user}: {text}"` |
| EndToEnd.AliceSaysHello | main.py:74-96 | on a fresh server, naming oneself "Alice" and saying "hello" sends exactly one frame, `"{ip}: Alice: hello"`, back to the sender |
| EndToEnd.AfterBobLeavesOnlyCarolHears | main.py:46-61 | after another connection leaves, a message reaches only the connections still registered |
| EndToEnd.BlankNameFrame | main.py:81-84 | a blank name frame registers the empty name, and every later message goes out as `"{ip}: : {message}"` |

## Left out

- The FastAPI application, the static mount, the templates and the `/` route (main.py:14-29) are framework wiring.
- `websocket.accept()` and `websocket.client.host` are left out. The address is an input that comes with the handle.
- Asynchronous scheduling is left out. One handler's run is a sequence of events, and the other handlers' registry and `Names` writes are peer events placed between them. Whether a given interleaving can occur is not modelled.
- Broadcasts are atomic in the model. So a connect or disconnect by another handler while `broadcast` is awaiting a send is not modelled.
- `print` logging and the `on_message_received` hook (main.py:67-69) only print.
- Send failures are left out. An exception from `send_text` (main.py:60) aborts the rest of the broadcast: a `WebSocketDisconnect` raised there is caught at main.py:98 and removes the sender, not the failed recipient, and any other exception propagates out of the handler. Every send is assumed to succeed. Exceptions from `receive_text` are modelled: `WebSocketDisconnect` removes the connection, and any other exception ends the handler but leaves the connection registered (`Session.FailureKeepsConnection`).
- The DOM, `innerHTML`, `prompt`, the WebSocket URL and listener registration in static/script.js are left out. The chat box is modelled as its groups and bubbles, and the prompt result is an input.
- `startNewChat` (static/script.js:79-84) is left out. It removes the groups from the chat box but keeps `lastSpeaker` and `lastMessageGroup`. So after "New chat", a message from the same speaker is appended to a group no longer on screen and is not shown. `Client.HasCurrentGroup`, `Client.Render` and `Client.RenderIsCoherent` describe a page on which "New chat" was never pressed. Its `chatName` is unused.
- Python's `strip` and JavaScript's `trim` remove different whitespace sets, and both go beyond the model's. Both also remove Unicode whitespace such as U+00A0 and U+2028; Python's alone also removes U+001C to U+001F and U+0085; JavaScript's alone also removes U+FEFF. The model uses one set for both sides, the six ASCII characters space, tab, line feed, carriage return, vertical tab and form feed, so it is an approximation of each side in a different direction.
- Text.Strip: its own contract states only that no whitespace is left at either end. The exact statement of what is removed is split across `Text.StripDecomposes` and `Text.StripOfPadded`.
- Session.Run: its contract states only that a run keeps the handler's handle and address and bounds the number of broadcasts. What a run sends is stated by `Session.LoopBroadcastsInOrder` and `Session.ServeBroadcastsEachMessage`.
- Transport handles are natural numbers compared by equality. Closing a transport is not modelled.
