/**
  The decisions the Node-RED nodes of the Matrix bot take, apart from the
  Matrix client and the Node-RED runtime around them: which timeline events
  are passed on, when a message is a command and what follows it, where and
  how the sender node delivers a payload, and when the configuration node
  announces a change of connection.
 */
module BotRules {
  import opened Results
  import opened JsString

  /** JavaScript truthiness of a string that may be `undefined`. */
  predicate Truthy(v: Option<string>) {
    v.Some? && v.value != ""
  }

  // ---------------------------------------------------------------------
  // The `Room.timeline` handlers of the receiver and command nodes.

  /** `event.getUnsigned()`: its `age` may be absent. */
  datatype Unsigned = Unsigned(age: Option<int>)

  /** What the handlers read off a timeline event. */
  datatype TimelineEvent = TimelineEvent(
    eventType: string,
    sender: Option<string>,
    unsigned: Option<Unsigned>,
    body: string)

  datatype Room = Room(roomId: string, name: string)

  /** Why an event is dropped, in the order the handler checks, or that it is kept. */
  datatype Verdict = Paginated | NotAMessage | OwnOrAnonymous | Stale | Accepted

  const MessageType: string := "m.room.message"

  /** Events older than this many milliseconds are ignored. */
  const MaxAge: int := 1000

  /** The event is older than the limit. A missing age compares as
      `undefined > 1000`, which is false. */
  predicate IsStale(u: Unsigned) {
    u.age.Some? && u.age.value > MaxAge
  }

  /** An event the handlers act on: live (not paginated), a room message,
      from a known sender other than the bot itself, and recent. */
  predicate FreshForeignMessage(ev: TimelineEvent, toStartOfTimeline: bool, userId: Option<string>) {
    && !toStartOfTimeline
    && ev.eventType == MessageType
    && Truthy(ev.sender) && userId != ev.sender
    && ev.unsigned.Some? && !IsStale(ev.unsigned.value)
  }

  /** The four early returns shared by both handlers. An event is accepted
      exactly when it is a fresh message from someone else; otherwise the
      verdict names the first test it fails. */
  function Screen(ev: TimelineEvent, toStartOfTimeline: bool, userId: Option<string>): (v: Verdict)
    ensures v == Accepted <==> FreshForeignMessage(ev, toStartOfTimeline, userId)
    ensures v == Paginated <==> toStartOfTimeline
    ensures v == NotAMessage <==> !toStartOfTimeline && ev.eventType != MessageType
    ensures v == OwnOrAnonymous <==>
      && !toStartOfTimeline && ev.eventType == MessageType
      && (!Truthy(ev.sender) || userId == ev.sender)
    ensures v == Stale <==>
      && !toStartOfTimeline && ev.eventType == MessageType
      && Truthy(ev.sender) && userId != ev.sender
      && (ev.unsigned.None? || IsStale(ev.unsigned.value))
  {
    if toStartOfTimeline then Paginated
    else if ev.eventType != MessageType then NotAMessage
    else if !Truthy(ev.sender) || ev.sender == userId then OwnOrAnonymous
    else if ev.unsigned.None? || IsStale(ev.unsigned.value) then Stale
    else Accepted
  }

  /** The message the receiver node sends. */
  datatype InMessage = InMessage(payload: string, sender: string, roomId: string)

  /** The receiver node: an accepted event is passed on with its body, its
      sender and its room; any other event produces nothing. */
  function Receive(ev: TimelineEvent, room: Room, toStartOfTimeline: bool, userId: Option<string>): (r: Option<InMessage>)
    ensures r.Some? <==> FreshForeignMessage(ev, toStartOfTimeline, userId)
    ensures r.Some? ==> r.value == InMessage(ev.body, ev.sender.value, room.roomId)
  {
    if Screen(ev, toStartOfTimeline, userId) == Accepted then
      Some(InMessage(ev.body, ev.sender.value, room.roomId))
    else
      None
  }

  // ---------------------------------------------------------------------
  // The command node.

  const Space: char := ' '

  /** `message.split(" ")[0] == command`: the first space-separated token is
      the command. */
  predicate CommandMatches(message: string, command: string) {
    Split(message, Space)[0] == command
  }

  /** The message opens with the command as a whole word: it is the command
      alone, or the command followed by a space. */
  predicate OpensWith(message: string, command: string) {
    || message == command
    || (|command| < |message| && message[..|command| + 1] == command + [Space])
  }

  /** A command matches exactly when it contains no space and the message
      opens with it. */
  lemma {:induction false} CommandMatchesMeaning(message: string, command: string)
    ensures CommandMatches(message, command) <==> Space !in command && OpensWith(message, command)
  {
    if CommandMatches(message, command) {
      MatchedCommandOpens(message, command);
    }
    if Space !in command && OpensWith(message, command) {
      OpeningCommandMatches(message, command);
    }
  }

  lemma {:induction false} MatchedCommandOpens(message: string, command: string)
    requires CommandMatches(message, command)
    ensures Space !in command && OpensWith(message, command)
  {
    FirstToken(message, Space);
    var k := IndexOfChar(message, Space, 0);
    assert Space !in Split(message, Space)[0];
    if k >= 0 {
      assert message[..|command| + 1] == command + [Space];
    }
  }

  lemma {:induction false} OpeningCommandMatches(message: string, command: string)
    requires Space !in command && OpensWith(message, command)
    ensures CommandMatches(message, command)
  {
    FirstToken(message, Space);
    if message == command {
      IndexOfCharMisses(message, Space);
    } else {
      var n := |command|;
      assert message[..n] == message[..n + 1][..n] == command;
      assert message[n] == message[..n + 1][n] == Space;
      IndexOfCharFinds(message, Space, n);
    }
  }

  /** The message the command node sends on its first output. */
  datatype CommandMessage = CommandMessage(payload: string, sender: string, roomId: string, originalMessage: string)

  /** The command node: for an accepted event whose body starts with the
      command, `[msg, null]`: output 1 carries the text after the command
      and the unchanged message, output 2 nothing. */
  function Command(ev: TimelineEvent, room: Room, toStartOfTimeline: bool, userId: Option<string>, command: string)
    : (r: Option<seq<Option<CommandMessage>>>)
    ensures r.Some? <==> FreshForeignMessage(ev, toStartOfTimeline, userId) && CommandMatches(ev.body, command)
    ensures r.Some? ==>
      && |r.value| == 2 && r.value[1] == None
      && r.value[0] == Some(CommandMessage(ev.body[|command|..], ev.sender.value, room.roomId, ev.body))
  {
    if Screen(ev, toStartOfTimeline, userId) != Accepted then
      None
    else
      var message := ev.body;
      if CommandMatches(message, command) then
        CommandOpensMessage(message, command);
        var remainingText := ReplaceFirst(message, command, "");
        Some([Some(CommandMessage(remainingText, ev.sender.value, room.roomId, message)), None])
      else
        None
  }

  /** Removing the first occurrence of a matched command leaves the text after it. */
  lemma {:induction false} CommandOpensMessage(message: string, command: string)
    requires CommandMatches(message, command)
    ensures |command| <= |message|
    ensures ReplaceFirst(message, command, "") == message[|command|..]
  {
    CommandMatchesMeaning(message, command);
    assert OccursAt(message, command, 0);
    ReplaceLeadingOccurrence(message, command);
  }

  // ---------------------------------------------------------------------
  // The sender node.

  /** `msg.payload`: its truthiness, its `type` field and `toString()`. */
  datatype Payload = Payload(truthy: bool, typeField: Option<string>, text: string)

  datatype OutMessage = OutMessage(payload: Payload, roomId: Option<string>)

  const ImageType: string := "image"

  /** What the sender node does with an input message. */
  datatype Action =
    | NoConfiguration                         // "No configuration"
    | EmptyPayload                            // "msg.payload is empty"
    | NoRoom                                  // "Room must be specified ..."
    | SendImage(room: string, image: Payload)  // upload, then send an image message
    | SendText(room: string, text: string)     // send a text message

  /** `msg.roomId` when it is set, else the configured room, else none. */
  function DestinationRoom(msgRoom: Option<string>, configRoom: Option<string>): (r: Option<string>)
    ensures r.Some? <==> Truthy(msgRoom) || Truthy(configRoom)
    ensures r.Some? ==> r.value != "" && (r == msgRoom || (r == configRoom && !Truthy(msgRoom)))
  {
    if Truthy(msgRoom) then msgRoom
    else if Truthy(configRoom) then configRoom
    else None
  }

  /** The sender node's input handler. It needs a client, then a payload,
      then a room, in that order; an `image` payload is uploaded and sent
      as an image, anything else as its text. */
  function Dispatch(hasClient: bool, msg: OutMessage, configRoom: Option<string>): (a: Action)
    ensures a == NoConfiguration <==> !hasClient
    ensures a == EmptyPayload <==> hasClient && !msg.payload.truthy
    ensures a == NoRoom <==> hasClient && msg.payload.truthy && !Truthy(msg.roomId) && !Truthy(configRoom)
    ensures a.SendImage? <==> hasClient && msg.payload.truthy && DestinationRoom(msg.roomId, configRoom).Some? && msg.payload.typeField == Some(ImageType)
    ensures a.SendImage? ==> a.image == msg.payload
    ensures a.SendText? ==> a.text == msg.payload.text && msg.payload.typeField != Some(ImageType)
    ensures (a.SendImage? || a.SendText?) ==> Some(a.room) == DestinationRoom(msg.roomId, configRoom)
  {
    if !hasClient then
      NoConfiguration
    else if !msg.payload.truthy then
      EmptyPayload
    else
      match DestinationRoom(msg.roomId, configRoom)
      case None => NoRoom
      case Some(room) =>
        if msg.payload.typeField.Some? && msg.payload.typeField.value != "" && msg.payload.typeField.value == ImageType then
          SendImage(room, msg.payload)
        else
          SendText(room, msg.payload.text)
  }

  /** Every message with a client, a payload and a room is delivered, to
      the message's own room when it names one. */
  lemma {:induction false} DispatchDelivers(hasClient: bool, msg: OutMessage, configRoom: Option<string>)
    requires hasClient && msg.payload.truthy
    requires Truthy(msg.roomId) || Truthy(configRoom)
    ensures var a := Dispatch(hasClient, msg, configRoom);
      && (a.SendImage? || a.SendText?)
      && a.room == (if Truthy(msg.roomId) then msg.roomId.value else configRoom.value)
  {
  }

  // ---------------------------------------------------------------------
  // The configuration node's connection state.

  /** `node.keys && node.passphrase`: the first falsy operand, or the last one. */
  function E2ee(keys: Option<string>, passphrase: Option<string>): (r: Option<string>)
    ensures Truthy(r) <==> Truthy(keys) && Truthy(passphrase)
  {
    if !Truthy(keys) then keys else passphrase
  }

  /** The status text the nodes show on "connected". */
  function ConnectedStatus(e2ee: Option<string>): string {
    "connected" + (if Truthy(e2ee) then " (E2EE)" else "")
  }

  /** The events the configuration node emits. */
  datatype Signal = Connected(e2ee: Option<string>) | Disconnected

  /** The stored state after an update, and what was emitted. `None` is the
      initial, never-set state. */
  datatype Emission = Emission(stored: Option<bool>, signals: seq<Signal>)

  /** The signal announcing a state. */
  function Announce(connected: bool, e2ee: Option<string>): Signal {
    if connected then Connected(e2ee) else Disconnected
  }

  /** `updateConnectionState`: a change of state is stored and announced;
      a repeated state is neither. */
  function UpdateConnectionState(stored: Option<bool>, connected: bool, e2ee: Option<string>): (r: Emission)
    ensures r.stored == Some(connected)
    ensures |r.signals| <= 1
    ensures r.signals != [] <==> stored != Some(connected)
    ensures r.signals != [] ==> r.signals[0].Connected? == connected
    ensures forall i :: 0 <= i < |r.signals| && r.signals[i].Connected? ==> r.signals[i].e2ee == e2ee
  {
    if stored != Some(connected) then
      Emission(Some(connected), [Announce(connected, e2ee)])
    else
      Emission(stored, [])
  }

  /** A repeated update is absorbed: the second call stores the same state
      and emits nothing. */
  lemma {:induction false} UpdateIdempotent(stored: Option<bool>, connected: bool, e2ee: Option<string>)
    ensures var first := UpdateConnectionState(stored, connected, e2ee);
      var second := UpdateConnectionState(first.stored, connected, e2ee);
      && second.stored == first.stored
      && second.signals == []
  {
  }

  /** What the nodes show once the configuration node connects: it
      announces the connection unless it was already connected, and the
      status then carries " (E2EE)" exactly when both the keys and the
      passphrase are set. */
  lemma {:induction false} StatusAfterConnect(stored: Option<bool>, keys: Option<string>, passphrase: Option<string>)
    ensures var r := UpdateConnectionState(stored, true, E2ee(keys, passphrase));
      && (r.signals != [] <==> stored != Some(true))
      && (r.signals != [] ==>
            && r.signals[0].Connected?
            && ConnectedStatus(r.signals[0].e2ee)
               == (if Truthy(keys) && Truthy(passphrase) then "connected (E2EE)" else "connected"))
  {
  }

  /** A sequence of updates, each with the node's e2ee value. */
  function UpdateAll(stored: Option<bool>, states: seq<bool>, e2ee: Option<string>): (r: Emission)
    ensures states == [] ==> r.stored == stored
    ensures states != [] ==> r.stored == Some(states[|states| - 1])
    ensures r.signals == [] ==> r.stored == stored
    ensures r.signals != [] ==> stored != Some(r.signals[0].Connected?)
    ensures r.signals != [] ==> r.stored == Some(r.signals[|r.signals| - 1].Connected?)
    ensures forall i :: 0 <= i < |r.signals| - 1 ==> r.signals[i].Connected? != r.signals[i + 1].Connected?
    ensures forall i :: 0 <= i < |r.signals| && r.signals[i].Connected? ==> r.signals[i].e2ee == e2ee
    ensures |r.signals| <= |states|
    decreases |states|
  {
    if states == [] then
      Emission(stored, [])
    else
      var step := UpdateConnectionState(stored, states[0], e2ee);
      var rest := UpdateAll(step.stored, states[1..], e2ee);
      Emission(rest.stored, step.signals + rest.signals)
  }

  /** The state in force before the `i`-th update. */
  function Before(stored: Option<bool>, states: seq<bool>, i: nat): Option<bool>
    requires i < |states|
  {
    if i == 0 then stored else Some(states[i - 1])
  }

  /** The number of updates among the first `n` that change the state. */
  function CountChanges(stored: Option<bool>, states: seq<bool>, n: nat): nat
    requires n <= |states|
  {
    if n == 0 then 0
    else CountChanges(stored, states, n - 1) + (if Before(stored, states, n - 1) != Some(states[n - 1]) then 1 else 0)
  }

  /** Counting the changes from the front: the first update, then the rest
      starting from the state it left. */
  lemma {:induction false} CountChangesFromFront(stored: Option<bool>, states: seq<bool>, n: nat)
    requires 1 <= n <= |states|
    ensures CountChanges(stored, states, n)
         == (if stored != Some(states[0]) then 1 else 0) + CountChanges(Some(states[0]), states[1..], n - 1)
  {
    if n > 1 {
      CountChangesFromFront(stored, states, n - 1);
      assert Before(stored, states, n - 1) == Before(Some(states[0]), states[1..], n - 2);
    }
  }

  /** Every change of state is announced, and nothing else: there are as
      many signals as updates that change the state. With the alternation,
      the final state and the e2ee value `UpdateAll` ensures, this fixes
      the signals. */
  lemma {:induction false} UpdateAllAnnouncesChanges(stored: Option<bool>, states: seq<bool>, e2ee: Option<string>)
    ensures |UpdateAll(stored, states, e2ee).signals| == CountChanges(stored, states, |states|)
    decreases |states|
  {
    if states != [] {
      UpdateAllAnnouncesChanges(Some(states[0]), states[1..], e2ee);
      CountChangesFromFront(stored, states, |states|);
    }
  }
}
