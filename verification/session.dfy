/**
 * The server's per-connection handler `websocket_endpoint` as a state
 * machine over the events one connection observes: the first frame names
 * the connection, each later frame is broadcast, and a disconnect removes
 * the connection and ends the loop. Other sessions act on the shared
 * registry and name table only through the operations `connect`,
 * `disconnect` and the name-table write, so they appear here as events of
 * their own, interleaved between this session's frames.
 */
module Session {
  import opened Wrappers
  import opened Text
  import opened Registry

  /** Where one connection's handler is: before its name, in its loop, or returned. */
  datatype Phase = AwaitingName | Active(name: string) | Terminated

  datatype Event =
    | Frame(text: string)                          // `receive_text()` returned a frame
    | Closed                                       // `receive_text()` raised `WebSocketDisconnect`
    | Failed                                       // `receive_text()` raised any other exception
    | PeerJoined(peer: Handle, peerIp: string)     // another session's `manager.connect`
    | PeerLeft(peer: Handle)                       // another session's `manager.disconnect`
    | PeerNamed(peerName: string, peerIp: string)  // another session's `Names[name] = ip`

  /** The state all sessions share: `manager.active_connections` and `Names`. */
  datatype Shared = Shared(registry: Connections, names: map<string, string>)

  /** The server at start-up: no connections, no names. */
  const Initial: Shared := Shared([], map[])

  /** One handler's view: the shared state plus its own connection and phase. */
  datatype State = State(shared: Shared, handle: Handle, ip: string, phase: Phase)

  /** The result of one event: the next state and, when a frame was broadcast, its sends. */
  datatype Outcome = Outcome(state: State, fanout: Option<seq<Send>>)

  /** The wire text of chat message `data` from `name` at `ip` (main.py lines 93 and 60). */
  function WireText(ip: string, name: string, data: string): string {
    Labelled(ip, Labelled(name, data))
  }

  /** Entering the handler: `manager.connect(websocket)` registers the connection. */
  function Open(shared: Shared, h: Handle, ip: string): (st: State)
    ensures st.phase == AwaitingName && st.handle == h && st.ip == ip
    ensures st.shared.names == shared.names
    ensures |st.shared.registry| == |shared.registry| + 1
    ensures st.shared.registry[..|shared.registry|] == shared.registry
    ensures st.shared.registry[|shared.registry|] == Entry(h, ip)
  {
    State(Shared(Connect(shared.registry, h, ip), shared.names), h, ip, AwaitingName)
  }

  /**
   * One event. Only a frame received in the message loop produces a
   * broadcast, and it reaches every registered connection; a session's own
   * handle and address never change.
   */
  function Step(st: State, ev: Event): (o: Outcome)
    ensures o.state.handle == st.handle && o.state.ip == st.ip
    ensures o.fanout.Some? <==> st.phase.Active? && ev.Frame?
    ensures o.fanout.Some? ==> |o.fanout.value| == |st.shared.registry|
    ensures st.phase.Terminated? ==> o.state.phase.Terminated?
  {
    var shared := st.shared;
    match ev
    case PeerJoined(p, pip) =>
      Outcome(st.(shared := shared.(registry := Connect(shared.registry, p, pip))), None)
    case PeerLeft(p) =>
      Outcome(st.(shared := shared.(registry := Disconnect(shared.registry, p))), None)
    case PeerNamed(n, nip) =>
      Outcome(st.(shared := shared.(names := shared.names[n := nip])), None)
    case Frame(text) =>
      (match st.phase
       case AwaitingName =>
         var name := Strip(text);
         Outcome(st.(shared := shared.(names := shared.names[name := st.ip]), phase := Active(name)), None)
       case Active(name) =>
         Outcome(st, Some(Broadcast(shared.registry, st.ip, Labelled(name, text))))
       case Terminated =>
         Outcome(st, None))
    case Closed =>
      if st.phase.Terminated? then Outcome(st, None)
      else Outcome(st.(shared := shared.(registry := Disconnect(shared.registry, st.handle)), phase := Terminated), None)
    case Failed =>
      // Only `WebSocketDisconnect` is caught, so the handler ends without `disconnect`.
      Outcome(st.(phase := Terminated), None)
  }

  /** The events on which `receive_text()` raises and the handler's loop ends. */
  predicate Ends(ev: Event) {
    ev.Closed? || ev.Failed?
  }

  /** The final state and the broadcasts made, one batch of sends per broadcast, in order. */
  datatype Trace = Trace(final: State, batches: seq<seq<Send>>)

  function Run(st: State, evs: seq<Event>): (t: Trace)
    ensures t.final.handle == st.handle && t.final.ip == st.ip
    ensures |t.batches| <= |evs|
    decreases |evs|
  {
    if |evs| == 0 then Trace(st, [])
    else
      var o := Step(st, evs[0]);
      var rest := Run(o.state, evs[1..]);
      Trace(rest.final, (if o.fanout.Some? then [o.fanout.value] else []) + rest.batches)
  }

  /**
   * The whole handler for one connection at `ip`, from `connect` to the end
   * of its events. Its first event is never broadcast: before the name
   * frame has been read there is no loop to broadcast from.
   */
  function Serve(shared: Shared, h: Handle, ip: string, evs: seq<Event>): (t: Trace)
    ensures t.final.handle == h && t.final.ip == ip
    ensures |evs| > 0 ==> |t.batches| < |evs|
  {
    var st := Open(shared, h, ip);
    if |evs| > 0 then
      assert Step(st, evs[0]).fanout == None;
      Run(st, evs)
    else Run(st, evs)
  }

  /** The chat messages the loop will read: the frames before it ends. */
  function FramesUntilClose(evs: seq<Event>): seq<string>
    decreases |evs|
  {
    if |evs| == 0 then []
    else
      match evs[0]
      case Frame(t) => [t] + FramesUntilClose(evs[1..])
      case Closed => []
      case Failed => []
      case _ => FramesUntilClose(evs[1..])
  }

  // ---------------------------------------------------------------------
  // One step

  /**
   * The first frame, stripped, becomes the name; `Names[name]` is set to the
   * client's address, overwriting any earlier entry, and every other name
   * keeps its address. Nothing is sent and the registry is untouched.
   */
  lemma FirstFrameRegistersName(st: State, text: string)
    requires st.phase == AwaitingName
    ensures var o := Step(st, Frame(text));
      && o.state.phase == Active(Strip(text))
      && o.state.shared.names.Keys == st.shared.names.Keys + {Strip(text)}
      && o.state.shared.names[Strip(text)] == st.ip
      && SameExcept(st.shared.names, o.state.shared.names, Strip(text))
      && o.state.shared.registry == st.shared.registry
      && o.fanout == None
  {
    var o := Step(st, Frame(text));
    assert o.state.shared.names == st.shared.names[Strip(text) := st.ip];
    WriteKeepsOthers(st.shared.names, Strip(text), st.ip);
  }

  /** Every key of `a` other than `k` is in `b` with the same value. */
  ghost predicate SameExcept<K, V>(a: map<K, V>, b: map<K, V>, k: K) {
    forall n :: n in a && n != k ==> n in b && b[n] == a[n]
  }

  lemma WriteKeepsOthers<K, V>(m: map<K, V>, k: K, v: V)
    ensures m[k := v].Keys == m.Keys + {k}
    ensures m[k := v][k] == v
    ensures SameExcept(m, m[k := v], k)
  {
  }

  /**
   * In the loop, a frame `data` goes, unstripped, to every registered
   * connection in registry order, the sender included, as
   * `"{ip}: {name}: {data}"`; the shared state and the phase are unchanged.
   */
  lemma MessageFrameBroadcasts(st: State, data: string)
    requires st.phase.Active?
    ensures var o := Step(st, Frame(data));
      && o.state == st
      && o.fanout.Some?
      && |o.fanout.value| == |st.shared.registry|
      && (forall i :: 0 <= i < |o.fanout.value| ==>
            o.fanout.value[i] == Send(st.shared.registry[i].handle, WireText(st.ip, st.phase.name, data)))
  {
  }

  /**
   * A disconnect while receiving removes this connection's first entry,
   * keeps every other connection, leaves the names alone and ends the loop.
   */
  lemma CloseRemovesConnection(st: State)
    requires !st.phase.Terminated?
    ensures var o := Step(st, Closed);
      && o.state.phase == Terminated
      && o.fanout == None
      && o.state.shared.names == st.shared.names
      && Count(o.state.shared.registry, st.handle) == (if Count(st.shared.registry, st.handle) > 0 then Count(st.shared.registry, st.handle) - 1 else 0)
      && (forall g :: g != st.handle ==> Count(o.state.shared.registry, g) == Count(st.shared.registry, g))
  {
  }

  /**
   * Any other exception from `receive_text()`, before or after the name,
   * ends the handler without `manager.disconnect`: the connection stays
   * registered, so every broadcast made afterwards, from any session and
   * after any later joins, leaves and name writes of other sessions, is
   * still addressed to it.
   */
  lemma FailureKeepsConnection(st: State, evs: seq<Event>, senderIp: string, message: string)
    requires !st.phase.Terminated?
    ensures var o := Step(st, Failed);
      && o.state.phase == Terminated
      && o.fanout == None
      && o.state.shared == st.shared
      && (Has(st.shared.registry, st.handle) && NoPeerRemoves(evs, st.handle) ==>
            Send(st.handle, Labelled(senderIp, message)) in Broadcast(Run(o.state, evs).final.shared.registry, senderIp, message))
  {
    var o := Step(st, Failed);
    if Has(st.shared.registry, st.handle) && NoPeerRemoves(evs, st.handle) {
      ReturnedStaysRegistered(o.state, evs);
      BroadcastReachesEveryMember(Run(o.state, evs).final.shared.registry, senderIp, message, st.handle);
    }
  }

  /** A returned handler's connection stays registered unless some session disconnects it. */
  lemma {:induction false} ReturnedStaysRegistered(st: State, evs: seq<Event>)
    requires st.phase == Terminated && Has(st.shared.registry, st.handle)
    requires NoPeerRemoves(evs, st.handle)
    ensures Has(Run(st, evs).final.shared.registry, st.handle)
    decreases |evs|
  {
    if |evs| > 0 {
      var o := Step(st, evs[0]);
      assert evs[0] != PeerLeft(st.handle);
      HasIffCount(st.shared.registry, st.handle);
      HasIffCount(o.state.shared.registry, st.handle);
      assert NoPeerRemoves(evs[1..], st.handle) by {
        forall i | 0 <= i < |evs[1..]| ensures evs[1..][i] != PeerLeft(st.handle) {
          assert evs[1..][i] == evs[i + 1];
        }
      }
      ReturnedStaysRegistered(o.state, evs[1..]);
    }
  }

  // ---------------------------------------------------------------------
  // Whole runs

  /** After the handler has returned, no frame is processed and nothing is sent. */
  lemma {:induction false} TerminatedIsSilent(st: State, evs: seq<Event>)
    requires st.phase == Terminated
    ensures Run(st, evs).batches == []
    ensures Run(st, evs).final.phase == Terminated
    decreases |evs|
  {
    if |evs| > 0 {
      TerminatedIsSilent(Step(st, evs[0]).state, evs[1..]);
    }
  }

  /** Another session's registry or name-table write neither sends nor moves this session's phase. */
  lemma PeerEventIsQuiet(st: State, ev: Event)
    requires ev.PeerJoined? || ev.PeerLeft? || ev.PeerNamed?
    ensures Step(st, ev).fanout == None
    ensures Step(st, ev).state.phase == st.phase
  {
  }

  /**
   * Per-sender FIFO: in the loop, there is exactly one broadcast per frame
   * read before the disconnect, in receive order, and every send of the
   * k-th broadcast carries `"{ip}: {name}: {k-th frame}"`.
   */
  lemma {:induction false} LoopBroadcastsInOrder(st: State, evs: seq<Event>)
    requires st.phase.Active?
    ensures var t := Run(st, evs); var frames := FramesUntilClose(evs);
      && |t.batches| == |frames|
      && (forall k, j :: 0 <= k < |frames| && 0 <= j < |t.batches[k]| ==>
            t.batches[k][j].text == WireText(st.ip, st.phase.name, frames[k]))
    decreases |evs|
  {
    if |evs| > 0 {
      var o := Step(st, evs[0]);
      var rest := Run(o.state, evs[1..]);
      assert Run(st, evs).batches == (if o.fanout.Some? then [o.fanout.value] else []) + rest.batches;
      if Ends(evs[0]) {
        TerminatedIsSilent(o.state, evs[1..]);
      } else if evs[0].Frame? {
        MessageFrameBroadcasts(st, evs[0].text);
        LoopBroadcastsInOrder(o.state, evs[1..]);
        assert FramesUntilClose(evs) == [evs[0].text] + FramesUntilClose(evs[1..]);
      } else {
        PeerEventIsQuiet(st, evs[0]);
        LoopBroadcastsInOrder(o.state, evs[1..]);
        assert FramesUntilClose(evs) == FramesUntilClose(evs[1..]);
      }
    }
  }

  /** Some send of batch `b` goes to `h`. */
  predicate Reaches(b: seq<Send>, h: Handle) {
    exists s :: s in b && s.recipient == h
  }

  /** No event in `evs` removes connection `h` on another session's behalf. */
  predicate NoPeerRemoves(evs: seq<Event>, h: Handle) {
    forall i :: 0 <= i < |evs| ==> evs[i] != PeerLeft(h)
  }

  /**
   * Echo-back: while its own connection is registered, every broadcast of a
   * session reaches the sender itself too.
   */
  lemma {:induction false} SenderHearsItself(st: State, evs: seq<Event>)
    requires Has(st.shared.registry, st.handle)
    requires NoPeerRemoves(evs, st.handle)
    ensures forall b :: b in Run(st, evs).batches ==> Reaches(b, st.handle)
    decreases |evs|
  {
    if |evs| > 0 {
      var o := Step(st, evs[0]);
      var reg := st.shared.registry;
      assert NoPeerRemoves(evs[1..], st.handle) by {
        forall i | 0 <= i < |evs[1..]| ensures evs[1..][i] != PeerLeft(st.handle) {
          assert evs[1..][i] == evs[i + 1];
        }
      }
      if o.state.phase.Terminated? {
        TerminatedIsSilent(o.state, evs[1..]);
      } else {
        HasIffCount(reg, st.handle);
        HasIffCount(o.state.shared.registry, st.handle);
        assert evs[0] != PeerLeft(st.handle);
        assert Has(o.state.shared.registry, st.handle);
        SenderHearsItself(o.state, evs[1..]);
      }
      if o.fanout.Some? {
        var i :| 0 <= i < |reg| && reg[i].handle == st.handle;
        assert o.fanout.value[i].recipient == st.handle;
        assert Reaches(o.fanout.value, st.handle);
      }
    }
  }

  /** The loop the handler enters after `connect` and the name frame. */
  function AfterName(shared: Shared, h: Handle, ip: string, nameFrame: string): State {
    Step(Open(shared, h, ip), Frame(nameFrame)).state
  }

  /** After `connect` and the name frame, the rest of the handler is its loop. */
  lemma ServeIsLoopAfterName(shared: Shared, h: Handle, ip: string, nameFrame: string, evs: seq<Event>)
    ensures Serve(shared, h, ip, [Frame(nameFrame)] + evs) == Run(AfterName(shared, h, ip, nameFrame), evs)
  {
    assert ([Frame(nameFrame)] + evs)[1..] == evs;
  }

  /** In that loop the connection is named, active and registered. */
  lemma AfterNameIsActive(shared: Shared, h: Handle, ip: string, nameFrame: string)
    ensures var st := AfterName(shared, h, ip, nameFrame);
      && st.phase == Active(Strip(nameFrame)) && st.ip == ip && st.handle == h
      && Strip(nameFrame) in st.shared.names && st.shared.names[Strip(nameFrame)] == ip
  {
    FirstFrameRegistersName(Open(shared, h, ip), nameFrame);
  }

  lemma AfterNameIsRegistered(shared: Shared, h: Handle, ip: string, nameFrame: string)
    ensures Has(AfterName(shared, h, ip, nameFrame).shared.registry, h)
  {
    var st := AfterName(shared, h, ip, nameFrame);
    assert st.shared.registry[|shared.registry|].handle == h;
  }

  /** No event in `evs` writes `Names[name]` on another session's behalf. */
  predicate NoPeerNames(evs: seq<Event>, name: string) {
    forall i :: 0 <= i < |evs| ==> !(evs[i].PeerNamed? && evs[i].peerName == name)
  }

  /** Some event of `evs` ends the loop. */
  predicate EndsSomewhere(evs: seq<Event>) {
    exists i :: 0 <= i < |evs| && Ends(evs[i])
  }

  /**
   * Once the name has been read, only another session's write of the same
   * name changes its entry in `Names`.
   */
  lemma {:induction false} NameStays(st: State, evs: seq<Event>, name: string)
    requires !st.phase.AwaitingName?
    requires name in st.shared.names && NoPeerNames(evs, name)
    ensures name in Run(st, evs).final.shared.names
    ensures Run(st, evs).final.shared.names[name] == st.shared.names[name]
    decreases |evs|
  {
    if |evs| > 0 {
      var o := Step(st, evs[0]);
      assert !(evs[0].PeerNamed? && evs[0].peerName == name);
      assert name in o.state.shared.names && o.state.shared.names[name] == st.shared.names[name];
      assert NoPeerNames(evs[1..], name) by {
        forall i | 0 <= i < |evs[1..]| ensures !(evs[1..][i].PeerNamed? && evs[1..][i].peerName == name) {
          assert evs[1..][i] == evs[i + 1];
        }
      }
      NameStays(o.state, evs[1..], name);
    }
  }

  /** The loop is still running after `evs` exactly when none of them ended it. */
  lemma {:induction false} LoopEndsOnlyOnEnd(st: State, evs: seq<Event>)
    requires st.phase.Active?
    ensures Run(st, evs).final.phase == if EndsSomewhere(evs) then Terminated else st.phase
    decreases |evs|
  {
    if |evs| > 0 {
      var o := Step(st, evs[0]);
      if Ends(evs[0]) {
        TerminatedIsSilent(o.state, evs[1..]);
        assert EndsSomewhere(evs);
      } else {
        assert o.state.phase == st.phase;
        LoopEndsOnlyOnEnd(o.state, evs[1..]);
        assert EndsSomewhere(evs) <==> EndsSomewhere(evs[1..]) by {
          if EndsSomewhere(evs[1..]) {
            var i :| 0 <= i < |evs[1..]| && Ends(evs[1..][i]);
            assert Ends(evs[i + 1]);
          }
          if EndsSomewhere(evs) {
            var i :| 0 <= i < |evs| && Ends(evs[i]);
            assert i > 0 && Ends(evs[1..][i - 1]);
          }
        }
      }
    }
  }

  /**
   * The handler end to end, with any interleaving of other sessions'
   * writes: the first frame names the connection; each later frame before
   * the loop ends is broadcast, in order, as `"{ip}: {stripped name}: {frame}"`;
   * the handler is still in its loop exactly when no event ended it; and
   * `Names` maps the name to the address unless another session wrote
   * that name since.
   */
  lemma ServeBroadcastsEachMessage(shared: Shared, h: Handle, ip: string, nameFrame: string, evs: seq<Event>)
    ensures var t := Serve(shared, h, ip, [Frame(nameFrame)] + evs); var msgs := FramesUntilClose(evs);
      && |t.batches| == |msgs|
      && (forall k, j :: 0 <= k < |msgs| && 0 <= j < |t.batches[k]| ==> t.batches[k][j].text == WireText(ip, Strip(nameFrame), msgs[k]))
      && t.final.phase == (if EndsSomewhere(evs) then Terminated else Active(Strip(nameFrame)))
      && (NoPeerNames(evs, Strip(nameFrame)) ==>
            Strip(nameFrame) in t.final.shared.names && t.final.shared.names[Strip(nameFrame)] == ip)
  {
    var st1 := AfterName(shared, h, ip, nameFrame);
    ServeIsLoopAfterName(shared, h, ip, nameFrame, evs);
    AfterNameIsActive(shared, h, ip, nameFrame);
    LoopBroadcastsInOrder(st1, evs);
    LoopEndsOnlyOnEnd(st1, evs);
    if NoPeerNames(evs, Strip(nameFrame)) {
      NameStays(st1, evs, Strip(nameFrame));
    }
  }

  /**
   * Every broadcast of a handler run reaches the sender's own connection.
   * `PeerLeft(h)` is excluded: only the handler of `h` calls `disconnect`
   * with `h`'s websocket.
   */
  lemma ServeReachesSender(shared: Shared, h: Handle, ip: string, nameFrame: string, evs: seq<Event>)
    requires NoPeerRemoves(evs, h)
    ensures forall b :: b in Serve(shared, h, ip, [Frame(nameFrame)] + evs).batches ==> Reaches(b, h)
  {
    var st1 := AfterName(shared, h, ip, nameFrame);
    ServeIsLoopAfterName(shared, h, ip, nameFrame, evs);
    AfterNameIsActive(shared, h, ip, nameFrame);
    AfterNameIsRegistered(shared, h, ip, nameFrame);
    SenderHearsItself(st1, evs);
  }

  /** Each of those broadcasts gives the sender its own copy of the message. */
  lemma ServeEchoesToSender(shared: Shared, h: Handle, ip: string, nameFrame: string, evs: seq<Event>)
    requires NoPeerRemoves(evs, h)
    ensures var t := Serve(shared, h, ip, [Frame(nameFrame)] + evs); var msgs := FramesUntilClose(evs);
      && |t.batches| == |msgs|
      && (forall k :: 0 <= k < |msgs| ==> Send(h, WireText(ip, Strip(nameFrame), msgs[k])) in t.batches[k])
  {
    ServeReachesSender(shared, h, ip, nameFrame, evs);
    ServeBroadcastsEachMessage(shared, h, ip, nameFrame, evs);
    var t := Serve(shared, h, ip, [Frame(nameFrame)] + evs);
    EchoInEveryBatch(t.batches, h, ip, Strip(nameFrame), FramesUntilClose(evs));
  }

  /** Batches that each reach `h` and each carry one message's text hold `h`'s copy of every message. */
  lemma EchoInEveryBatch(batches: seq<seq<Send>>, h: Handle, ip: string, name: string, msgs: seq<string>)
    requires |batches| == |msgs|
    requires forall k, j :: 0 <= k < |msgs| && 0 <= j < |batches[k]| ==> batches[k][j].text == WireText(ip, name, msgs[k])
    requires forall b :: b in batches ==> Reaches(b, h)
    ensures forall k :: 0 <= k < |msgs| ==> Send(h, WireText(ip, name, msgs[k])) in batches[k]
  {
    forall k | 0 <= k < |msgs| ensures Send(h, WireText(ip, name, msgs[k])) in batches[k] {
      assert batches[k] in batches;
      var s :| s in batches[k] && s.recipient == h;
      var j :| 0 <= j < |batches[k]| && batches[k][j] == s;
    }
  }
}
