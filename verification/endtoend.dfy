/**
 * What the server and the browser client do together: the name a browser
 * registers, what every browser shows for a chat message, and the
 * scenarios a chat session goes through.
 */
module EndToEnd {
  import opened Wrappers
  import opened Text
  import opened Registry
  import opened Session
  import opened Client

  /**
   * The server strips the browser's registration frame, so the recorded
   * name keeps the `":/"` prefix and loses only trailing whitespace of the
   * user name; it never equals the user name itself.
   */
  lemma BrowserRegistersPrefixedName(userName: Option<string>)
    ensures Strip(RegistrationFrame(userName)) == ":/" + TrimEnd(userName.GetOr("null"))
    ensures Strip(RegistrationFrame(userName)) != userName.GetOr("null")
  {
    var u := userName.GetOr("null");
    assert RegistrationFrame(userName) == ":/" + u;
    StripKeepsHead(":/", u);
    var t := TrimEnd(u);
    assert |":/" + t| == |t| + 2;
    assert |t| <= |u|;
    if ":/" + t == u {
      assert false;
    }
  }

  /**
   * Every browser takes a chat frame apart at the separator after the
   * sender's address: it shows the address as the speaker and
   * `"{name}: {data}"` as the message, since the address contains no `": "`.
   */
  lemma BrowserSeesAddressAsSpeaker(ip: string, name: string, data: string)
    requires !Contains(ip, Sep)
    ensures Parse(WireText(ip, name, data)) == Parsed(ip, Labelled(name, data))
  {
    assert WireText(ip, name, data) == ip + Sep + Labelled(name, data);
    ParseRoundTrip(ip, Labelled(name, data));
  }

  /**
   * Since the speaker a browser sees is the sender's address, a bubble is
   * styled as the user's own exactly when the user name equals the sender's
   * address, whatever name the sender registered.
   */
  lemma SelfStyleFollowsAddress(userName: Option<string>, ip: string, name: string, data: string)
    requires !Contains(ip, Sep)
    ensures IsOwn(userName, Parse(WireText(ip, name, data)).sender) <==> userName == Some(ip)
  {
    BrowserSeesAddressAsSpeaker(ip, name, data);
  }

  /**
   * A browser user registers and then sends messages: every frame of the
   * k-th broadcast reaches each browser as speaker = the sender's address
   * and message = `":/{user name}: {k-th message}"`, whatever other
   * sessions do in between.
   */
  lemma BrowserChat(shared: Shared, h: Handle, ip: string, userName: Option<string>, evs: seq<Event>)
    requires !Contains(ip, Sep)
    ensures var t := Serve(shared, h, ip, [Frame(RegistrationFrame(userName))] + evs); var msgs := FramesUntilClose(evs);
      && |t.batches| == |msgs|
      && forall k, j :: 0 <= k < |msgs| && 0 <= j < |t.batches[k]| ==>
           Parse(t.batches[k][j].text) == Parsed(ip, Labelled(":/" + TrimEnd(userName.GetOr("null")), msgs[k]))
  {
    var name := Strip(RegistrationFrame(userName));
    BrowserRegistersPrefixedName(userName);
    ServeBroadcastsEachMessage(shared, h, ip, RegistrationFrame(userName), evs);
    var msgs := FramesUntilClose(evs);
    forall k | 0 <= k < |msgs| {
      BrowserSeesAddressAsSpeaker(ip, name, msgs[k]);
    }
  }

  // ---------------------------------------------------------------------
  // Scenarios

  /** An event that sends nothing leaves the broadcasts to the rest of the run. */
  lemma QuietStep(st: State, ev: Event, rest: seq<Event>, next: State)
    requires Step(st, ev) == Outcome(next, None)
    ensures Run(st, [ev] + rest).batches == Run(next, rest).batches
  {
    assert ([ev] + rest)[1..] == rest;
    assert [] + Run(next, rest).batches == Run(next, rest).batches;
  }

  /** A first event that sends nothing leaves the handler's broadcasts to the rest of its run. */
  lemma ServeQuietThen(shared: Shared, h: Handle, ip: string, ev: Event, rest: seq<Event>, next: State, b: seq<seq<Send>>)
    requires Step(Open(shared, h, ip), ev) == Outcome(next, None)
    requires Run(next, rest).batches == b
    ensures Serve(shared, h, ip, [ev] + rest).batches == b
  {
    QuietStep(Open(shared, h, ip), ev, rest, next);
  }

  /** A message from the only registered connection goes back to that connection alone. */
  lemma SoleMemberHearsItself(st: State, data: string)
    requires st.phase.Active? && |st.shared.registry| == 1 && st.shared.registry[0].handle == st.handle
    ensures Run(st, [Frame(data)]).batches == [[Send(st.handle, WireText(st.ip, st.phase.name, data))]]
  {
    MessageFrameBroadcasts(st, data);
    var f := Step(st, Frame(data)).fanout.value;
    assert f == [Send(st.handle, WireText(st.ip, st.phase.name, data))];
    assert [Frame(data)][1..] == [];
  }

  /** Naming a fresh connection "{name}" when the name has no edge whitespace. */
  lemma NamedAs(st: State, name: string)
    requires st.phase == AwaitingName && |name| > 0 && NoEdgeSpace(name)
    ensures Step(st, Frame(name)).state.phase == Active(name)
    ensures Step(st, Frame(name)).state.shared.registry == st.shared.registry
    ensures Step(st, Frame(name)).fanout == None
  {
    assert name == [] + name + [];
    StripOfPadded([], name, []);
    FirstFrameRegistersName(st, name);
  }

  lemma AliceJoins(h: Handle, ip: string)
    ensures var o := Step(Open(Initial, h, ip), Frame("Alice"));
      && o.fanout == None
      && o.state == State(Shared([Entry(h, ip)], Initial.names["Alice" := ip]), h, ip, Active("Alice"))
  {
    var st0 := Open(Initial, h, ip);
    assert st0.shared.registry == [Entry(h, ip)];
    NamedAs(st0, "Alice");
  }

  /** On a fresh server, a client names itself "Alice" and says "hello": the only connection, hers, gets "{ip}: Alice: hello". */
  lemma AliceSaysHello(h: Handle, ip: string)
    ensures Serve(Initial, h, ip, [Frame("Alice"), Frame("hello")]).batches
         == [[Send(h, WireText(ip, "Alice", "hello"))]]
  {
    var st1 := State(Shared([Entry(h, ip)], Initial.names["Alice" := ip]), h, ip, Active("Alice"));
    var hello := [[Send(h, WireText(ip, "Alice", "hello"))]];
    assert Step(Open(Initial, h, ip), Frame("Alice")) == Outcome(st1, None) by {
      AliceJoins(h, ip);
    }
    assert Run(st1, [Frame("hello")]).batches == hello by {
      SoleMemberHearsItself(st1, "hello");
    }
    ServeQuietThen(Initial, h, ip, Frame("Alice"), [Frame("hello")], st1, hello);
    TwoEvents(Frame("Alice"), Frame("hello"));
  }

  /**
   * Solver aid: a two-event literal is its first event followed by the
   * second. Stated generically, since on the literal itself the solver
   * unfolds the scenario's functions eagerly.
   */
  lemma TwoEvents(a: Event, b: Event)
    ensures [a, b] == [a] + [b]
  {
  }

  /** Removing the first of two different connections leaves the second alone. */
  lemma FirstOfTwoLeaves(a: Entry, b: Entry)
    requires a.handle != b.handle
    ensures Disconnect([a, b], a.handle) == [b]
  {
    assert IsFirst([a, b], a.handle, 0);
  }

  /** Solver aid: a three-event literal regrouped, stated generically as `TwoEvents` is. */
  lemma ThreeEvents(a: Event, b: Event, c: Event)
    ensures [a, b, c] == [a] + ([b] + [c])
  {
  }

  /** Solver aid: another session's disconnect, as one step, only shrinks the registry. */
  lemma PeerLeaves(st: State, p: Handle)
    ensures Step(st, PeerLeft(p)) == Outcome(st.(shared := st.shared.(registry := Disconnect(st.shared.registry, p))), None)
  {
  }

  /** Carol connects after Bob and names herself. */
  lemma CarolJoins(bob: Handle, bobIp: string, carol: Handle, carolIp: string, names: map<string, string>)
    ensures var o := Step(Open(Shared([Entry(bob, bobIp)], names), carol, carolIp), Frame("Carol"));
      && o.fanout == None
      && o.state == State(Shared([Entry(bob, bobIp), Entry(carol, carolIp)], names["Carol" := carolIp]), carol, carolIp, Active("Carol"))
  {
    var st0 := Open(Shared([Entry(bob, bobIp)], names), carol, carolIp);
    assert st0.shared.registry == [Entry(bob, bobIp), Entry(carol, carolIp)];
    NamedAs(st0, "Carol");
  }

  /**
   * Bob and Carol are connected; Bob leaves; Carol's "hi" reaches Carol
   * only, since Bob is no longer a member.
   */
  lemma AfterBobLeavesOnlyCarolHears(bob: Handle, bobIp: string, carol: Handle, carolIp: string, names: map<string, string>)
    requires bob != carol
    ensures Serve(Shared([Entry(bob, bobIp)], names), carol, carolIp, [Frame("Carol"), PeerLeft(bob), Frame("hi")]).batches
         == [[Send(carol, WireText(carolIp, "Carol", "hi"))]]
  {
    var st0 := Open(Shared([Entry(bob, bobIp)], names), carol, carolIp);
    var names1 := names["Carol" := carolIp];
    var st1 := State(Shared([Entry(bob, bobIp), Entry(carol, carolIp)], names1), carol, carolIp, Active("Carol"));
    var st2 := State(Shared([Entry(carol, carolIp)], names1), carol, carolIp, Active("Carol"));
    var hi := [[Send(carol, WireText(carolIp, "Carol", "hi"))]];
    assert Step(st0, Frame("Carol")) == Outcome(st1, None) by {
      CarolJoins(bob, bobIp, carol, carolIp, names);
    }
    assert Step(st1, PeerLeft(bob)) == Outcome(st2, None) by {
      FirstOfTwoLeaves(Entry(bob, bobIp), Entry(carol, carolIp));
      PeerLeaves(st1, bob);
    }
    assert Run(st2, [Frame("hi")]).batches == hi by {
      SoleMemberHearsItself(st2, "hi");
    }
    assert Run(st1, [PeerLeft(bob)] + [Frame("hi")]).batches == hi by {
      QuietStep(st1, PeerLeft(bob), [Frame("hi")], st2);
    }
    ServeQuietThen(Shared([Entry(bob, bobIp)], names), carol, carolIp, Frame("Carol"), [PeerLeft(bob)] + [Frame("hi")], st1, hi);
    ThreeEvents(Frame("Carol"), PeerLeft(bob), Frame("hi"));
  }

  /** A blank first frame registers the empty name: later messages go out as "{ip}: : {message}". */
  lemma BlankNameFrame(shared: Shared, h: Handle, ip: string, blank: string, evs: seq<Event>)
    requires AllSpace(blank)
    ensures var t := Serve(shared, h, ip, [Frame(blank)] + evs); var msgs := FramesUntilClose(evs);
      && |t.batches| == |msgs|
      && forall k, j :: 0 <= k < |msgs| && 0 <= j < |t.batches[k]| ==> t.batches[k][j].text == ip + ": : " + msgs[k]
  {
    assert blank == blank + "" + [];
    StripOfPadded(blank, "", []);
    assert Strip(blank) == "";
    ServeBroadcastsEachMessage(shared, h, ip, blank, evs);
    forall m: string ensures WireText(ip, "", m) == ip + ": : " + m {
      assert WireText(ip, "", m) == ip + ": " + ("" + ": " + m);
    }
  }
}
