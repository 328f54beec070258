/**
 * The browser client's logic (static/script.js): the name frame it sends on
 * connect, how it takes a received frame apart into sender and message, how
 * it groups consecutive messages by speaker, which bubbles it marks as its
 * own, and when the send button actually sends.
 */
module Client {
  import opened Wrappers
  import opened Text

  // ---------------------------------------------------------------------
  // Frames

  /**
   * The frame sent when the socket opens: `":/" + userName`. `prompt` can
   * return `null`, which JavaScript concatenates as the text "null".
   */
  function RegistrationFrame(userName: Option<string>): (f: string)
    ensures |f| >= 2 && f[..2] == ":/"
    ensures userName.Some? ==> f[2..] == userName.value
    ensures userName.None? ==> f[2..] == "null"
  {
    ":/" + userName.GetOr("null")
  }

  /** A received frame taken apart. */
  datatype Parsed = Parsed(sender: string, message: string)

  lemma ContainsAround(a: string, b: string)
    ensures Contains(a + Sep + b, Sep)
  {
    assert (a + Sep + b)[|a|..|a| + |Sep|] == Sep;
    assert OccursAt(a + Sep + b, Sep, |a|);
  }

  /**
   * The listener splits the frame at every `": "`, takes the first piece as
   * the sender and glues the remaining pieces back together with `": "` as
   * the message. So the sender is the text before the first separator and
   * the message all the text after it, later separators included; with no
   * separator the whole frame is the sender and the message is empty.
   */
  function Parse(data: string): (p: Parsed)
    ensures !Contains(data, Sep) ==> p == Parsed(data, "")
    ensures Contains(data, Sep) ==> data == p.sender + Sep + p.message && !Contains(p.sender, Sep)
  {
    var parts := Split(data, Sep);
    var p := Parsed(parts[0], Join(parts[1..], Sep));
    assert |parts| > 1 ==> Contains(data, Sep) by {
      if |parts| > 1 {
        ContainsAround(p.sender, p.message);
      }
    }
    p
  }

  /**
   * Splitting at the first separator is unambiguous: if two strings free of
   * `": "` each end where a separator starts in the same text, they are
   * equal. This rests on `": "` not overlapping itself.
   */
  lemma FirstSeparatorUnique(a: string, b: string, c: string, d: string)
    requires a + Sep + b == c + Sep + d
    requires !Contains(a, Sep) && !Contains(c, Sep)
    ensures a == c && b == d
  {
    var s := a + Sep + b;
    if |a| < |c| {
      SeparatorInsideLongerHead(a, b, c, d);
      assert false;
    } else if |c| < |a| {
      SeparatorInsideLongerHead(c, d, a, b);
      assert false;
    } else {
      assert a == s[..|a|] == c;
      assert b == s[|a| + 2..] == d;
    }
  }

  /** Of two ways to cut one text at a separator, the longer head contains the other separator. */
  lemma SeparatorInsideLongerHead(a: string, b: string, c: string, d: string)
    requires a + Sep + b == c + Sep + d
    requires |a| < |c|
    ensures Contains(c, Sep)
  {
    var s := a + Sep + b;
    assert s[|a|] == ':' && s[|a| + 1] == ' ';
    if |a| + 2 <= |c| {
      assert c[|a|..|a| + 2] == s[|a|..|a| + 2] == Sep;
      assert OccursAt(c, Sep, |a|);
    } else {
      // `c` would end with the ':' of the separator at |a|, so the ' ' at
      // |a| + 1 == |c| would have to be the ':' that starts the next one.
      assert false;
    }
  }

  /** Round trip: a sender free of `": "` and any message come back out of the frame they make. */
  lemma ParseRoundTrip(sender: string, message: string)
    requires !Contains(sender, Sep)
    ensures Parse(sender + Sep + message) == Parsed(sender, message)
  {
    var data := sender + Sep + message;
    ContainsAround(sender, message);
    var p := Parse(data);
    FirstSeparatorUnique(sender, message, p.sender, p.message);
  }

  /**
   * Joining pieces free of `": "` with `": "` and splitting the result again
   * gives the pieces back: `split` and `join` on the separator are inverse.
   */
  lemma SplitJoinRoundTrip(parts: seq<string>)
    requires |parts| >= 1
    requires forall k :: 0 <= k < |parts| ==> !Contains(parts[k], Sep)
    ensures Split(Join(parts, Sep), Sep) == parts
  {
    JoinUnique(Split(Join(parts, Sep), Sep), parts);
  }

  /** Two lists of separator-free pieces that join to the same text are equal. */
  lemma {:induction false} JoinUnique(a: seq<string>, b: seq<string>)
    requires |a| >= 1 && |b| >= 1
    requires forall k :: 0 <= k < |a| ==> !Contains(a[k], Sep)
    requires forall k :: 0 <= k < |b| ==> !Contains(b[k], Sep)
    requires Join(a, Sep) == Join(b, Sep)
    ensures a == b
    decreases |a|
  {
    if |a| == 1 && |b| == 1 {
    } else if |a| == 1 || |b| == 1 {
      // One side is a single separator-free piece, the other joins two or more.
      assert false;
    } else {
      FirstSeparatorUnique(a[0], Join(a[1..], Sep), b[0], Join(b[1..], Sep));
      assert forall k :: 0 <= k < |a[1..]| ==> a[1..][k] == a[k + 1];
      assert forall k :: 0 <= k < |b[1..]| ==> b[1..][k] == b[k + 1];
      JoinUnique(a[1..], b[1..]);
      assert a == [a[0]] + a[1..] && b == [b[0]] + b[1..];
    }
  }

  // ---------------------------------------------------------------------
  // Grouping consecutive messages by speaker

  datatype Bubble = Bubble(own: bool, text: string)

  /** A message group: its speaker, whether it is styled as the user's own, its bubbles. */
  datatype Group = Group(speaker: string, own: bool, bubbles: seq<Bubble>)

  /** The chat box: `lastSpeaker` (null at start) and the groups on screen; the last one is `lastMessageGroup`. */
  datatype View = View(lastSpeaker: Option<string>, groups: seq<Group>)

  const EmptyView: View := View(None, [])

  /** `sender === userName`: the "Self" classes are used exactly for the user's own name. */
  predicate IsOwn(userName: Option<string>, sender: string) {
    userName == Some(sender)
  }

  /** `!lastSpeaker || lastSpeaker !== sender`: null and the empty string both count as no speaker. */
  predicate StartsGroup(lastSpeaker: Option<string>, sender: string) {
    lastSpeaker.None? || lastSpeaker.value == "" || lastSpeaker.value != sender
  }

  /** `lastMessageGroup` is set whenever `lastSpeaker` is, and it is the last group on screen. */
  predicate HasCurrentGroup(v: View) {
    v.lastSpeaker.Some? ==> |v.groups| > 0 && v.groups[|v.groups| - 1].speaker == v.lastSpeaker.value
  }

  /** Every bubble on screen, group by group. */
  function Bubbles(groups: seq<Group>): seq<Bubble>
    decreases |groups|
  {
    if |groups| == 0 then [] else Bubbles(groups[..|groups| - 1]) + groups[|groups| - 1].bubbles
  }

  /** For every bubble on screen, in the same order, the speaker of the group it sits in. */
  function Speakers(groups: seq<Group>): seq<string>
    decreases |groups|
  {
    if |groups| == 0 then []
    else
      var g := groups[|groups| - 1];
      Speakers(groups[..|groups| - 1]) + seq(|g.bubbles|, _ => g.speaker)
  }

  lemma {:induction false} BubblesConcat(a: seq<Group>, b: seq<Group>)
    ensures Bubbles(a + b) == Bubbles(a) + Bubbles(b)
    decreases |b|
  {
    if |b| == 0 {
      assert a + b == a;
    } else {
      var init := b[..|b| - 1];
      assert (a + b)[..|a + b| - 1] == a + init && (a + b)[|a + b| - 1] == b[|b| - 1];
      BubblesConcat(a, init);
      assert Bubbles(b) == Bubbles(init) + b[|b| - 1].bubbles;
    }
  }

  lemma {:induction false} SpeakersConcat(a: seq<Group>, b: seq<Group>)
    ensures Speakers(a + b) == Speakers(a) + Speakers(b)
    decreases |b|
  {
    if |b| == 0 {
      assert a + b == a;
    } else {
      var init := b[..|b| - 1];
      assert (a + b)[..|a + b| - 1] == a + init && (a + b)[|a + b| - 1] == b[|b| - 1];
      SpeakersConcat(a, init);
      assert Speakers(b) == Speakers(init) + seq(|b[|b| - 1].bubbles|, _ => b[|b| - 1].speaker);
    }
  }

  /**
   * The body of the `message` listener after parsing. When `StartsGroup`,
   * a new group is appended after the untouched earlier groups, with the
   * sender as its speaker, styled "Self" iff the sender is the user, and
   * holding just this message. Otherwise the message joins the current
   * (last) group, whose speaker is already the sender and whose style is
   * kept, and every earlier group is untouched. Either way the message is
   * the last bubble on screen and `lastSpeaker` ends up being the sender.
   */
  function Show(userName: Option<string>, v: View, p: Parsed): (v': View)
    requires HasCurrentGroup(v)
    ensures HasCurrentGroup(v')
    ensures v'.lastSpeaker == Some(p.sender)
    ensures |v'.groups| == |v.groups| + (if StartsGroup(v.lastSpeaker, p.sender) then 1 else 0)
    ensures var kept := if StartsGroup(v.lastSpeaker, p.sender) then |v.groups| else |v.groups| - 1;
      v'.groups[..kept] == v.groups[..kept]
    ensures StartsGroup(v.lastSpeaker, p.sender) ==>
      var g := v'.groups[|v'.groups| - 1];
      g.speaker == p.sender && g.own == IsOwn(userName, p.sender) && |g.bubbles| == 1
    ensures !StartsGroup(v.lastSpeaker, p.sender) ==>
      var g := v'.groups[|v'.groups| - 1];
      g.speaker == v.groups[|v.groups| - 1].speaker == p.sender && g.own == v.groups[|v.groups| - 1].own
    ensures Bubbles(v'.groups) == Bubbles(v.groups) + [Bubble(IsOwn(userName, p.sender), p.message)]
    ensures Speakers(v'.groups) == Speakers(v.groups) + [p.sender]
  {
    var bubble := Bubble(IsOwn(userName, p.sender), p.message);
    if StartsGroup(v.lastSpeaker, p.sender) then
      var g := Group(p.sender, IsOwn(userName, p.sender), [bubble]);
      BubblesConcat(v.groups, [g]);
      SpeakersConcat(v.groups, [g]);
      assert [g][..0] == [];
      assert Speakers([g]) == [p.sender];
      View(Some(p.sender), v.groups + [g])
    else
      var n := |v.groups|;
      var last := v.groups[n - 1];
      var last' := last.(bubbles := last.bubbles + [bubble]);
      var groups' := v.groups[..n - 1] + [last'];
      assert v.groups == v.groups[..n - 1] + [last];
      BubblesConcat(v.groups[..n - 1], [last]);
      BubblesConcat(v.groups[..n - 1], [last']);
      SpeakersConcat(v.groups[..n - 1], [last]);
      SpeakersConcat(v.groups[..n - 1], [last']);
      assert [last][..0] == [] && [last'][..0] == [];
      assert Speakers([last']) == Speakers([last]) + [p.sender];
      assert groups'[..n - 1] == v.groups[..n - 1];
      View(v.lastSpeaker, groups')
  }

  /**
   * The `message` listener: parse the frame, then show it. The frame's
   * message becomes the last bubble, under its sender.
   */
  function Receive(userName: Option<string>, v: View, data: string): (v': View)
    requires HasCurrentGroup(v)
    ensures HasCurrentGroup(v')
    ensures v'.lastSpeaker == Some(Parse(data).sender)
    ensures Bubbles(v'.groups) == Bubbles(v.groups) + [Bubble(IsOwn(userName, Parse(data).sender), Parse(data).message)]
    ensures Speakers(v'.groups) == Speakers(v.groups) + [Parse(data).sender]
  {
    Show(userName, v, Parse(data))
  }

  /**
   * The chat box after receiving `frames`, in order, from page load: one
   * bubble per frame, and `lastSpeaker` is the last frame's sender.
   */
  function Render(userName: Option<string>, frames: seq<string>): (v: View)
    ensures HasCurrentGroup(v)
    ensures |Bubbles(v.groups)| == |Speakers(v.groups)| == |frames|
    ensures v.lastSpeaker == if |frames| == 0 then None else Some(Parse(frames[|frames| - 1]).sender)
    decreases |frames|
  {
    if |frames| == 0 then EmptyView
    else Receive(userName, Render(userName, frames[..|frames| - 1]), frames[|frames| - 1])
  }

  /** The messages carried by `frames`, in order. */
  function Messages(frames: seq<string>): (ms: seq<string>)
    ensures |ms| == |frames|
    ensures forall i :: 0 <= i < |frames| ==> ms[i] == Parse(frames[i]).message
    decreases |frames|
  {
    if |frames| == 0 then [] else Messages(frames[..|frames| - 1]) + [Parse(frames[|frames| - 1]).message]
  }

  /** What a well-built chat box looks like after any number of frames. */
  predicate Coherent(userName: Option<string>, v: View) {
    && (v.lastSpeaker.Some? <==> |v.groups| > 0)
    && HasCurrentGroup(v)
    && (forall k :: 0 <= k < |v.groups| ==> |v.groups[k].bubbles| > 0)
    && (forall k :: 0 <= k < |v.groups| ==> v.groups[k].own == IsOwn(userName, v.groups[k].speaker))
    && (forall k, j :: 0 <= k < |v.groups| && 0 <= j < |v.groups[k].bubbles| ==> v.groups[k].bubbles[j].own == v.groups[k].own)
    // Two neighbouring groups have different speakers, unless the first speaker is empty.
    && (forall k :: 0 <= k < |v.groups| - 1 ==> v.groups[k].speaker == "" || v.groups[k].speaker != v.groups[k + 1].speaker)
  }

  /** Showing one more message keeps the chat box coherent. */
  lemma ShowKeepsCoherent(userName: Option<string>, v: View, p: Parsed)
    requires Coherent(userName, v)
    ensures Coherent(userName, Show(userName, v, p))
  {
    if StartsGroup(v.lastSpeaker, p.sender) {
      NewGroupKeepsCoherent(userName, v, p);
    } else {
      SameGroupKeepsCoherent(userName, v, p);
    }
  }

  lemma NewGroupKeepsCoherent(userName: Option<string>, v: View, p: Parsed)
    requires Coherent(userName, v) && StartsGroup(v.lastSpeaker, p.sender)
    ensures Coherent(userName, Show(userName, v, p))
  {
    var own := IsOwn(userName, p.sender);
    var gs := v.groups + [Group(p.sender, own, [Bubble(own, p.message)])];
    var n := |v.groups|;
    assert Show(userName, v, p) == View(Some(p.sender), gs);
    forall k | 0 <= k < |gs|
      ensures |gs[k].bubbles| > 0 && gs[k].own == IsOwn(userName, gs[k].speaker)
      ensures forall j :: 0 <= j < |gs[k].bubbles| ==> gs[k].bubbles[j].own == gs[k].own
    {
      if k < n {
        assert gs[k] == v.groups[k];
      }
    }
    forall k | 0 <= k < |gs| - 1
      ensures gs[k].speaker == "" || gs[k].speaker != gs[k + 1].speaker
    {
      assert gs[k] == v.groups[k];
      if k < n - 1 {
        assert gs[k + 1] == v.groups[k + 1];
      }
    }
  }

  lemma SameGroupKeepsCoherent(userName: Option<string>, v: View, p: Parsed)
    requires Coherent(userName, v) && !StartsGroup(v.lastSpeaker, p.sender)
    ensures Coherent(userName, Show(userName, v, p))
  {
    var n := |v.groups|;
    var last := v.groups[n - 1];
    var last' := last.(bubbles := last.bubbles + [Bubble(IsOwn(userName, p.sender), p.message)]);
    var gs := v.groups[..n - 1] + [last'];
    assert Show(userName, v, p) == View(v.lastSpeaker, gs);
    assert last.speaker == p.sender;
    forall k | 0 <= k < n
      ensures |gs[k].bubbles| > 0 && gs[k].own == IsOwn(userName, gs[k].speaker)
      ensures forall j :: 0 <= j < |gs[k].bubbles| ==> gs[k].bubbles[j].own == gs[k].own
      ensures gs[k].speaker == v.groups[k].speaker
    {
      if k < n - 1 {
        assert gs[k] == v.groups[k];
      } else {
        assert gs[k] == last';
      }
    }
    forall k | 0 <= k < n - 1
      ensures gs[k].speaker == "" || gs[k].speaker != gs[k + 1].speaker
    {
      assert v.groups[k].speaker == "" || v.groups[k].speaker != v.groups[k + 1].speaker;
    }
  }

  /**
   * Whatever frames arrive: every message appears, once and in arrival
   * order, as a bubble, inside a group whose speaker is that frame's
   * sender; each group and its bubbles are "Self" exactly when the group's
   * speaker is the user; and neighbouring groups have different speakers
   * unless the first is empty, so a new group is started for every change
   * of speaker and consecutive messages of one non-empty speaker share a
   * group.
   */
  lemma {:induction false} RenderIsCoherent(userName: Option<string>, frames: seq<string>)
    ensures Coherent(userName, Render(userName, frames))
    ensures |Bubbles(Render(userName, frames).groups)| == |frames|
    ensures forall i :: 0 <= i < |frames| ==> Bubbles(Render(userName, frames).groups)[i].text == Messages(frames)[i]
    ensures forall i :: 0 <= i < |frames| ==> Speakers(Render(userName, frames).groups)[i] == Parse(frames[i]).sender
    decreases |frames|
  {
    if |frames| > 0 {
      var prev := frames[..|frames| - 1];
      RenderIsCoherent(userName, prev);
      var v := Render(userName, prev);
      var p := Parse(frames[|frames| - 1]);
      ShowKeepsCoherent(userName, v, p);
      assert Render(userName, frames) == Show(userName, v, p);
    }
    RenderKeepsTexts(userName, frames);
    RenderKeepsSpeakers(userName, frames);
  }

  /** The i-th bubble carries the i-th frame's message. */
  lemma {:induction false} RenderKeepsTexts(userName: Option<string>, frames: seq<string>)
    ensures forall i :: 0 <= i < |frames| ==> Bubbles(Render(userName, frames).groups)[i].text == Messages(frames)[i]
    ensures forall i :: 0 <= i < |frames| ==> Bubbles(Render(userName, frames).groups)[i].text == Parse(frames[i]).message
    decreases |frames|
  {
    if |frames| > 0 {
      var n := |frames|;
      var prev := frames[..n - 1];
      RenderKeepsTexts(userName, prev);
      var v := Render(userName, prev);
      assert Render(userName, frames) == Receive(userName, v, frames[n - 1]);
      assert Messages(frames) == Messages(prev) + [Parse(frames[n - 1]).message];
    }
  }

  /** The i-th bubble sits under the i-th frame's sender. */
  lemma {:induction false} RenderKeepsSpeakers(userName: Option<string>, frames: seq<string>)
    ensures forall i :: 0 <= i < |frames| ==> Speakers(Render(userName, frames).groups)[i] == Parse(frames[i]).sender
    decreases |frames|
  {
    if |frames| > 0 {
      var n := |frames|;
      var prev := frames[..n - 1];
      RenderKeepsSpeakers(userName, prev);
      var sp := Speakers(Render(userName, prev).groups);
      var sp' := Speakers(Render(userName, frames).groups);
      assert sp' == sp + [Parse(frames[n - 1]).sender];
      forall i | 0 <= i < n ensures sp'[i] == Parse(frames[i]).sender {
        if i < n - 1 {
          assert sp'[i] == sp[i] && prev[i] == frames[i];
        }
      }
    }
  }

  /** A run of messages from one non-empty speaker is shown as a single group. */
  lemma SameSpeakerExtendsGroup(userName: Option<string>, v: View, p: Parsed)
    requires HasCurrentGroup(v)
    requires v.lastSpeaker == Some(p.sender) && p.sender != ""
    ensures |Show(userName, v, p).groups| == |v.groups|
    ensures Show(userName, v, p).lastSpeaker == v.lastSpeaker
    ensures Show(userName, v, p).groups[..|v.groups| - 1] == v.groups[..|v.groups| - 1]
  {
  }

  // ---------------------------------------------------------------------
  // Sending

  /** What `sendMessage` did: the text it sent, the input box afterwards, whether it warned. */
  datatype SendResult = SendResult(sent: Option<string>, input: string, warned: bool)

  /**
   * `sendMessage`: sends the trimmed input and clears the box only when the
   * trimmed text is non-empty and the socket is open; otherwise sends
   * nothing and keeps the box, warning when the socket is not open.
   */
  function SendMessage(input: string, socketOpen: bool): (r: SendResult)
    ensures r.sent.Some? <==> socketOpen && |Strip(input)| > 0
    ensures r.sent.Some? ==> r.sent.value == Strip(input) && r.input == ""
    ensures r.sent.None? ==> r.input == input
    ensures r.warned <==> !socketOpen
  {
    var message := Strip(input);
    if message != "" && socketOpen then SendResult(Some(message), "", false)
    else if !socketOpen then SendResult(None, input, true)
    else SendResult(None, input, false)
  }

  /** What goes on the wire is never empty and has no whitespace at either end. */
  lemma SentTextIsTrimmed(input: string, socketOpen: bool)
    requires SendMessage(input, socketOpen).sent.Some?
    ensures var t := SendMessage(input, socketOpen).sent.value;
      |t| > 0 && NoEdgeSpace(t) && Strip(t) == t
  {
    StripIdempotent(input);
  }

  /** Whitespace typed around a message changes neither whether it is sent nor what is sent. */
  lemma SendIgnoresPadding(p: string, input: string, q: string, socketOpen: bool)
    requires AllSpace(p) && AllSpace(q)
    ensures SendMessage(p + input + q, socketOpen).sent == SendMessage(input, socketOpen).sent
  {
    StripAbsorbsPadding(p, input, q);
  }
}
