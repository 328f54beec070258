/**
 * The server's `ConnectionManager`: an ordered list of live connections, each
 * a transport handle paired with the client's address, with `connect`,
 * `disconnect` and `broadcast` as pure operations on that list.
 */
module Registry {
  import opened Wrappers
  import opened Text

  /** An opaque transport handle; only equality is observable. */
  type Handle = nat

  datatype Entry = Entry(handle: Handle, ip: string)

  /** `active_connections`, in connect order. */
  type Connections = seq<Entry>

  /** One outbound text frame to one recipient. */
  datatype Send = Send(recipient: Handle, text: string)

  /** How many entries carry handle `h`. */
  function Count(reg: Connections, h: Handle): nat
    decreases |reg|
  {
    if |reg| == 0 then 0
    else (if reg[0].handle == h then 1 else 0) + Count(reg[1..], h)
  }

  predicate Has(reg: Connections, h: Handle) {
    exists i :: 0 <= i < |reg| && reg[i].handle == h
  }

  /** `i` is the position of the first entry with handle `h`. */
  predicate IsFirst(reg: Connections, h: Handle, i: int) {
    0 <= i < |reg| && reg[i].handle == h && forall k :: 0 <= k < i ==> reg[k].handle != h
  }

  lemma {:induction false} CountConcat(a: Connections, b: Connections, h: Handle)
    ensures Count(a + b, h) == Count(a, h) + Count(b, h)
    decreases |a|
  {
    if |a| == 0 {
      assert a + b == b;
    } else {
      assert (a + b)[1..] == a[1..] + b;
      CountConcat(a[1..], b, h);
    }
  }

  lemma CountOne(e: Entry, h: Handle)
    ensures Count([e], h) == if e.handle == h then 1 else 0
  {
    assert [e][1..] == [];
  }

  /** Membership and a positive count are the same thing. */
  lemma {:induction false} HasIffCount(reg: Connections, h: Handle)
    ensures Has(reg, h) <==> Count(reg, h) > 0
    decreases |reg|
  {
    if |reg| > 0 {
      HasIffCount(reg[1..], h);
      if Has(reg[1..], h) {
        var i :| 0 <= i < |reg[1..]| && reg[1..][i].handle == h;
        assert reg[i + 1].handle == h;
      }
      if Has(reg, h) && reg[0].handle != h {
        var i :| 0 <= i < |reg| && reg[i].handle == h;
        assert reg[1..][i - 1].handle == h;
      }
    }
  }

  /** The first entry with handle `h`, as the `for ... break` scan of `disconnect` finds it. */
  function FirstIndex(reg: Connections, h: Handle): (r: Option<nat>)
    ensures r.Some? ==> IsFirst(reg, h, r.value)
    ensures r.None? <==> !Has(reg, h)
    decreases |reg|
  {
    if |reg| == 0 then None
    else if reg[0].handle == h then Some(0)
    else
      match FirstIndex(reg[1..], h)
      case None =>
        assert !Has(reg, h) by {
          forall i | 0 <= i < |reg| ensures reg[i].handle != h {
            if i > 0 {
              assert reg[i] == reg[1..][i - 1];
            }
          }
        }
        None
      case Some(i) =>
        assert forall k :: 1 <= k < i + 1 ==> reg[k] == reg[1..][k - 1];
        Some(i + 1)
  }

  /**
   * `connect`: appends `(h, ip)` at the end. There is no duplicate check, so
   * the count of `h` grows by one even when `h` is already present.
   */
  function Connect(reg: Connections, h: Handle, ip: string): (r: Connections)
    ensures |r| == |reg| + 1 && r[..|reg|] == reg && r[|reg|] == Entry(h, ip)
    ensures Count(r, h) == Count(reg, h) + 1
    ensures forall g :: g != h ==> Count(r, g) == Count(reg, g)
  {
    var r := reg + [Entry(h, ip)];
    assert forall g :: Count(r, g) == Count(reg, g) + (if h == g then 1 else 0) by {
      forall g ensures Count(r, g) == Count(reg, g) + (if h == g then 1 else 0) {
        CountConcat(reg, [Entry(h, ip)], g);
        CountOne(Entry(h, ip), g);
      }
    }
    r
  }

  /**
   * `disconnect`: removes the first entry whose handle is `h`, keeping the
   * order of the rest, and leaves the list alone when there is none.
   */
  function Disconnect(reg: Connections, h: Handle): (r: Connections)
    ensures !Has(reg, h) ==> r == reg
    ensures Has(reg, h) ==> |r| == |reg| - 1 && exists i :: IsFirst(reg, h, i) && r == reg[..i] + reg[i + 1..]
    ensures Count(r, h) == if Count(reg, h) > 0 then Count(reg, h) - 1 else 0
    ensures forall g :: g != h ==> Count(r, g) == Count(reg, g)
  {
    HasIffCount(reg, h);
    match FirstIndex(reg, h)
    case None => reg
    case Some(i) =>
      var r := reg[..i] + reg[i + 1..];
      assert reg == reg[..i] + ([reg[i]] + reg[i + 1..]);
      assert !Has(reg[..i], h);
      HasIffCount(reg[..i], h);
      assert forall g :: Count(reg, g) == Count(r, g) + (if reg[i].handle == g then 1 else 0) by {
        forall g ensures Count(reg, g) == Count(r, g) + (if reg[i].handle == g then 1 else 0) {
          CountConcat(reg[..i], [reg[i]] + reg[i + 1..], g);
          CountConcat([reg[i]], reg[i + 1..], g);
          CountOne(reg[i], g);
          CountConcat(reg[..i], reg[i + 1..], g);
        }
      }
      r
  }

  /**
   * `broadcast`: one frame per entry, in list order, the sender's own
   * connection included, each reading `"{senderIp}: {message}"`.
   */
  function Broadcast(reg: Connections, senderIp: string, message: string): (sends: seq<Send>)
    ensures |sends| == |reg|
    ensures forall i :: 0 <= i < |reg| ==> sends[i].recipient == reg[i].handle
    ensures forall i :: 0 <= i < |sends| ==> sends[i].text == Labelled(senderIp, message)
    decreases |reg|
  {
    if |reg| == 0 then []
    else Broadcast(reg[..|reg| - 1], senderIp, message) + [Send(reg[|reg| - 1].handle, Labelled(senderIp, message))]
  }

  // ---------------------------------------------------------------------
  // Properties relating several calls

  /** Connecting a handle that is not present and then disconnecting it restores the list. */
  lemma ConnectDisconnectRoundTrip(reg: Connections, h: Handle, ip: string)
    requires !Has(reg, h)
    ensures Disconnect(Connect(reg, h, ip), h) == reg
  {
    var c := Connect(reg, h, ip);
    assert IsFirst(c, h, |reg|);
    assert Has(c, h);
    var i :| IsFirst(c, h, i) && Disconnect(c, h) == c[..i] + c[i + 1..];
    assert IsFirst(c, h, i);
    assert i == |reg|;
  }

  /** Connecting the same handle twice leaves two entries for it. */
  lemma ConnectTwiceKeepsBoth(reg: Connections, h: Handle, ip1: string, ip2: string)
    requires !Has(reg, h)
    ensures Count(Connect(Connect(reg, h, ip1), h, ip2), h) == 2
  {
    HasIffCount(reg, h);
  }

  /** Once no entry for `h` remains, disconnecting it again changes nothing. */
  lemma DisconnectIdempotent(reg: Connections, h: Handle)
    requires Count(reg, h) <= 1
    ensures Disconnect(Disconnect(reg, h), h) == Disconnect(reg, h)
  {
    var r := Disconnect(reg, h);
    HasIffCount(r, h);
  }

  /** Every registered connection, the sender's own included, gets the frame. */
  lemma BroadcastReachesEveryMember(reg: Connections, senderIp: string, message: string, h: Handle)
    requires Has(reg, h)
    ensures Send(h, Labelled(senderIp, message)) in Broadcast(reg, senderIp, message)
  {
    var i :| 0 <= i < |reg| && reg[i].handle == h;
    assert Broadcast(reg, senderIp, message)[i] == Send(h, Labelled(senderIp, message));
  }

  /** Nobody outside the registry gets a frame. */
  lemma BroadcastOnlyToMembers(reg: Connections, senderIp: string, message: string, s: Send)
    requires s in Broadcast(reg, senderIp, message)
    ensures Has(reg, s.recipient)
  {
    var sends := Broadcast(reg, senderIp, message);
    var i :| 0 <= i < |sends| && sends[i] == s;
    assert reg[i].handle == s.recipient;
  }

  // ---------------------------------------------------------------------
  // Membership over a history of connects and disconnects

  datatype Op = Join(h: Handle, ip: string) | Leave(h: Handle)

  function HandleSet(reg: Connections): set<Handle> {
    set i | 0 <= i < |reg| :: reg[i].handle
  }

  /** No two entries share a handle. */
  predicate NoDuplicates(reg: Connections) {
    forall i, j :: 0 <= i < j < |reg| ==> reg[i].handle != reg[j].handle
  }

  /** The list after applying `ops` in order. */
  function Apply(reg: Connections, ops: seq<Op>): Connections
    decreases |ops|
  {
    if |ops| == 0 then reg
    else
      var next := match ops[0]
        case Join(h, ip) => Connect(reg, h, ip)
        case Leave(h) => Disconnect(reg, h);
      Apply(next, ops[1..])
  }

  /** Every `Join` names a handle not live at that moment (each transport object is new). */
  predicate FreshJoins(reg: Connections, ops: seq<Op>)
    decreases |ops|
  {
    |ops| == 0 ||
    match ops[0]
    case Join(h, ip) => !Has(reg, h) && FreshJoins(Connect(reg, h, ip), ops[1..])
    case Leave(h) => FreshJoins(Disconnect(reg, h), ops[1..])
  }

  /** The live set as plain set arithmetic: joined and not yet left. */
  function Live(live: set<Handle>, ops: seq<Op>): set<Handle>
    decreases |ops|
  {
    if |ops| == 0 then live
    else
      match ops[0]
      case Join(h, _) => Live(live + {h}, ops[1..])
      case Leave(h) => Live(live - {h}, ops[1..])
  }

  lemma ConnectFreshKeepsNoDuplicates(reg: Connections, h: Handle, ip: string)
    requires NoDuplicates(reg) && !Has(reg, h)
    ensures NoDuplicates(Connect(reg, h, ip))
    ensures HandleSet(Connect(reg, h, ip)) == HandleSet(reg) + {h}
  {
    var c := Connect(reg, h, ip);
    forall i, j | 0 <= i < j < |c| ensures c[i].handle != c[j].handle {
      assert c[i] == reg[i];
      if j < |reg| {
        assert c[j] == reg[j];
      }
    }
    forall g | g in HandleSet(c) ensures g in HandleSet(reg) + {g} {
    }
    forall g | g in HandleSet(reg) ensures g in HandleSet(c) {
      var i :| 0 <= i < |reg| && reg[i].handle == g;
      assert c[i] == reg[i];
    }
    assert c[|reg|].handle == h;
    forall g | g in HandleSet(c) ensures g in HandleSet(reg) + {h} {
      var i :| 0 <= i < |c| && c[i].handle == g;
      if i < |reg| {
        assert c[i] == reg[i];
      }
    }
  }

  /** Dropping position `i` of a duplicate-free list drops exactly that entry's handle. */
  lemma RemoveAtKeepsNoDuplicates(reg: Connections, i: nat)
    requires NoDuplicates(reg) && i < |reg|
    ensures NoDuplicates(reg[..i] + reg[i + 1..])
    ensures HandleSet(reg[..i] + reg[i + 1..]) == HandleSet(reg) - {reg[i].handle}
  {
    var r := reg[..i] + reg[i + 1..];
    assert forall k :: 0 <= k < |r| ==> r[k] == reg[if k < i then k else k + 1];
    forall a, b | 0 <= a < b < |r| ensures r[a].handle != r[b].handle {
    }
    forall g | g in HandleSet(r) ensures g in HandleSet(reg) - {reg[i].handle} {
      var k :| 0 <= k < |r| && r[k].handle == g;
      assert r[k] == reg[if k < i then k else k + 1];
    }
    forall g | g in HandleSet(reg) - {reg[i].handle} ensures g in HandleSet(r) {
      var k :| 0 <= k < |reg| && reg[k].handle == g;
      if k < i {
        assert r[k] == reg[k];
      } else {
        assert r[k - 1] == reg[k];
      }
    }
  }

  lemma DisconnectKeepsNoDuplicates(reg: Connections, h: Handle)
    requires NoDuplicates(reg)
    ensures NoDuplicates(Disconnect(reg, h))
    ensures HandleSet(Disconnect(reg, h)) == HandleSet(reg) - {h}
  {
    var r := Disconnect(reg, h);
    if !Has(reg, h) {
      forall g | g in HandleSet(reg) ensures g != h {
        var i :| 0 <= i < |reg| && reg[i].handle == g;
      }
    } else {
      var i :| IsFirst(reg, h, i) && r == reg[..i] + reg[i + 1..];
      RemoveAtKeepsNoDuplicates(reg, i);
    }
  }

  /**
   * Over any history whose joins use fresh handles, the registry holds each
   * live handle exactly once and holds exactly the handles that joined and
   * have not left.
   */
  lemma {:induction false} ApplyTracksLive(reg: Connections, ops: seq<Op>)
    requires NoDuplicates(reg) && FreshJoins(reg, ops)
    ensures NoDuplicates(Apply(reg, ops))
    ensures HandleSet(Apply(reg, ops)) == Live(HandleSet(reg), ops)
    decreases |ops|
  {
    if |ops| > 0 {
      match ops[0]
      case Join(h, ip) =>
        ConnectFreshKeepsNoDuplicates(reg, h, ip);
        ApplyTracksLive(Connect(reg, h, ip), ops[1..]);
      case Leave(h) =>
        DisconnectKeepsNoDuplicates(reg, h);
        ApplyTracksLive(Disconnect(reg, h), ops[1..]);
    }
  }
}
