/**
 * The relay itself: the live connections (`clients`, in arrival order), the
 * 255-slot table (`room`) that hands out one-byte identities, and the
 * handlers Node runs one at a time on its event loop: admission, removal,
 * broadcast, the roster push, inbound messages, the heartbeat and the idle
 * sweep. Sends and terminations are recorded in an effect log instead of
 * reaching a network.
 */
module Relay {
  import opened Js
  import opened Wire
  import opened Address
  import Roster

  /** A client silent for longer than this many milliseconds is dropped (30 minutes). */
  const IDLE_TIMEOUT: nat := 1800000

  /** The transport's `readyState`. */
  datatype ReadyState = Connecting | Open | Closing | Closed

  /** A connection of the WebSocket transport with the fields the relay attaches to it. */
  class Socket {
    var readyState: ReadyState
    var id: Option<Slot>
    var idle: Option<nat>
    var nickname: Option<string>
    var remoteAddress: Option<string>
    var latency: Option<int>

    /** A connection the transport has just accepted: open, nothing attached yet. */
    constructor Accepted()
      ensures readyState == Open
      ensures id == None && idle == None && nickname == None && remoteAddress == None && latency == None
    {
      readyState := Open;
      id := None;
      idle := None;
      nickname := None;
      remoteAddress := None;
      latency := None;
    }

    /** What the roster reads off this connection. */
    function Fields(): Roster.Entry
      reads this
    {
      Roster.Entry(id, nickname, remoteAddress, latency)
    }
  }

  /** What a handler asks the transport to do. */
  datatype Effect = Send(to: Socket, data: seq<byte>) | Terminate(target: Socket)

  // ---------------------------------------------------------------------
  // views of the client list

  /** The roster entries of `cs`, in order. */
  function Entries(cs: seq<Socket>): (es: seq<Roster.Entry>)
    reads cs
    ensures |es| == |cs|
  {
    if |cs| == 0 then [] else Entries(cs[..|cs| - 1]) + [cs[|cs| - 1].Fields()]
  }

  /** Entry `i` is what the roster reads off `cs[i]`. */
  lemma {:induction false} EntriesAt(cs: seq<Socket>)
    ensures forall i :: 0 <= i < |cs| ==> Entries(cs)[i] == cs[i].Fields()
  {
    if |cs| > 0 {
      EntriesAt(cs[..|cs| - 1]);
    }
  }

  /**
   * `getRemoteAddresses()`: the addresses of `cs`. A connection without one
   * contributes `undefined`, which no address string equals, so it is left out.
   */
  function Addresses(cs: seq<Socket>): (addresses: seq<string>)
    reads cs
    ensures |addresses| <= |cs|
  {
    if |cs| == 0 then []
    else
      var c := cs[|cs| - 1];
      Addresses(cs[..|cs| - 1]) + (if c.remoteAddress.Some? then [c.remoteAddress.value] else [])
  }

  /** The addresses are exactly those the connections of `cs` carry. */
  lemma {:induction false} AddressesExactly(cs: seq<Socket>)
    ensures forall c :: c in cs && c.remoteAddress.Some? ==> c.remoteAddress.value in Addresses(cs)
    ensures forall a :: a in Addresses(cs) ==> exists c :: c in cs && c.remoteAddress == Some(a)
  {
    if |cs| > 0 {
      var n := |cs| - 1;
      AddressesExactly(cs[..n]);
      assert cs == cs[..n] + [cs[n]];
    }
  }

  /** The connections `broadcast(origin, ...)` sends to, in order. */
  function Recipients(cs: seq<Socket>, origin: Option<Socket>): (recipients: seq<Socket>)
    reads cs
    ensures |recipients| <= |cs|
  {
    if |cs| == 0 then []
    else
      var c := cs[|cs| - 1];
      Recipients(cs[..|cs| - 1], origin) + (if Some(c) != origin && c.readyState == Open then [c] else [])
  }

  /** A connection receives a broadcast exactly when it is live, open and not the origin. */
  lemma {:induction false} RecipientsExactly(cs: seq<Socket>, origin: Option<Socket>)
    ensures forall c :: c in Recipients(cs, origin) <==> c in cs && Some(c) != origin && c.readyState == Open
  {
    if |cs| > 0 {
      var n := |cs| - 1;
      RecipientsExactly(cs[..n], origin);
      assert cs == cs[..n] + [cs[n]];
    }
  }

  /** One `send` of `data` to each of `recipients`, in order. */
  function Sends(recipients: seq<Socket>, data: seq<byte>): seq<Effect> {
    if |recipients| == 0 then [] else Sends(recipients[..|recipients| - 1], data) + [Send(recipients[|recipients| - 1], data)]
  }

  /** Send `i` carries `data` to recipient `i`. */
  lemma {:induction false} SendsAt(recipients: seq<Socket>, data: seq<byte>)
    ensures |Sends(recipients, data)| == |recipients|
    ensures forall i :: 0 <= i < |recipients| ==> Sends(recipients, data)[i] == Send(recipients[i], data)
  {
    if |recipients| > 0 {
      SendsAt(recipients[..|recipients| - 1], data);
    }
  }

  lemma SendsSnoc(recipients: seq<Socket>, r: Socket, data: seq<byte>)
    ensures Sends(recipients + [r], data) == Sends(recipients, data) + [Send(r, data)]
  {
    assert (recipients + [r])[..|recipients|] == recipients;
  }

  /** Extending the list by one connection extends the sends by that connection's, if it is a recipient. */
  lemma BroadcastStep(cs: seq<Socket>, i: nat, origin: Option<Socket>, data: seq<byte>)
    requires i < |cs|
    ensures Sends(Recipients(cs[..i + 1], origin), data) == Sends(Recipients(cs[..i], origin), data)
      + (if Some(cs[i]) != origin && cs[i].readyState == Open then [Send(cs[i], data)] else [])
  {
    var before := Recipients(cs[..i], origin);
    assert cs[..i + 1][..i] == cs[..i];
    if Some(cs[i]) != origin && cs[i].readyState == Open {
      SendsSnoc(before, cs[i], data);
    } else {
      assert Recipients(cs[..i + 1], origin) == before;
    }
  }

  /** `cs` with every occurrence of `x` dropped, the rest in order. */
  function Without<T(==)>(cs: seq<T>, x: T): seq<T> {
    if |cs| == 0 then []
    else if cs[0] == x then Without(cs[1..], x)
    else [cs[0]] + Without(cs[1..], x)
  }

  /** What is left is everything but `x`. */
  lemma {:induction false} WithoutMembers<T>(cs: seq<T>, x: T)
    ensures forall c :: c in Without(cs, x) <==> c in cs && c != x
  {
    if |cs| > 0 {
      WithoutMembers(cs[1..], x);
      assert cs == [cs[0]] + cs[1..];
    }
  }

  /** Dropping an element that is not there changes nothing. */
  lemma {:induction false} WithoutAbsent<T>(cs: seq<T>, x: T)
    requires x !in cs
    ensures Without(cs, x) == cs
  {
    if |cs| > 0 {
      WithoutAbsent(cs[1..], x);
      assert cs == [cs[0]] + cs[1..];
    }
  }

  /** Cutting out the one occurrence of `x` (what `splice(indexOf(x), 1)` does) drops `x`. */
  lemma {:induction false} WithoutSplice<T>(cs: seq<T>, x: T, k: nat)
    requires k < |cs| && cs[k] == x && x !in cs[..k] && x !in cs[k + 1..]
    ensures Without(cs, x) == cs[..k] + cs[k + 1..]
  {
    if k == 0 {
      WithoutAbsent(cs[1..], x);
    } else {
      WithoutSplice(cs[1..], x, k - 1);
      assert cs[1..][..k - 1] == cs[1..k];
      assert cs[1..][k..] == cs[k + 1..];
      assert cs[..k] == [cs[0]] + cs[1..k];
    }
  }

  /** Dropping twice is dropping once. */
  lemma WithoutTwice<T>(cs: seq<T>, x: T)
    ensures Without(Without(cs, x), x) == Without(cs, x)
  {
    WithoutMembers(cs, x);
    WithoutAbsent(Without(cs, x), x);
  }

  /** No element occurs twice. */
  predicate Distinct<T(==)>(cs: seq<T>) {
    |cs| == 0 || (cs[0] !in cs[1..] && Distinct(cs[1..]))
  }

  /** Distinctness is the absence of a repeated pair. */
  lemma {:induction false} DistinctPairs<T>(cs: seq<T>)
    ensures Distinct(cs) <==> forall i, j :: 0 <= i < j < |cs| ==> cs[i] != cs[j]
  {
    if |cs| > 0 {
      DistinctPairs(cs[1..]);
      if Distinct(cs) {
        forall i, j | 0 <= i < j < |cs|
          ensures cs[i] != cs[j]
        {
          assert cs[j] == cs[1..][j - 1];
          if i > 0 {
            assert cs[i] == cs[1..][i - 1];
          }
        }
      }
      if forall i, j :: 0 <= i < j < |cs| ==> cs[i] != cs[j] {
        forall i, j | 0 <= i < j < |cs| - 1
          ensures cs[1..][i] != cs[1..][j]
        {
          assert cs[1..][i] == cs[i + 1] && cs[1..][j] == cs[j + 1];
        }
      }
    }
  }

  /** The element at `k` does not occur again after `k`. */
  lemma {:induction false} DistinctAfter<T>(cs: seq<T>, k: nat)
    requires Distinct(cs) && k < |cs|
    ensures cs[k] !in cs[k + 1..]
  {
    if k > 0 {
      DistinctAfter(cs[1..], k - 1);
      assert cs[1..][k..] == cs[k + 1..];
    }
  }

  /** Appending a new element keeps a list distinct. */
  lemma {:induction false} DistinctSnoc<T>(cs: seq<T>, x: T)
    requires Distinct(cs) && x !in cs
    ensures Distinct(cs + [x])
  {
    if |cs| > 0 {
      DistinctSnoc(cs[1..], x);
      assert (cs + [x])[1..] == cs[1..] + [x];
    }
  }

  /** Dropping an element keeps a list distinct. */
  lemma {:induction false} DistinctWithout<T>(cs: seq<T>, x: T)
    requires Distinct(cs)
    ensures Distinct(Without(cs, x))
  {
    if |cs| > 0 {
      DistinctWithout(cs[1..], x);
      if cs[0] != x {
        WithoutMembers(cs[1..], x);
        assert ([cs[0]] + Without(cs[1..], x))[1..] == Without(cs[1..], x);
      }
    }
  }

  // ---------------------------------------------------------------------
  // the roster push and the heartbeat

  /**
   * What `users(origin)` does: build the roster, then send it to every
   * recipient; nothing is sent when there are no clients, and a roster that
   * throws sends nothing and propagates its exception.
   */
  function UsersCall(cs: seq<Socket>, origin: Option<Socket>, utf8: string -> seq<byte>): (call: (Outcome, seq<Effect>))
    reads cs
    ensures call.0.Threw? ==> call.1 == []
    ensures |cs| == 0 ==> call == (Completed, [])
  {
    match Roster.Users(Entries(cs), utf8)
    case Throw(error) => (Threw(error), [])
    case Ok(None) => (Completed, [])
    case Ok(Some(frame)) => (Completed, Sends(Recipients(cs, origin), frame))
  }

  /** `rs` is `cs` read at the strictly increasing positions `f`. */
  ghost predicate PickedAt<T>(rs: seq<T>, cs: seq<T>, f: seq<nat>) {
    && |f| == |rs|
    && (forall i :: 0 <= i < |f| ==> f[i] < |cs| && rs[i] == cs[f[i]])
    && (forall i, j :: 0 <= i < j < |f| ==> f[i] < f[j])
  }

  /** Picking the last element of a longer list extends a picking of its prefix. */
  lemma PickedSnoc<T>(rs: seq<T>, cs: seq<T>, f: seq<nat>, x: T)
    requires PickedAt(rs, cs, f)
    ensures PickedAt(rs + [x], cs + [x], f + [|cs|])
  {
  }

  /** A picking from a prefix is a picking from the whole list. */
  lemma PickedExtend<T>(rs: seq<T>, cs: seq<T>, f: seq<nat>, x: T)
    requires PickedAt(rs, cs, f)
    ensures PickedAt(rs, cs + [x], f)
  {
  }

  /**
   * The broadcast keeps `clients` order: the recipients are a subsequence
   * of `cs`, picked at strictly increasing positions.
   */
  lemma {:induction false} RecipientsInOrder(cs: seq<Socket>, origin: Option<Socket>)
    ensures exists f: seq<nat> :: PickedAt(Recipients(cs, origin), cs, f)
  {
    if |cs| == 0 {
      assert PickedAt(Recipients(cs, origin), cs, []);
    } else {
      var init := cs[..|cs| - 1];
      var c := cs[|cs| - 1];
      assert cs == init + [c];
      RecipientsInOrder(init, origin);
      var f: seq<nat> :| PickedAt(Recipients(init, origin), init, f);
      if Some(c) != origin && c.readyState == Open {
        PickedSnoc(Recipients(init, origin), init, f, c);
        assert PickedAt(Recipients(cs, origin), cs, f + [|init|]);
      } else {
        PickedExtend(Recipients(init, origin), init, f, c);
        assert PickedAt(Recipients(cs, origin), cs, f);
      }
    }
  }

  /**
   * Over a list without repeats (as `Server.Valid()` keeps `clients`), the
   * broadcast reaches each recipient once: neither the recipients nor the
   * sends repeat.
   */
  lemma {:induction false} RecipientsDistinct(cs: seq<Socket>, origin: Option<Socket>, data: seq<byte>)
    requires Distinct(cs)
    ensures Distinct(Recipients(cs, origin))
    ensures Distinct(Sends(Recipients(cs, origin), data))
  {
    if |cs| > 0 {
      var init := cs[..|cs| - 1];
      var c := cs[|cs| - 1];
      DistinctPairs(cs);
      forall i, j | 0 <= i < j < |init|
        ensures init[i] != init[j]
      {
        assert init[i] == cs[i] && init[j] == cs[j];
      }
      DistinctPairs(init);
      RecipientsDistinct(init, origin, data);
      if Some(c) != origin && c.readyState == Open {
        forall i | 0 <= i < |init|
          ensures init[i] != c
        {
          assert init[i] == cs[i];
        }
        RecipientsExactly(init, origin);
        DistinctSnoc(Recipients(init, origin), c);
        assert Recipients(cs, origin) == Recipients(init, origin) + [c];
      } else {
        assert Recipients(cs, origin) == Recipients(init, origin);
      }
    }
    var recipients := Recipients(cs, origin);
    var sends := Sends(recipients, data);
    SendsAt(recipients, data);
    assert Distinct(recipients);
    DistinctPairs(recipients);
    forall i, j | 0 <= i < j < |sends|
      ensures sends[i] != sends[j]
    {
      assert recipients[i] != recipients[j];
      assert sends[i] == Send(recipients[i], data) && sends[j] == Send(recipients[j], data);
    }
    DistinctPairs(sends);
  }

  /** A broadcast reaches exactly the live, open connections other than the origin; `RecipientsDistinct` adds that it reaches each once. */
  lemma SendsExactly(cs: seq<Socket>, origin: Option<Socket>, data: seq<byte>, c: Socket)
    ensures Send(c, data) in Sends(Recipients(cs, origin), data) <==> c in cs && Some(c) != origin && c.readyState == Open
  {
    RecipientsExactly(cs, origin);
    var recipients := Recipients(cs, origin);
    var sends := Sends(recipients, data);
    SendsAt(recipients, data);
    if Send(c, data) in sends {
      var i :| 0 <= i < |sends| && sends[i] == Send(c, data);
      assert recipients[i] == c;
    }
    if c in recipients {
      var i :| 0 <= i < |recipients| && recipients[i] == c;
      assert sends[i] == Send(c, data);
    }
  }

  /**
   * A listed connection without a nickname makes every roster push throw
   * and send nothing. A connection that arrived while every slot was taken
   * starts that way, until a tag-2 message gives it a nickname;
   * `UnaddressedStallsRoster` covers it from then on.
   */
  lemma UnplacedStallsRoster(cs: seq<Socket>, origin: Option<Socket>, utf8: string -> seq<byte>, c: Socket)
    requires c in cs && c.nickname == None
    ensures UsersCall(cs, origin, utf8).0.Threw? && UsersCall(cs, origin, utf8).1 == []
  {
    EntriesAt(cs);
    var i :| 0 <= i < |cs| && cs[i] == c;
    assert !Roster.Writable(Entries(cs)[i]);
    Roster.UsersThrows(Entries(cs), utf8);
  }

  /**
   * A listed connection without an address makes every roster push throw
   * and send nothing. A connection that arrived while every slot was taken
   * has no address, and only admission to a slot sets one, so this holds
   * whatever it sends, until it closes.
   */
  lemma UnaddressedStallsRoster(cs: seq<Socket>, origin: Option<Socket>, utf8: string -> seq<byte>, c: Socket)
    requires c in cs && c.remoteAddress == None
    ensures UsersCall(cs, origin, utf8).0.Threw? && UsersCall(cs, origin, utf8).1 == []
  {
    EntriesAt(cs);
    var i :| 0 <= i < |cs| && cs[i] == c;
    assert !Roster.Writable(Entries(cs)[i]);
    Roster.UsersThrows(Entries(cs), utf8);
  }

  /**
   * A connection listed while every slot was taken has no identity, so the
   * byte-1 stamp of its messages is the same as slot 0's: what it relays
   * goes out under slot 0's identity.
   */
  lemma UnplacedSpeaksAsSlotZero(ws: Socket)
    requires ws.id == None
    ensures IdByte(ws.id) == IdByte(Some(0))
  {
  }

  /** The heartbeat sends its frame to an open connection and nothing otherwise. */
  function HeartbeatSends(ws: Socket, now: Millis): seq<Effect>
    reads ws
  {
    if ws.readyState == Open then [Send(ws, HeartbeatFrame(IdByte(ws.id), now))] else []
  }

  // ---------------------------------------------------------------------
  // the idle sweep, per client

  /** The sweep restamps a client whose idle mark was reset to 0 by a message. */
  function NextIdle(idle: Option<nat>, now: Millis): (next: Option<nat>)
    ensures idle == Some(0) ==> next == Some(now)
    ensures idle != Some(0) ==> next == idle
  {
    if idle == Some(0) then Some(now) else idle
  }

  /**
   * The sweep terminates a client whose idle mark is set, is not the reset
   * mark 0, and lies strictly before `now - IDLE_TIMEOUT`. An unset mark
   * compares false.
   */
  predicate Expired(idle: Option<nat>, now: Millis) {
    idle.Some? && idle.value != 0 && idle.value < now - IDLE_TIMEOUT
  }

  /** `terminate()`: a closed connection stays closed, any other starts closing. */
  function Terminated(state: ReadyState): (next: ReadyState)
    ensures next == Closed || next == Closing
    ensures state == Closed <==> next == Closed
  {
    if state == Closed then Closed else Closing
  }

  /**
   * Once the clock is past its epoch, a sweep leaves no client with the
   * reset mark 0, and a second sweep at the same instant restamps nothing.
   */
  lemma SweepClearsReset(idle: Option<nat>, now: Millis)
    requires now > 0
    ensures NextIdle(idle, now) != Some(0)
    ensures NextIdle(NextIdle(idle, now), now) == NextIdle(idle, now)
  {
  }

  /**
   * A terminated connection is no longer open, so no broadcast reaches it,
   * and terminating it again changes nothing.
   */
  lemma TerminateStops(state: ReadyState)
    ensures Terminated(state) != Open
    ensures Terminated(Terminated(state)) == Terminated(state)
  {
  }

  /** The terminations one sweep at `now` performs over `cs`, in order. */
  function Terminations(cs: seq<Socket>, now: Millis): seq<Effect>
    reads cs
  {
    if |cs| == 0 then []
    else
      var c := cs[|cs| - 1];
      Terminations(cs[..|cs| - 1], now) + (if Expired(c.idle, now) then [Terminate(c)] else [])
  }

  /** The sweep terminates exactly the live clients whose idle mark has expired. */
  lemma {:induction false} TerminationsExactly(cs: seq<Socket>, now: Millis)
    ensures forall c :: Terminate(c) in Terminations(cs, now) <==> c in cs && Expired(c.idle, now)
    ensures forall e :: e in Terminations(cs, now) ==> e.Terminate?
  {
    if |cs| > 0 {
      var n := |cs| - 1;
      TerminationsExactly(cs[..n], now);
      assert cs == cs[..n] + [cs[n]];
    }
  }

  /**
   * The loop of the idle sweep over the distinct clients `cs`: restamp each
   * reset mark, terminate each expired client, and list the terminations.
   */
  method MarkIdle(cs: seq<Socket>, now: Millis) returns (terminated: seq<Effect>)
    requires forall i, j :: 0 <= i < j < |cs| ==> cs[i] != cs[j]
    modifies cs`idle, cs`readyState
    ensures forall c :: c in cs ==> c.idle == NextIdle(old(c.idle), now)
    ensures forall c :: c in cs ==>
      c.readyState == if Expired(old(c.idle), now) then Terminated(old(c.readyState)) else old(c.readyState)
    ensures terminated == old(Terminations(cs, now))
  {
    terminated := [];
    for i := 0 to |cs|
      invariant forall k :: 0 <= k < i ==> cs[k].idle == NextIdle(old(cs[k].idle), now)
      invariant forall k :: 0 <= k < i ==>
        cs[k].readyState == (if Expired(old(cs[k].idle), now) then Terminated(old(cs[k].readyState)) else old(cs[k].readyState))
      invariant forall k :: i <= k < |cs| ==> cs[k].idle == old(cs[k].idle) && cs[k].readyState == old(cs[k].readyState)
      invariant terminated == old(Terminations(cs[..i], now))
    {
      var client := cs[i];
      assert cs[..i + 1][..i] == cs[..i];
      if client.idle == Some(0) {
        client.idle := Some(now);
      } else if client.idle.Some? && client.idle.value < now - IDLE_TIMEOUT {
        client.readyState := Terminated(client.readyState);
        terminated := terminated + [Terminate(client)];
      }
    }
    assert cs[..|cs|] == cs;
  }

  /**
   * The expiry threshold is strict: a mark exactly `IDLE_TIMEOUT` old
   * survives, one a millisecond older expires, and a message (mark 0)
   * protects a client from the next sweep.
   */
  lemma ExpiryThreshold(mark: nat, now: Millis)
    ensures mark > 0 && now == mark + IDLE_TIMEOUT ==> !Expired(Some(mark), now)
    ensures mark > 0 && now == mark + IDLE_TIMEOUT + 1 ==> Expired(Some(mark), now)
    ensures !Expired(Some(0), now) && !Expired(None, now)
  {
  }

  /**
   * A client that spoke and then fell silent: the first sweep after the
   * message, at `stamp`, restamps it and keeps it; a later sweep at `now`
   * drops it exactly when more than `IDLE_TIMEOUT` has passed since `stamp`.
   */
  lemma SilenceAfterMessage(stamp: Millis, now: Millis)
    requires stamp > 0
    ensures !Expired(Some(0), stamp) && NextIdle(Some(0), stamp) == Some(stamp)
    ensures Expired(NextIdle(Some(0), stamp), now) <==> now - stamp > IDLE_TIMEOUT
    ensures NextIdle(NextIdle(Some(0), stamp), now) == Some(stamp)
  {
  }

  // ---------------------------------------------------------------------
  // the server

  /**
   * What the free-slot branch of `add` attaches to connection `ws`: the
   * slot's identity, an idle mark of `now`, an empty nickname, and the
   * variant of `base` that de-duplication picks against `taken`.
   */
  ghost predicate Placed(ws: Socket, slot: Slot, now: Millis, base: string, taken: seq<string>)
    reads ws
  {
    && ws.id == Some(slot) && ws.idle == Some(now) && ws.nickname == Some("")
    && ws.remoteAddress.Some? && Deduplicated(ws.remoteAddress.value, base, taken)
  }

  class Server {
    /** The slot table: `room[k]` holds the connection whose identity is `k`. */
    const room: array<Option<Socket>>
    /** The live connections, in arrival order. */
    var clients: seq<Socket>
    /** UTF-8 encoding and decoding as the runtime provides them. */
    const utf8Encode: string -> seq<byte>
    const utf8Decode: seq<byte> -> string

    /**
     * The relay's bookkeeping: each connection is listed once; an occupied
     * slot `k` holds a live connection whose identity is `k`, and a live
     * connection with identity `k` sits in slot `k` (so no two share a
     * slot); and no two live connections share an address.
     */
    ghost predicate Valid()
      reads this, room, clients`id, clients`remoteAddress
    {
      && room.Length == SLOTS
      && Distinct(clients)
      && SlotsHeld()
      && IdsPlaced()
      && AddressesUnique()
    }

    /** Every occupied slot holds a live connection carrying that slot's identity. */
    ghost predicate SlotsHeld()
      reads this, room, clients`id
    {
      forall k :: 0 <= k < room.Length && room[k].Some? ==> room[k].value in clients && room[k].value.id == Some(k)
    }

    /** Every live connection with an identity sits in that identity's slot. */
    ghost predicate IdsPlaced()
      reads this, room, clients`id
    {
      forall c :: c in clients && c.id.Some? ==> c.id.value < room.Length && room[c.id.value] == Some(c)
    }

    /** No two live connections share an address. */
    ghost predicate AddressesUnique()
      reads this, clients`remoteAddress
    {
      forall c, d :: c in clients && d in clients && c != d && c.remoteAddress.Some? ==> c.remoteAddress != d.remoteAddress
    }

    /** A relay with no connections and every slot free. */
    constructor (utf8Encode: string -> seq<byte>, utf8Decode: seq<byte> -> string)
      ensures Valid() && fresh(room)
      ensures clients == []
      ensures forall k :: 0 <= k < SLOTS ==> room[k] == None
      ensures this.utf8Encode == utf8Encode && this.utf8Decode == utf8Decode
    {
      room := new Option<Socket>[SLOTS](_ => None);
      clients := [];
      this.utf8Encode := utf8Encode;
      this.utf8Decode := utf8Decode;
    }

    /** Two live connections with the same identity are the same connection. */
    lemma SlotsUnique(c: Socket, d: Socket)
      requires Valid()
      requires c in clients && d in clients && c.id.Some? && c.id == d.id
      ensures c == d
    {
      assert room[c.id.value] == Some(c);
      assert room[d.id.value] == Some(d);
    }

    /**
     * `add(ws, request)`: list the connection, then give it the lowest free
     * slot, the request's address made unique among the live ones, an idle
     * mark of `now` and an empty nickname. With every slot taken the
     * connection stays listed with nothing attached.
     */
    method Add(ws: Socket, forwardedFor: Option<string>, peer: string, now: Millis)
      requires Valid()
      requires ws !in clients && ws.id == None && ws.remoteAddress == None
      modifies this`clients, room, ws`id, ws`idle, ws`nickname, ws`remoteAddress
      ensures Valid()
      ensures clients == old(clients) + [ws]
      ensures None !in old(room[..]) ==>
        && room[..] == old(room[..])
        && ws.id == None && ws.remoteAddress == None
        && ws.idle == old(ws.idle) && ws.nickname == old(ws.nickname)
      ensures None in old(room[..]) ==>
        var free := IndexOf(old(room[..]), None);
        && room[..] == old(room[..])[free := Some(ws)]
        && Placed(ws, free, now, RemoteAddress(forwardedFor, peer), Addresses(old(clients)))
    {
      Enlist(ws);
      var i := FreeSlot();
      if i == -1 {
        return;
      }
      Admit(ws, i, RemoteAddress(forwardedFor, peer), now);
    }

    /** The loop of `add` over the slot table: the lowest free slot, or -1 when all are taken. */
    method FreeSlot() returns (free: int)
      requires room.Length == SLOTS
      ensures free == IndexOf(room[..], None)
    {
      var i := 0;
      while i < SLOTS && room[i].Some?
        invariant i <= SLOTS
        invariant forall k :: 0 <= k < i ==> room[k].Some?
      {
        i := i + 1;
      }
      if i == SLOTS {
        assert None !in room[..];
        return -1;
      }
      assert None !in room[..][..i];
      return i;
    }

    /** `clients.push(ws)` of a connection with neither identity nor address keeps the bookkeeping. */
    method Enlist(ws: Socket)
      requires Valid()
      requires ws !in clients && ws.id == None && ws.remoteAddress == None
      modifies this`clients
      ensures Valid()
      ensures clients == old(clients) + [ws]
      ensures Addresses(clients) == Addresses(old(clients))
      ensures room[..] == old(room[..])
    {
      DistinctSnoc(clients, ws);
      clients := clients + [ws];
      assert clients[..|clients| - 1] == old(clients);
    }

    /**
     * The body of the free-slot branch of `add`: connection `ws`, listed
     * but not yet placed, takes free slot `i`, an idle mark of `now`, an
     * empty nickname and the first variant of `base` that no live
     * connection carries.
     */
    method Admit(ws: Socket, i: Slot, base: string, now: Millis)
      requires Valid()
      requires ws in clients && ws.id == None && ws.remoteAddress == None
      requires room[i] == None
      modifies room, ws`id, ws`idle, ws`nickname, ws`remoteAddress
      ensures Valid()
      ensures room[..] == old(room[..])[i := Some(ws)]
      ensures Placed(ws, i, now, base, old(Addresses(clients)))
    {
      var remoteAddresses := Addresses(clients);
      var remoteAddress, count := Dedup(base, remoteAddresses);
      AddressesExactly(clients);
      ws.id := Some(i);
      ws.idle := Some(now);
      ws.nickname := Some("");
      ws.remoteAddress := Some(remoteAddress);
      room[i] := Some(ws);
      forall k | 0 <= k < room.Length && room[k].Some?
        ensures room[k].value in clients && room[k].value.id == Some(k)
      {
        if k != i {
          assert old(room[k]).Some? && old(room[k].value.id) == Some(k);
        }
      }
      forall c | c in clients && c.id.Some?
        ensures c.id.value < room.Length && room[c.id.value] == Some(c)
      {
        if c != ws {
          assert old(c.id) == c.id && old(room[c.id.value]) == Some(c);
        }
      }
      forall c, d | c in clients && d in clients && c != d && c.remoteAddress.Some?
        ensures c.remoteAddress != d.remoteAddress
      {
        if c == ws {
          assert old(d.remoteAddress) == d.remoteAddress;
        } else if d == ws {
          assert old(c.remoteAddress) == c.remoteAddress;
        }
      }
    }

    /**
     * `remove(ws)`: unlist the connection and free its slot; the other
     * connections keep their order. Removing a connection that is not
     * there changes nothing.
     */
    method Remove(ws: Socket)
      requires Valid()
      modifies this`clients, room
      ensures Valid()
      ensures clients == Without(old(clients), ws)
      ensures forall k :: 0 <= k < SLOTS ==> room[k] == if old(room[k]) == Some(ws) then None else old(room[k])
      ensures ws !in clients && Some(ws) !in room[..]
      ensures ws !in old(clients) ==> clients == old(clients) && room[..] == old(room[..])
    {
      var index := IndexOf(clients, ws);
      if index != -1 {
        DistinctAfter(clients, index);
        WithoutSplice(clients, ws, index);
        DistinctWithout(clients, ws);
        clients := clients[..index] + clients[index + 1..];
      } else {
        WithoutAbsent(clients, ws);
      }
      index := IndexOf(room[..], Some(ws));
      if index != -1 {
        room[index] := None;
      }
      WithoutMembers(old(clients), ws);
      forall k | 0 <= k < room.Length && room[k].Some?
        ensures room[k].value in clients && room[k].value.id == Some(k)
      {
        assert old(room[k]) == room[k];
      }
      forall c | c in clients && c.id.Some?
        ensures c.id.value < room.Length && room[c.id.value] == Some(c)
      {
        assert old(room[c.id.value]) == Some(c);
      }
    }

    /** `broadcast(origin, data)`: send `data` to every open connection other than `origin`. */
    method Broadcast(origin: Option<Socket>, data: seq<byte>) returns (sent: seq<Effect>)
      ensures sent == Sends(Recipients(clients, origin), data)
    {
      sent := [];
      for i := 0 to |clients|
        invariant sent == Sends(Recipients(clients[..i], origin), data)
      {
        var client := clients[i];
        BroadcastStep(clients, i, origin, data);
        if Some(client) != origin && client.readyState == Open {
          sent := sent + [Send(client, data)];
        }
      }
      assert clients[..|clients|] == clients;
    }

    /**
     * `getUsers()`: nothing without clients; otherwise a buffer of
     * `1 + 17 N` bytes, tag 0, then each client's record written in place,
     * unless a client's fields cannot be written.
     */
    method GetUsers() returns (users: Result<Option<seq<byte>>>)
      ensures users == Roster.Users(Entries(clients), utf8Encode)
    {
      if |clients| == 0 {
        return Ok(None);
      }
      var es := Entries(clients);
      var data := new byte[1 + 17 * |es|];
      data[0] := TAG_USERS;
      var written := WriteRecords(data, es, utf8Encode);
      if written.Threw? {
        return Throw(written.error);
      }
      assert data[..] == [data[0]] + data[1..];
      return Ok(Some(data[..]));
    }

    /**
     * `users(origin)`: push the roster to every open connection other than
     * `origin`, or let the roster's exception through.
     */
    method Users(origin: Option<Socket>) returns (outcome: Outcome, sent: seq<Effect>)
      ensures (outcome, sent) == UsersCall(clients, origin, utf8Encode)
    {
      var users := GetUsers();
      match users
      case Throw(error) =>
        outcome, sent := Threw(error), [];
      case Ok(None) =>
        outcome, sent := Completed, [];
      case Ok(Some(frame)) =>
        sent := Broadcast(origin, frame);
        outcome := Completed;
    }

    /**
     * The heartbeat tick: to an open connection, send tag 1, its identity
     * and `now`, and report that the tick is to be rescheduled.
     */
    method Heartbeat(ws: Socket, now: Millis) returns (reschedule: bool, sent: seq<Effect>)
      ensures reschedule <==> ws.readyState == Open
      ensures sent == HeartbeatSends(ws, now)
    {
      reschedule, sent := false, [];
      if ws.readyState == Open {
        var data := HeartbeatFrame(IdByte(ws.id), now);
        sent := [Send(ws, data)];
        reschedule := true;
      }
    }

    /** A new connection: admit it, send its first heartbeat, then push the roster to everyone. */
    method OnConnect(ws: Socket, forwardedFor: Option<string>, peer: string, now: Millis) returns (outcome: Outcome, sent: seq<Effect>)
      requires Valid()
      requires ws !in clients && ws.id == None && ws.remoteAddress == None
      modifies this`clients, room, ws`id, ws`idle, ws`nickname, ws`remoteAddress
      ensures Valid()
      ensures clients == old(clients) + [ws]
      ensures None !in old(room[..]) ==>
        && room[..] == old(room[..])
        && ws.id == None && ws.remoteAddress == None
        && ws.idle == old(ws.idle) && ws.nickname == old(ws.nickname)
      ensures None in old(room[..]) ==>
        var free := IndexOf(old(room[..]), None);
        && room[..] == old(room[..])[free := Some(ws)]
        && Placed(ws, free, now, RemoteAddress(forwardedFor, peer), Addresses(old(clients)))
      ensures outcome == UsersCall(clients, None, utf8Encode).0
      ensures sent == HeartbeatSends(ws, now) + UsersCall(clients, None, utf8Encode).1
    {
      Add(ws, forwardedFor, peer, now);
      var _, heartbeat := Heartbeat(ws, now);
      var roster;
      outcome, roster := Users(None);
      sent := heartbeat + roster;
    }

    /** A closed connection: remove it, then push the roster to everyone else. */
    method OnClose(ws: Socket) returns (outcome: Outcome, sent: seq<Effect>)
      requires Valid()
      modifies this`clients, room
      ensures Valid()
      ensures clients == Without(old(clients), ws)
      ensures forall k :: 0 <= k < SLOTS ==> room[k] == if old(room[k]) == Some(ws) then None else old(room[k])
      ensures (outcome, sent) == UsersCall(clients, Some(ws), utf8Encode)
    {
      Remove(ws);
      outcome, sent := Users(Some(ws));
    }

    /**
     * An inbound message: mark the sender active, stamp its identity into
     * byte 1, then by the tag in byte 0 record a latency sample (1), take
     * a new nickname and push the roster to the others (2), or relay the
     * message to the others (3). A message too short for byte 1, or a tag-1
     * message too short for its timestamp, throws RangeError.
     */
    method OnMessage(ws: Socket, data: array<byte>, now: Millis) returns (outcome: Outcome, sent: seq<Effect>)
      requires Valid()
      modifies ws`idle, ws`latency, ws`nickname, data
      ensures Valid()
      ensures ws.idle == Some(0)
      ensures data.Length < 2 ==>
        && outcome == Threw(RangeError) && sent == [] && data[..] == old(data[..])
        && ws.latency == old(ws.latency) && ws.nickname == old(ws.nickname)
      ensures data.Length >= 2 ==> data[..] == old(data[..])[1 := IdByte(ws.id)]
      ensures data.Length >= 2 && data[0] == TAG_HEARTBEAT ==>
        && sent == [] && ws.nickname == old(ws.nickname)
        && (data.Length < 10 ==> outcome == Threw(RangeError) && ws.latency == old(ws.latency))
        && (data.Length >= 10 ==> outcome == Completed && ws.latency == Some(MeasuredLatency(data[..], now)))
      ensures data.Length >= 2 && data[0] == TAG_NICKNAME ==>
        && ws.nickname == Some(utf8Decode(data[2..])) && ws.latency == old(ws.latency)
        && (outcome, sent) == UsersCall(clients, Some(ws), utf8Encode)
      ensures data.Length >= 2 && data[0] == TAG_MOTION ==>
        && ws.nickname == old(ws.nickname) && ws.latency == old(ws.latency)
        && outcome == Completed && sent == Sends(Recipients(clients, Some(ws)), data[..])
      ensures data.Length >= 2 && data[0] !in {TAG_HEARTBEAT, TAG_NICKNAME, TAG_MOTION} ==>
        && ws.nickname == old(ws.nickname) && ws.latency == old(ws.latency)
        && outcome == Completed && sent == []
    {
      ws.idle := Some(0);
      if data.Length < 2 {
        return Threw(RangeError), [];
      }
      data[1] := IdByte(ws.id);
      outcome, sent := Dispatch(ws, data[..], now);
    }

    /**
     * The `switch` on the tag of a stamped inbound message: a latency
     * sample (1), a new nickname and a roster push to the others (2), a
     * relay to the others (3); any other tag is ignored.
     */
    method Dispatch(ws: Socket, message: seq<byte>, now: Millis) returns (outcome: Outcome, sent: seq<Effect>)
      requires Valid() && |message| >= 2
      modifies ws`latency, ws`nickname
      ensures Valid()
      ensures message[0] == TAG_HEARTBEAT ==>
        && sent == [] && ws.nickname == old(ws.nickname)
        && (|message| < 10 ==> outcome == Threw(RangeError) && ws.latency == old(ws.latency))
        && (|message| >= 10 ==> outcome == Completed && ws.latency == Some(MeasuredLatency(message, now)))
      ensures message[0] == TAG_NICKNAME ==>
        && ws.nickname == Some(utf8Decode(message[2..])) && ws.latency == old(ws.latency)
        && (outcome, sent) == UsersCall(clients, Some(ws), utf8Encode)
      ensures message[0] == TAG_MOTION ==>
        && ws.nickname == old(ws.nickname) && ws.latency == old(ws.latency)
        && outcome == Completed && sent == Sends(Recipients(clients, Some(ws)), message)
      ensures message[0] !in {TAG_HEARTBEAT, TAG_NICKNAME, TAG_MOTION} ==>
        && ws.nickname == old(ws.nickname) && ws.latency == old(ws.latency)
        && outcome == Completed && sent == []
    {
      outcome, sent := Completed, [];
      match message[0]
      case 1 =>
        if |message| < 10 {
          return Threw(RangeError), [];
        }
        ws.latency := Some(MeasuredLatency(message, now));
      case 2 =>
        outcome, sent := Rename(ws, message);
      case 3 =>
        sent := Broadcast(Some(ws), message);
      case _ =>
    }

    /** A tag-2 message: take the UTF-8 text from byte 2 on as the nickname, then push the roster to the others. */
    method Rename(ws: Socket, message: seq<byte>) returns (outcome: Outcome, sent: seq<Effect>)
      requires Valid() && |message| >= 2
      modifies ws`nickname
      ensures Valid()
      ensures ws.nickname == Some(utf8Decode(message[2..]))
      ensures (outcome, sent) == UsersCall(clients, Some(ws), utf8Encode)
    {
      ws.nickname := Some(utf8Decode(message[2..]));
      outcome, sent := Users(Some(ws));
    }

    /**
     * The sweep tick at `now`: restamp each client whose mark a message
     * reset to 0, terminate each whose mark has expired, then push the
     * roster to everyone.
     */
    method Sweep(now: Millis) returns (outcome: Outcome, sent: seq<Effect>)
      requires Valid()
      modifies clients`idle, clients`readyState
      ensures Valid()
      ensures forall c :: c in clients ==> c.idle == NextIdle(old(c.idle), now)
      ensures forall c :: c in clients ==>
        c.readyState == if Expired(old(c.idle), now) then Terminated(old(c.readyState)) else old(c.readyState)
      ensures outcome == UsersCall(clients, None, utf8Encode).0
      ensures sent == old(Terminations(clients, now)) + UsersCall(clients, None, utf8Encode).1
    {
      DistinctPairs(clients);
      var terminated := MarkIdle(clients, now);
      var roster;
      outcome, roster := Users(None);
      sent := terminated + roster;
    }
  }

  /**
   * The loop of `getUsers` over the clients whose fields are `es`: their
   * records back to back from byte 1, or the first client's exception.
   */
  method WriteRecords(data: array<byte>, es: seq<Roster.Entry>, utf8: string -> seq<byte>) returns (outcome: Outcome)
    requires data.Length == 1 + 17 * |es|
    modifies data
    ensures data[0] == old(data[0])
    ensures Roster.Records(es, utf8).Throw? ==> outcome == Threw(Roster.Records(es, utf8).error)
    ensures Roster.Records(es, utf8).Ok? ==> outcome == Completed && data[1..] == Roster.Records(es, utf8).value
  {
    var index := 1;
    for i := 0 to |es|
      invariant index == 1 + 17 * i
      invariant data[0] == old(data[0])
      invariant Roster.Records(es[..i], utf8).Ok?
      invariant data[1..index] == Roster.Records(es[..i], utf8).value
    {
      var written := WriteNext(data, es, i, index, utf8);
      if written.Threw? {
        return written;
      }
      index := index + 17;
    }
    assert es[..|es|] == es;
    return Completed;
  }

  /** One turn of the loop of `getUsers` over `es[i]`, whose record goes at `index`, after those of `es[..i]`. */
  method WriteNext(data: array<byte>, es: seq<Roster.Entry>, i: nat, index: nat, utf8: string -> seq<byte>) returns (outcome: Outcome)
    requires i < |es| && data.Length == 1 + 17 * |es| && index == 1 + 17 * i
    requires Roster.Records(es[..i], utf8).Ok? && data[1..index] == Roster.Records(es[..i], utf8).value
    modifies data
    ensures data[0] == old(data[0])
    ensures outcome.Threw? ==> Roster.Records(es, utf8) == Throw(outcome.error)
    ensures outcome.Completed? ==>
      Roster.Records(es[..i + 1], utf8).Ok? && data[1..index + 17] == Roster.Records(es[..i + 1], utf8).value
  {
    assert index + 17 <= data.Length;
    ghost var before := data[..];
    outcome := WriteRecord(data, index, es[i], utf8);
    if outcome.Threw? {
      Roster.RecordsStop(es, i, utf8);
      return;
    }
    RecordsExtended(es, i, utf8, before, data[..], index);
  }


  /**
   * One turn of `getUsers`' loop over the client whose fields are `e`: write
   * its record at `index` field by field, or throw where a write throws (a
   * missing nickname or address, a latency a u16 cannot hold).
   */
  method WriteRecord(data: array<byte>, index: nat, e: Roster.Entry, utf8: string -> seq<byte>) returns (outcome: Outcome)
    requires index + 17 <= data.Length
    modifies data
    ensures data[..index] == old(data[..index])
    ensures outcome == if Roster.Writable(e) then Completed else Threw(Roster.RecordError(e))
    ensures outcome == Completed ==> data[index..index + 17] == Roster.EncodeRecord(e, utf8)
  {
    ghost var s0 := data[..];
    data[index] := IdByte(e.id);
    ghost var s1 := data[..];
    if e.nickname.None? {
      assert s1[..index] == s0[..index];
      return Threw(TypeError);
    }
    var buf := utf8(e.nickname.value);
    WritePadded(data, buf, index + 1);
    ghost var s2 := data[..];
    if e.address.None? {
      Kept(s0, s1, s2, index);
      return Threw(TypeError);
    }
    Pow256Values();
    var packed := Pack(e.address.value);
    WriteUIntBE(data, packed, index + 11, 4);
    ghost var s3 := data[..];
    if e.latency.Some? && !(0 <= e.latency.value <= MAX_LATENCY) {
      Kept(s0, s1, s2, index);
      Kept(s0, s2, s3, index);
      return Threw(RangeError);
    }
    WriteUIntBE(data, Roster.LatencyField(e.latency), index + 15, 2);
    RecordWritten(s0, s1, s2, s3, data[..], index, e, utf8);
    return Completed;
  }

  /** The four field writes of a writable client leave its record at `index` and the bytes before it untouched. */
  lemma RecordWritten(s0: seq<byte>, s1: seq<byte>, s2: seq<byte>, s3: seq<byte>, s4: seq<byte>, index: nat,
                      e: Roster.Entry, utf8: string -> seq<byte>)
    requires Roster.Writable(e)
    requires index + 17 <= |s0| == |s1| == |s2| == |s3| == |s4|
    requires s1 == s0[index := IdByte(e.id)]
    requires s2[..index + 1] == s1[..index + 1] && s2[index + 1..index + 11] == Roster.Pad10(utf8(e.nickname.value))
    requires s3[..index + 11] == s2[..index + 11] && s3[index + 11..index + 15] == ToBigEndian(Ip2Long(e.address.value), 4)
    requires s4[..index + 15] == s3[..index + 15] && s4[index + 15..index + 17] == ToBigEndian(Roster.LatencyField(e.latency), 2)
    ensures s4[..index] == s0[..index]
    ensures s4[index..index + 17] == Roster.EncodeRecord(e, utf8)
  {
    Assembled(s0, s1, s2, s3, s4, index);
  }

  /** Two writes that each keep the bytes before `index + 1` keep those before `index`. */
  lemma Kept(s0: seq<byte>, s1: seq<byte>, s2: seq<byte>, index: nat)
    requires index < |s0| == |s1| && index < |s2|
    requires forall k :: 0 <= k < index ==> s1[k] == s0[k]
    requires s2[..index + 1] == s1[..index + 1]
    ensures s2[..index] == s0[..index]
  {
  }

  /**
   * The four writes of one record: the identity byte at `index`, then the
   * nickname, the address and the latency fields, each keeping what lies
   * before it, leave the record in place and the bytes before it untouched.
   */
  lemma Assembled(s0: seq<byte>, s1: seq<byte>, s2: seq<byte>, s3: seq<byte>, s4: seq<byte>, index: nat)
    requires index + 17 <= |s0| == |s1| && index + 17 <= |s2| && index + 17 <= |s3| && index + 17 <= |s4|
    requires forall k :: 0 <= k < index ==> s1[k] == s0[k]
    requires s2[..index + 1] == s1[..index + 1]
    requires s3[..index + 11] == s2[..index + 11]
    requires s4[..index + 15] == s3[..index + 15]
    ensures s4[..index] == s0[..index]
    ensures s4[index..index + 17] == [s1[index]] + s2[index + 1..index + 11] + s3[index + 11..index + 15] + s4[index + 15..index + 17]
  {
    forall k | 0 <= k < index + 15
      ensures s4[k] == s3[k]
    {
      assert s4[..index + 15][k] == s3[..index + 15][k];
    }
    forall k | 0 <= k < index + 11
      ensures s3[k] == s2[k]
    {
      assert s3[..index + 11][k] == s2[..index + 11][k];
    }
    forall k | 0 <= k < index + 1
      ensures s2[k] == s1[k]
    {
      assert s2[..index + 1][k] == s1[..index + 1][k];
    }
    var record := [s1[index]] + s2[index + 1..index + 11] + s3[index + 11..index + 15] + s4[index + 15..index + 17];
    forall k | 0 <= k < 17
      ensures s4[index..index + 17][k] == record[k]
    {
      if k == 0 {
      } else if k < 11 {
        assert record[k] == s2[index + k];
      } else if k < 15 {
        assert record[k] == s3[index + k];
      } else {
        assert record[k] == s4[index + k];
      }
    }
  }

  /** One more record written after those of `es[..i]` extends the records of `es[..i + 1]`. */
  lemma RecordsExtended(es: seq<Roster.Entry>, i: nat, utf8: string -> seq<byte>, before: seq<byte>, after: seq<byte>, index: nat)
    requires i < |es| && Roster.Writable(es[i]) && Roster.Records(es[..i], utf8).Ok?
    requires 1 <= index <= |before| && index + 17 <= |after|
    requires before[1..index] == Roster.Records(es[..i], utf8).value && after[..index] == before[..index]
    requires after[index..index + 17] == Roster.EncodeRecord(es[i], utf8)
    ensures Roster.Records(es[..i + 1], utf8).Ok?
    ensures after[1..index + 17] == Roster.Records(es[..i + 1], utf8).value
  {
    Roster.RecordsStep(es, i, utf8);
    Extended(before, after, index, Roster.Records(es[..i], utf8).value, Roster.EncodeRecord(es[i], utf8));
  }

  /** A record written at `index`, keeping the bytes before it, extends what follows the tag by that record. */
  lemma Extended(before: seq<byte>, after: seq<byte>, index: nat, done: seq<byte>, record: seq<byte>)
    requires 1 <= index <= |before| && index + |record| <= |after|
    requires before[1..index] == done && after[..index] == before[..index]
    requires after[index..index + |record|] == record
    ensures after[1..index + |record|] == done + record
  {
    assert after[1..index] == after[..index][1..];
    assert after[1..index + |record|] == after[1..index] + after[index..index + |record|];
  }

  /** The nickname loop of `getUsers`: ten `writeUInt8(buf[j])`, `undefined` past the end of `buf` written as 0. */
  method WritePadded(data: array<byte>, buf: seq<byte>, offset: nat)
    requires offset + 10 <= data.Length
    modifies data
    ensures data[offset..offset + 10] == Roster.Pad10(buf)
    ensures data[..offset] == old(data[..offset])
  {
    for j := 0 to 10
      invariant data[..offset] == old(data[..offset])
      invariant forall k :: offset <= k < offset + j ==>
        data[k] == if k - offset < |buf| then buf[k - offset] else 0
    {
      data[offset + j] := if j < |buf| then buf[j] else 0;
    }
    assert data[offset..offset + 10] == Roster.Pad10(buf) by {
      forall p | 0 <= p < 10
        ensures data[offset..offset + 10][p] == Roster.Pad10(buf)[p]
      {
        assert data[offset..offset + 10][p] == data[offset + p];
      }
    }
  }

  /** `writeUInt32BE` / `writeUInt16BE` of an in-range value: `width` bytes, most significant first. */
  method WriteUIntBE(data: array<byte>, value: nat, offset: nat, width: nat)
    requires value < Pow256(width) && offset + width <= data.Length
    modifies data
    ensures data[offset..offset + width] == ToBigEndian(value, width)
    ensures data[..offset] == old(data[..offset])
  {
    var bytes := ToBigEndian(value, width);
    for j := 0 to width
      invariant data[..offset] == old(data[..offset])
      invariant forall k :: offset <= k < offset + j ==> data[k] == bytes[k - offset]
    {
      data[offset + j] := bytes[j];
    }
    assert data[offset..offset + width] == bytes by {
      forall p | 0 <= p < width
        ensures data[offset..offset + width][p] == bytes[p]
      {
        assert data[offset..offset + width][p] == data[offset + p];
      }
    }
  }
}
