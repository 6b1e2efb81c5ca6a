/** The descriptor rings of the BCM5700 driver, shared with a NIC that moves on its own. The driver never
    checks a ring for room; it is safe because 64 packets circulate and every ring is larger. */
module Rings {
  const POOL_SIZE: nat := 64
  const MIN_RXP_STD_BDS: nat := 32
  const RXP_STD_ENTRIES: nat := 512
  const TXP_RING_ENTRIES: nat := 512
  const RXR_RING_ENTRIES: nat := 1024
  const RXR_RING_ENTRIES_05: nat := 512

  /** A descriptor in the receive return ring. */
  datatype Returned = Returned(pkt: nat, error: bool)

  /** The results of t3_ether_write: -1, CFE_ERR_NOMEM and 0. */
  datatype Written = NotOn | NoMemory | Sent

  /** What the driver can see of the NIC's work, with what the NIC can still do. */
  datatype View = View(coming: nat, updated: bool, returned: seq<Returned>, returnSeen: nat, sentSeen: nat, taken: nat)

  // ---- ring arithmetic ----

  /** An index that has run past the end by less than one round. */
  function Wrap(i: nat, n: nat): nat {
    if i >= n then i - n else i
  }

  /** The driver's increment. */
  function Next(i: nat, n: nat): nat {
    if i + 1 == n then 0 else i + 1
  }

  /** The ring's slots from `base` on hold `contents`. */
  ghost predicate InRing<T>(a: seq<T>, base: nat, contents: seq<T>) {
    && base < |a| && |contents| < |a|
    && forall j :: 0 <= j < |contents| ==> a[Wrap(base + j, |a|)] == contents[j]
  }

  lemma NextOfWrap(base: nat, k: nat, n: nat)
    requires base < n && k < n
    ensures Wrap(base + k, n) < n && Next(Wrap(base + k, n), n) == Wrap(base + k + 1, n)
  {
  }

  lemma WrapFromNext(base: nat, k: nat, n: nat)
    requires base < n && 1 <= k <= n
    ensures Next(base, n) < n && Wrap(Next(base, n) + (k - 1), n) == Wrap(base + k, n)
  {
  }

  /** Fewer steps than slots: equal indices mean equal distances. */
  lemma SameIndexSameDistance(base: nat, j: nat, k: nat, n: nat)
    requires base < n && j < n && k < n && Wrap(base + j, n) == Wrap(base + k, n)
    ensures j == k
  {
  }

  /** Writing at the producer index never touches a live slot while the ring has room for one more. */
  lemma RingPush<T>(a: seq<T>, base: nat, contents: seq<T>, x: T)
    requires InRing(a, base, contents) && |contents| + 1 < |a|
    ensures InRing(a[Wrap(base + |contents|, |a|) := x], base, contents + [x])
  {
    var n := |a|;
    var a' := a[Wrap(base + |contents|, n) := x];
    forall j | 0 <= j < |contents + [x]|
      ensures a'[Wrap(base + j, n)] == (contents + [x])[j]
    {
      if j < |contents| && Wrap(base + j, n) == Wrap(base + |contents|, n) {
        SameIndexSameDistance(base, j, |contents|, n);
      }
    }
  }

  lemma RingPop<T>(a: seq<T>, base: nat, contents: seq<T>)
    requires InRing(a, base, contents) && contents != []
    ensures a[base] == contents[0] && InRing(a, Next(base, |a|), contents[1..])
  {
    var n := |a|;
    assert a[Wrap(base + 0, n)] == contents[0];
    forall j | 0 <= j < |contents| - 1
      ensures a[Wrap(Next(base, n) + j, n)] == contents[1..][j]
    {
      WrapFromNext(base, j + 1, n);
      assert a[Wrap(base + (j + 1), n)] == contents[j + 1];
    }
  }

  // ---- the packet pool ----

  ghost function Pool(): multiset<nat> {
    multiset(seq(POOL_SIZE, i => i))
  }

  function Packets(bds: seq<Returned>): (p: seq<nat>)
    ensures |p| == |bds|
  {
    seq(|bds|, i requires 0 <= i < |bds| => bds[i].pkt)
  }

  lemma PacketsOfMore(bds: seq<Returned>, x: Returned)
    ensures Packets(bds + [x]) == Packets(bds) + [x.pkt]
  {
  }

  lemma PacketsOfRest(bds: seq<Returned>)
    requires bds != []
    ensures Packets(bds) == [bds[0].pkt] + Packets(bds[1..])
  {
  }

  ghost function Count(s: seq<nat>, p: nat): nat {
    multiset(s)[p]
  }

  lemma {:induction false} CountUpTo(n: nat, p: nat)
    ensures multiset(seq(n, i => i))[p] == if p < n then 1 else 0
  {
    if n == 0 {
    } else {
      CountUpTo(n - 1, p);
      var s: seq<nat> := seq(n, i => i);
      var front: seq<nat> := seq(n - 1, i => i);
      assert s == front + [n - 1];
    }
  }

  /** Each packet of the pool occurs once. */
  lemma PoolIsDistinct()
    ensures |Pool()| == 64
    ensures forall p: nat :: p < 64 ==> Pool()[p] == 1
    ensures forall p: nat :: p >= 64 ==> Pool()[p] == 0
  {
    forall p: nat
      ensures Pool()[p] == if p < POOL_SIZE then 1 else 0
    {
      CountUpTo(POOL_SIZE, p);
    }
  }

  /** Every packet of the pool is in exactly one of these places, once, and nothing else is in any. */
  ghost predicate Conserved(freelist: seq<nat>, rxqueue: seq<nat>, producer: seq<nat>, inNic: seq<nat>,
                            returned: seq<Returned>, sending: seq<nat>, hand: seq<nat>) {
    forall p: nat ::
      Count(freelist, p) + Count(rxqueue, p) + Count(producer, p) + Count(inNic, p)
      + Count(Packets(returned), p) + Count(sending, p) + Count(hand, p) == if p < POOL_SIZE then 1 else 0
  }

  /** Conservation bounds every place by the pool. */
  lemma ConservedBounds(freelist: seq<nat>, rxqueue: seq<nat>, producer: seq<nat>, inNic: seq<nat>,
                        returned: seq<Returned>, sending: seq<nat>, hand: seq<nat>)
    requires Conserved(freelist, rxqueue, producer, inNic, returned, sending, hand)
    ensures |freelist| + |rxqueue| + |producer| + |inNic| + |returned| + |sending| + |hand| == 64
  {
    PoolIsDistinct();
    var all := multiset(freelist) + multiset(rxqueue) + multiset(producer) + multiset(inNic)
      + multiset(Packets(returned)) + multiset(sending) + multiset(hand);
    forall p: nat
      ensures all[p] == Pool()[p]
    {
      assert all[p] == Count(freelist, p) + Count(rxqueue, p) + Count(producer, p) + Count(inNic, p)
        + Count(Packets(returned), p) + Count(sending, p) + Count(hand, p);
    }
    assert all == Pool();
    assert |all| == |freelist| + |rxqueue| + |producer| + |inNic| + |returned| + |sending| + |hand|;
  }

  /** Moving the first element of one place to the end of another. */
  lemma MoveFirst(s: seq<nat>, t: seq<nat>)
    requires s != []
    ensures forall p: nat :: Count(s, p) + Count(t, p) == Count(s[1..], p) + Count(t + [s[0]], p)
  {
    assert s == [s[0]] + s[1..];
  }

  /** The first packet returned goes to the receive queue or to the free list. */
  lemma TakeReturned(freelist: seq<nat>, rxqueue: seq<nat>, producer: seq<nat>, inNic: seq<nat>,
                     returned: seq<Returned>, sending: seq<nat>, hand: seq<nat>)
    requires returned != [] && Conserved(freelist, rxqueue, producer, inNic, returned, sending, hand)
    ensures Conserved(freelist, rxqueue + [returned[0].pkt], producer, inNic, returned[1..], sending, hand)
    ensures Conserved(freelist + [returned[0].pkt], rxqueue, producer, inNic, returned[1..], sending, hand)
  {
    hide Count, Packets;
    PacketsOfRest(returned);
    assert Packets(returned)[1..] == Packets(returned[1..]);
    MoveFirst(Packets(returned), rxqueue);
    MoveFirst(Packets(returned), freelist);
  }

  lemma MoveAny(s: seq<nat>, k: nat, t: seq<nat>)
    requires k < |s|
    ensures forall p: nat :: Count(s, p) + Count(t, p) == Count(s[..k] + s[k + 1..], p) + Count(t + [s[k]], p)
  {
    assert s == s[..k] + [s[k]] + s[k + 1..];
  }

  /** A buffer that the NIC holds goes to the return ring. */
  lemma BufferReturned(freelist: seq<nat>, rxqueue: seq<nat>, producer: seq<nat>, inNic: seq<nat>, k: nat,
                       returned: seq<Returned>, bd: Returned, sending: seq<nat>, hand: seq<nat>)
    requires k < |inNic| && bd.pkt == inNic[k]
    requires Conserved(freelist, rxqueue, producer, inNic, returned, sending, hand)
    ensures Conserved(freelist, rxqueue, producer, inNic[..k] + inNic[k + 1..], returned + [bd], sending, hand)
  {
    hide Count, Packets;
    MoveAny(inNic, k, Packets(returned));
    PacketsOfMore(returned, bd);
  }

  /** What was put in the send ring last is what is still in it. */
  ghost predicate EndsWith(handed: seq<nat>, sending: seq<nat>) {
    |sending| <= |handed| && handed[|handed| - |sending|..] == sending
  }

  lemma NothingHanded()
    ensures EndsWith([], [])
  {
  }

  lemma OneMoreHanded(handed: seq<nat>, sending: seq<nat>, pkt: nat)
    requires EndsWith(handed, sending)
    ensures EndsWith(handed + [pkt], sending + [pkt])
  {
    var k := |handed| - |sending|;
    assert (handed + [pkt])[k..] == handed[k..] + [pkt];
  }

  lemma FirstReclaimed(handed: seq<nat>, sending: seq<nat>)
    requires EndsWith(handed, sending) && sending != []
    ensures EndsWith(handed, sending[1..])
  {
    var k := |handed| - |sending|;
    assert handed[k + 1..] == handed[k..][1..];
  }

  lemma RingBounds<T>(a: seq<T>, base: nat, contents: seq<T>)
    requires InRing(a, base, contents)
    ensures base < |a| && |contents| < |a|
  {
  }

  // ---- driver and NIC ----

  lemma NothingToWrap(n: nat)
    requires n > 0
    ensures Wrap(0, n) == 0
  {
  }

  lemma EmptyRing<T>(a: seq<T>)
    requires a != []
    ensures InRing(a, 0, [])
  {
  }

  lemma AllFree(free: seq<nat>)
    requires free == seq(POOL_SIZE, j => j)
    ensures Conserved(free, [], [], [], [], [], [])
  {
    PoolIsDistinct();
    assert Packets([]) == [];
    forall p: nat
      ensures Count(free, p) == if p < POOL_SIZE then 1 else 0
    {
      assert Pool()[p] == Count(free, p);
    }
  }

  /** The packets received without error, in order. */
  function Received(bds: seq<Returned>): seq<nat> {
    if bds == [] then []
    else Received(bds[..|bds| - 1]) + if bds[|bds| - 1].error then [] else [bds[|bds| - 1].pkt]
  }

  function Failed(bds: seq<Returned>): seq<nat> {
    if bds == [] then []
    else Failed(bds[..|bds| - 1]) + if bds[|bds| - 1].error then [bds[|bds| - 1].pkt] else []
  }

  lemma NothingReceived()
    ensures Received([]) == [] && Failed([]) == []
  {
  }

  lemma OneTaken(bd: Returned)
    ensures Received([bd]) == (if bd.error then [] else [bd.pkt]) && Failed([bd]) == if bd.error then [bd.pkt] else []
  {
    assert [bd][..0] == [];
  }

  lemma ReceivedOfMore(bds: seq<Returned>, bd: Returned)
    ensures Received(bds + [bd]) == Received(bds) + Received([bd])
    ensures Failed(bds + [bd]) == Failed(bds) + Failed([bd])
  {
    assert (bds + [bd])[..|bds|] == bds && [bd][..0] == [];
  }

  lemma {:induction false} ReceivedOfJoined(a: seq<Returned>, b: seq<Returned>)
    ensures Received(a + b) == Received(a) + Received(b) && Failed(a + b) == Failed(a) + Failed(b)
  {
    if b == [] {
      assert a + b == a;
    } else {
      var front, last := b[..|b| - 1], [b[|b| - 1]];
      assert b == front + last && a + b == (a + front) + last;
      ReceivedOfJoined(a, front);
      ReceivedOfMore(a + front, last[0]);
      ReceivedOfMore(front, last[0]);
    }
  }

  lemma ReceivedOfPrefix(a: seq<Returned>, b: seq<Returned>)
    requires a <= b
    ensures Received(a) <= Received(b)
  {
    hide Received, Failed;
    assert b == a + b[|a|..];
    ReceivedOfJoined(a, b[|a|..]);
  }

  /** What is received, and what goes back to the free list, told by the descriptors alone: for a run of
      descriptors of one kind all their packets or none, and for runs one after the other what each gives. */
  lemma {:induction false} ReceivedByFlag(bds: seq<Returned>, error: bool)
    requires forall k :: 0 <= k < |bds| ==> bds[k].error == error
    ensures Received(bds) == (if error then [] else Packets(bds)) && Failed(bds) == if error then Packets(bds) else []
  {
    if bds == [] {
    } else {
      var front, last := bds[..|bds| - 1], bds[|bds| - 1];
      assert bds == front + [last];
      ReceivedByFlag(front, error);
      PacketsOfMore(front, last);
    }
  }

  /** t3_ether_t, the status block, and the NIC's own state. Packets are named by their place in the pool. */
  class Ether {
    const rxrEntries: nat
    const rxpStd: array<nat>            // standard receive producer ring: packet behind bufptr_lo
    const rxr: array<Returned>          // receive return ring
    const txp: array<nat>               // send ring
    var on: bool                        // state == eth_state_on
    var freelist: seq<nat>
    var rxqueue: seq<nat>
    var rxpStdIndex: nat
    var prevRxpStdIndex: nat
    var rxrIndex: nat
    var txpIndex: nat
    var txcIndex: nat
    // status block, written by the NIC
    var rxcStdIndex: nat
    var returnP: nat
    var sendC: nat
    var updated: bool                   // M_STATUS_UPDATED: some index has changed since the driver cleared it
    // the NIC
    var nicRxc: nat                     // next producer descriptor it will take
    var nicPosted: nat                  // producer index last written to its mailbox
    var nicHeld: seq<nat>               // buffers it has taken and not returned yet
    var nicReturnP: nat                 // where it will return the next buffer
    var nicSendC: nat                   // next send descriptor it will transmit
    // what the rings hold
    ghost var producer: seq<nat>        // posted to the producer ring and not taken by the NIC
    ghost var posted: nat               // how many of those the NIC has been told of
    ghost var returned: seq<Returned>   // in the return ring and not processed by the driver
    ghost var returnSeen: nat           // how many of those the status block shows
    ghost var sending: seq<nat>         // in the send ring and not reclaimed
    ghost var sent: nat                 // how many of those the NIC has transmitted
    ghost var sentSeen: nat             // how many of those the status block shows
    ghost var hand: seq<nat>            // held by the running driver call
    ghost var handed: seq<nat>          // every packet put in the send ring since the last reset

    ghost predicate Shape()
      reads this
    {
      && rxrEntries in {RXR_RING_ENTRIES, RXR_RING_ENTRIES_05}
      && rxpStd.Length == RXP_STD_ENTRIES && rxr.Length == rxrEntries && txp.Length == TXP_RING_ENTRIES && rxpStd != txp
      && rxcStdIndex < RXP_STD_ENTRIES
    }

    ghost predicate ProducerRing()
      reads this`nicRxc, this`producer, this`posted, this`rxpStdIndex, this`nicPosted, this`prevRxpStdIndex, rxpStd
    {
      && InRing(rxpStd[..], nicRxc, producer) && posted <= |producer|
      && rxpStdIndex == Wrap(nicRxc + |producer|, rxpStd.Length)
      && nicPosted == Wrap(nicRxc + posted, rxpStd.Length) && prevRxpStdIndex == nicPosted
    }

    ghost predicate ReturnRing()
      reads this`rxrIndex, this`returned, this`returnSeen, this`nicReturnP, this`returnP, rxr
    {
      && InRing(rxr[..], rxrIndex, returned) && returnSeen <= |returned|
      && nicReturnP == Wrap(rxrIndex + |returned|, rxr.Length)
      && returnP == Wrap(rxrIndex + returnSeen, rxr.Length)
    }

    ghost predicate SendRing()
      reads this`txcIndex, this`sending, this`sentSeen, this`sent, this`handed, this`txpIndex, this`nicSendC, this`sendC, txp
    {
      && InRing(txp[..], txcIndex, sending) && sentSeen <= sent <= |sending|
      && EndsWith(handed, sending)
      && txpIndex == Wrap(txcIndex + |sending|, txp.Length)
      && nicSendC == Wrap(txcIndex + sent, txp.Length)
      && sendC == Wrap(txcIndex + sentSeen, txp.Length)
    }

    ghost predicate Valid()
      reads this, rxpStd, rxr, txp
    {
      && Shape() && ProducerRing() && ReturnRing() && SendRing()
      && Conserved(freelist, rxqueue, producer, nicHeld, returned, sending, hand)
    }

    /** t3_ether_attach: rings of the sizes the chip has, all packets free but the first buffers. */
    constructor (is5705: bool)
      ensures Valid() && hand == [] && rxqueue == [] && !on && |freelist| == 32
      ensures rxpStd.Length == 512 && txp.Length == 512 && rxr.Length == if is5705 then 512 else 1024
      ensures fresh(rxpStd) && fresh(rxr) && fresh(txp)
    {
      rxrEntries := if is5705 then RXR_RING_ENTRIES_05 else RXR_RING_ENTRIES;
      rxpStd := new nat[RXP_STD_ENTRIES];
      rxr := new Returned[if is5705 then RXR_RING_ENTRIES_05 else RXR_RING_ENTRIES];
      txp := new nat[TXP_RING_ENTRIES];
      on := false;
      new;
      Reinit();
    }

    ghost predicate Bounded()
      reads this`returned, this`returnSeen, this`sending, this`sent, this`sentSeen
    {
      returnSeen <= |returned| && sentSeen <= sent <= |sending|
    }

    /** The update flag is only set by the NIC, and only by using up some of what it can still do. */
    static ghost predicate Signalled(before: nat, was: bool, after: nat, now: bool) {
      after <= before && (was ==> now) && (now && !was ==> after < before)
    }

    static lemma SignalledTwice(a: nat, p: bool, b: nat, q: bool, c: nat, r: bool)
      requires Signalled(a, p, b, q) && Signalled(b, q, c, r)
      ensures Signalled(a, p, c, r)
    {
    }

    static lemma NoSignal(a: nat, p: bool, b: nat)
      requires b <= a
      ensures Signalled(a, p, b, p)
    {
    }

    /** What the NIC can still do before it is told of more: a bound for the times at which it can set the update flag. */
    ghost function Coming(): nat
      requires Bounded()
      reads this`posted, this`nicHeld, this`returned, this`returnSeen, this`sending, this`sent, this`sentSeen,
            this`rxcStdIndex, this`nicRxc
    {
      4 * posted + 2 * |nicHeld| + (|returned| - returnSeen) + 2 * (|sending| - sent) + (sent - sentSeen)
      + if rxcStdIndex == nicRxc then 0 else 1
    }

    ghost function Seen(): View
      requires Bounded()
      reads this`posted, this`nicHeld, this`returned, this`returnSeen, this`sending, this`sent, this`sentSeen,
            this`rxcStdIndex, this`nicRxc, this`updated
    {
      View(Coming(), updated, returned, returnSeen, sentSeen, rxcStdIndex)
    }

    /** What the NIC's running can do to the view: show more, and set the update flag if it does. */
    static ghost predicate Later(a: View, b: View) {
      && Signalled(a.coming, a.updated, b.coming, b.updated) && (a.updated ==> b.updated)
      && (!b.updated ==> b.returnSeen == a.returnSeen && b.sentSeen == a.sentSeen && b.taken == a.taken)
      && a.returned <= b.returned && a.returnSeen <= b.returnSeen && a.sentSeen <= b.sentSeen
    }

    static lemma LaterItself(a: View)
      ensures Later(a, a)
    {
    }

    /** The flag was cleared in between: if it is set now, something has come since. */
    static lemma ClearedLater(a: View, b: View, c: View)
      requires Later(a, b) && Later(b.(updated := false), c)
      ensures c.coming <= a.coming && (c.updated ==> c.coming < a.coming)
      ensures a.returned <= c.returned && a.returnSeen <= c.returnSeen && a.sentSeen <= c.sentSeen
    {
    }

    static lemma LaterMeans(a: View, b: View)
      requires Later(a, b)
      ensures Signalled(a.coming, a.updated, b.coming, b.updated) && (a.updated ==> b.updated)
      ensures !b.updated ==> b.returnSeen == a.returnSeen && b.sentSeen == a.sentSeen
    {
    }

    static lemma LaterTwice(a: View, b: View, c: View)
      requires Later(a, b) && Later(b, c)
      ensures Later(a, c)
    {
    }

    lemma SeenBounds()
      requires Valid()
      ensures Bounded() && returnSeen <= |returned| && sentSeen <= sent <= |sending| && rxcStdIndex < 512
      ensures returnP == nicReturnP ==> returnSeen == |returned|
      ensures sendC == nicSendC ==> sentSeen == sent
    {
      RingBounds(rxr[..], rxrIndex, returned);
      RingBounds(txp[..], txcIndex, sending);
      if returnP == nicReturnP {
        SameIndexSameDistance(rxrIndex, returnSeen, |returned|, rxr.Length);
      }
      if sendC == nicSendC {
        SameIndexSameDistance(txcIndex, sentSeen, sent, txp.Length);
      }
    }

    // ---- steps of the NIC ----

    /** Take the next posted buffer. */
    method NicTake()
      requires Valid() && posted > 0
      modifies this`nicRxc, this`nicHeld, this`producer, this`posted
      ensures Valid() && |producer| + |nicHeld| == old(|producer| + |nicHeld|) && |nicHeld| == old(|nicHeld|) + 1
      ensures posted == old(posted) - 1 && Bounded() && Later(old(Seen()), Seen())
    {
      hide ReturnRing, SendRing, InRing, EndsWith, Count;
      SeenBounds();
      RingBounds(rxpStd[..], nicRxc, producer);
      RingPop(rxpStd[..], nicRxc, producer);
      WrapFromNext(nicRxc, |producer|, rxpStd.Length);
      WrapFromNext(nicRxc, posted, rxpStd.Length);
      MoveFirst(producer, nicHeld);
      nicHeld := nicHeld + [rxpStd[nicRxc]];
      nicRxc := Next(nicRxc, RXP_STD_ENTRIES);
      producer := producer[1..];
      posted := posted - 1;
    }

    /** Return one of the buffers it holds, not necessarily the oldest, with or without an error. */
    method NicReturn(k: nat, error: bool)
      requires Valid() && k < |nicHeld|
      modifies rxr, this`nicHeld, this`nicReturnP, this`returned
      ensures Valid()
      ensures |returned| == old(|returned|) + 1 && |nicHeld| == old(|nicHeld|) - 1
      ensures Bounded() && Later(old(Seen()), Seen())
    {
      hide Valid, ProducerRing, ReturnRing, SendRing, InRing, EndsWith, Conserved;
      SeenBounds();
      PutReturned(k, error);
    }

    /** The buffer's way to the return ring. */
    method PutReturned(k: nat, error: bool)
      requires Valid() && k < |nicHeld|
      modifies rxr, this`nicHeld, this`nicReturnP, this`returned
      ensures Valid() && |nicHeld| == old(|nicHeld|) - 1 && returned == old(returned) + [Returned(old(nicHeld)[k], error)]
    {
      hide ProducerRing, SendRing, InRing, EndsWith, Count, Packets, Conserved;
      RingBounds(rxr[..], rxrIndex, returned);
      ConservedBounds(freelist, rxqueue, producer, nicHeld, returned, sending, hand);
      var bd := Returned(nicHeld[k], error);
      BufferReturned(freelist, rxqueue, producer, nicHeld, k, returned, bd, sending, hand);
      RingPush(rxr[..], rxrIndex, returned, bd);
      NextOfWrap(rxrIndex, |returned|, rxr.Length);
      ghost var before := rxr[..];
      rxr[nicReturnP] := bd;
      assert rxr[..] == before[Wrap(rxrIndex + |returned|, rxr.Length) := bd];
      nicReturnP := Next(nicReturnP, rxrEntries);
      nicHeld := nicHeld[..k] + nicHeld[k + 1..];
      returned := returned + [bd];
    }

    /** Transmit the next packet of the send ring. */
    method NicSend()
      requires Valid() && sent < |sending|
      modifies this`nicSendC, this`sent
      ensures Valid() && sent == old(sent) + 1 && Bounded() && Later(old(Seen()), Seen())
    {
      hide InRing, EndsWith, Conserved;
      SeenBounds();
      RingBounds(txp[..], txcIndex, sending);
      NextOfWrap(txcIndex, sent, txp.Length);
      nicSendC := Next(nicSendC, TXP_RING_ENTRIES);
      sent := sent + 1;
    }

    /** Bring a part of the status block up to date, and set its update flag if that changes anything: the producer ring's
        consumer index, */
    method NicReportTaken()
      requires Valid()
      modifies this`rxcStdIndex, this`updated
      ensures Valid() && rxcStdIndex == nicRxc
      ensures Bounded() && Later(old(Seen()), Seen())
    {
      hide InRing, EndsWith, Conserved;
      SeenBounds();
      RingBounds(rxpStd[..], nicRxc, producer);
      updated := updated || rxcStdIndex != nicRxc;
      rxcStdIndex := nicRxc;
    }

    /** the return ring's producer index, */
    method NicReportReturned()
      requires Valid()
      modifies this`returnP, this`returnSeen, this`updated
      ensures Valid() && returnSeen == |returned| >= old(returnSeen)
      ensures Bounded() && Later(old(Seen()), Seen())
    {
      hide InRing, EndsWith, Conserved;
      SeenBounds();
      updated := updated || returnP != nicReturnP;
      returnP, returnSeen := nicReturnP, |returned|;
    }

    /** the send ring's consumer index. */
    method NicReportSent()
      requires Valid()
      modifies this`sendC, this`sentSeen, this`updated
      ensures Valid() && sentSeen == sent >= old(sentSeen)
      ensures Bounded() && Later(old(Seen()), Seen())
    {
      hide InRing, EndsWith, Conserved;
      SeenBounds();
      updated := updated || sendC != nicSendC;
      sendC, sentSeen := nicSendC, sent;
    }

    /** Any number of NIC steps of any kind, chosen by nobody. What the driver owns stays as it is; the NIC
        can only move buffers from the producer ring to the return ring. While the update flag is not set, the status block
        shows what it showed; it can be set only so often. */
    method NicRuns()
      requires Valid()
      modifies rxr, this`nicRxc, this`nicHeld, this`producer, this`posted, this`nicReturnP, this`returned, this`updated,
               this`nicSendC, this`sent, this`rxcStdIndex, this`returnP, this`sendC, this`returnSeen, this`sentSeen
      ensures Bounded() && Later(old(Seen()), Seen())
      ensures Valid() && on == old(on) && hand == old(hand) && rxqueue == old(rxqueue)
      ensures |producer| + |nicHeld| + |returned| == old(|producer| + |nicHeld| + |returned|)
    {
      hide ProducerRing, ReturnRing, SendRing, Conserved, Shape, Coming, Signalled, Later, Seen, Valid, InRing, EndsWith;
      var steps: int := *;
      SeenBounds();
      LaterItself(Seen());
      while steps > 0
        invariant Valid() && Bounded()
        invariant Later(old(Seen()), Seen())
        invariant |producer| + |nicHeld| + |returned| == old(|producer| + |nicHeld| + |returned|)
      {
        steps := steps - 1;
        var kind: int := *;
        ghost var before := Seen();
        LaterItself(before);
        if kind == 0 && nicPosted != nicRxc {
          NothingPosted();
          NicTake();
        } else if kind == 1 && nicHeld != [] {
          var k: int := *;
          var error: bool := *;
          NicReturn(if 0 <= k < |nicHeld| then k else 0, error);
        } else if kind == 2 && nicSendC != txpIndex {
          NothingToSend();
          NicSend();
        } else if kind == 3 {
          NicReportTaken();
        } else if kind == 4 {
          NicReportReturned();
        } else if kind == 5 {
          NicReportSent();
        }
        LaterTwice(old(Seen()), before, Seen());
      }
    }

    lemma NothingPosted()
      requires Valid()
      ensures nicPosted != nicRxc ==> posted > 0
    {
    }

    lemma NothingToSend()
      requires Valid()
      ensures nicSendC != txpIndex ==> sent < |sending|
    {
    }

    lemma NothingReturned()
      requires Valid()
      ensures returnSeen <= |returned|
      ensures returnP != rxrIndex ==> returnSeen > 0
    {
    }

    lemma NothingSent()
      requires Valid()
      ensures sentSeen <= sent <= |sending|
      ensures sendC != txcIndex ==> sentSeen > 0
    {
    }

    // ---- the driver ----

    /** eth_alloc_pkt */
    method AllocPkt() returns (ok: bool, pkt: nat)
      requires Valid() && hand == []
      modifies this`freelist, this`hand
      ensures Valid() && ok == (old(freelist) != [])
      ensures ok ==> old(freelist) == [pkt] + freelist && hand == [pkt]
      ensures !ok ==> freelist == [] && hand == []
    {
      hide InRing, EndsWith, Count;
      if freelist == [] {
        return false, 0;
      }
      MoveFirst(freelist, hand);
      ok, pkt := true, freelist[0];
      freelist := freelist[1..];
      hand := hand + [pkt];
    }

    /** eth_free_pkt */
    method FreePkt(pkt: nat)
      requires Valid() && hand == [pkt]
      modifies this`freelist, this`hand
      ensures Valid() && hand == [] && freelist == old(freelist) + [pkt]
    {
      hide InRing, EndsWith, Count;
      MoveFirst(hand, freelist);
      freelist := freelist + [pkt];
      hand := hand[1..];
    }

    /** t3_add_rcvbuf: no check for room. */
    method AddRcvBuf(pkt: nat)
      requires Valid() && hand == [pkt]
      modifies rxpStd, this`rxpStdIndex, this`producer, this`hand
      ensures Valid() && hand == [] && producer == old(producer) + [pkt]
      ensures rxpStdIndex == (old(rxpStdIndex) + 1) % 512 && old(rxpStdIndex) < 512
    {
      hide InRing, EndsWith, Count;
      ghost var n := rxpStd.Length;
      RingBounds(rxpStd[..], nicRxc, producer);
      ConservedBounds(freelist, rxqueue, producer, nicHeld, returned, sending, hand);
      RingPush(rxpStd[..], nicRxc, producer, pkt);
      NextOfWrap(nicRxc, |producer|, n);
      MoveFirst(hand, producer);
      ghost var before := rxpStd[..];
      rxpStd[rxpStdIndex] := pkt;
      assert rxpStd[..] == before[Wrap(nicRxc + |producer|, n) := pkt];
      assert txp[..] == old(txp[..]);
      rxpStdIndex := Next(rxpStdIndex, RXP_STD_ENTRIES);
      producer := producer + [pkt];
      hand := hand[1..];
    }

    /** How many buffers t3_fillrxring believes to be on the ring; the status block may be out of date. */
    function OnRing(): nat
      reads this
      requires rxcStdIndex < RXP_STD_ENTRIES
    {
      if rxpStdIndex >= rxcStdIndex then rxpStdIndex - rxcStdIndex else rxpStdIndex + RXP_STD_ENTRIES - rxcStdIndex
    }

    /** How many packets a ring of which `counted` descriptors are taken is short of 32, as far as there are free ones. */
    static function Shortfall(counted: nat, free: nat): (n: nat)
      ensures n <= free
    {
      if counted >= 32 then 0 else if counted + free <= 32 then free else 32 - counted
    }

    static lemma ShortfallIs(counted: nat, n: nat, free: nat)
      requires n <= free && if counted >= 32 then n == 0 else counted + n == 32 || (n == free && counted + n < 32)
      ensures Shortfall(counted, free) == n
    {
    }

    /** The descriptors round the ring of 512 from the consumer index on to the producer index. */
    static function Counted(producer: nat, consumer: nat): nat
      requires consumer < 512
    {
      (producer + 512 - consumer) % 512
    }

    static lemma OneFurther(i: nat, c: nat, k: nat)
      requires c < 512 && k < 32
      ensures i < 512 && k == Counted(i, c) ==> Counted((i + 1) % 512, c) == k + 1
    {
    }

    lemma CountedRoundTheRing()
      requires Valid()
      ensures OnRing() == Counted(rxpStdIndex, rxcStdIndex)
    {
    }

    /** t3_fillrxring, the NIC running along. The driver counts 512 descriptors round the ring from the consumer
        index it knows to its own index, and adds packets from the free list until it counts 32. */
    method FillRxRing()
      requires Valid() && hand == []
      modifies rxpStd, rxr, this`freelist, this`hand, this`rxpStdIndex, this`nicRxc, this`nicHeld, this`producer, this`posted,
               this`nicReturnP, this`returned, this`nicSendC, this`sent, this`rxcStdIndex, this`returnP, this`sendC,
               this`returnSeen, this`sentSeen, this`updated
      ensures Valid() && hand == [] && Bounded() && Later(old(Seen()), Seen())
      ensures
        var n := Shortfall(Counted(old(rxpStdIndex), old(rxcStdIndex)), old(|freelist|));
        && freelist == old(freelist)[n..]
        && |producer| + |nicHeld| + |returned| == old(|producer| + |nicHeld| + |returned|) + n
      ensures freelist == [] || Counted(rxpStdIndex, old(rxcStdIndex)) >= 32
    {
      hide ProducerRing, ReturnRing, SendRing, Conserved, Coming, Signalled, Later, Seen, Bounded, InRing, EndsWith,
        Valid, Shape, OnRing, Counted, Shortfall;
      CountedRoundTheRing();
      SeenBounds();
      var rxpOnring := OnRing();
      LaterItself(Seen());
      ghost var counted, n := rxpOnring, 0;
      while rxpOnring < MIN_RXP_STD_BDS
        invariant Valid() && hand == [] && Bounded() && Later(old(Seen()), Seen())
        invariant n <= old(|freelist|) && freelist == old(freelist)[n..]
        invariant rxpOnring == counted + n && (n > 0 ==> rxpOnring <= MIN_RXP_STD_BDS)
        invariant |producer| + |nicHeld| + |returned| == old(|producer| + |nicHeld| + |returned|) + n
        invariant rxpOnring == Counted(rxpStdIndex, old(rxcStdIndex))
        decreases MIN_RXP_STD_BDS - rxpOnring
      {
        ghost var before := Seen();
        NicRuns();
        LaterTwice(old(Seen()), before, Seen());
        var ok, pkt := AllocPkt();
        if !ok {
          break;
        }
        OneFurther(rxpStdIndex, old(rxcStdIndex), rxpOnring);
        AddRcvBuf(pkt);
        n := n + 1;
        rxpOnring := rxpOnring + 1;
      }
      ShortfallIs(counted, n, old(|freelist|));
    }

    /** The driver's part of one round of t3_procrxring: a received packet goes to the receive queue, one with
        an error back to the free list. */
    method ProcessReturned()
      requires Valid() && returnSeen > 0
      modifies this`rxqueue, this`freelist, this`rxrIndex, this`returned, this`returnSeen
      ensures Valid() && returnSeen == old(returnSeen) - 1
      ensures old(returned) != [] && old(returned) == [old(returned)[0]] + returned
      ensures rxqueue == old(rxqueue) + Received(old(returned)[..1]) && freelist == old(freelist) + Failed(old(returned)[..1])
      ensures Bounded() && Coming() == old(Coming())
    {
      hide ProducerRing, SendRing, InRing, EndsWith, Conserved, Received, Failed, Wrap, Next;
      SeenBounds();
      RingBounds(rxr[..], rxrIndex, returned);
      RingPop(rxr[..], rxrIndex, returned);
      OneTaken(returned[0]);
      WrapFromNext(rxrIndex, |returned|, rxr.Length);
      WrapFromNext(rxrIndex, returnSeen, rxr.Length);
      var bd := rxr[rxrIndex];
      TakeReturned(freelist, rxqueue, producer, nicHeld, returned, sending, hand);
      assert returned[..1] == [bd];
      if !bd.error {
        rxqueue := rxqueue + [bd.pkt];
      } else {
        freelist := freelist + [bd.pkt];
      }
      rxrIndex := Next(rxrIndex, rxrEntries);
      returned := returned[1..];
      returnSeen := returnSeen - 1;
    }

    static lemma TakenMore(taken: seq<Returned>, bd: Returned, rest: seq<Returned>, queue: seq<nat>, free: seq<nat>)
      ensures taken + ([bd] + rest) == (taken + [bd]) + rest
      ensures queue + Received(taken) + Received([bd]) == queue + Received(taken + [bd])
      ensures free + Failed(taken) + Failed([bd]) == free + Failed(taken + [bd])
    {
      hide Received, Failed;
      ReceivedOfMore(taken, bd);
    }

    static lemma PrefixBehind(a: seq<Returned>, b: seq<Returned>, c: seq<Returned>)
      requires b <= c
      ensures a + b <= a + c
    {
    }

    /** The loop of t3_procrxring. The NIC may go on returning packets while it runs, and the loop takes those too;
        it ends because only what is in the producer ring, in the NIC or in the return ring can still come. */
    method TakeAllReturned() returns (ghost taken: seq<Returned>)
      requires Valid() && hand == [] && returnP != rxrIndex
      modifies rxr, this`freelist, this`rxqueue, this`rxrIndex, this`nicRxc, this`nicHeld, this`producer, this`posted,
               this`nicReturnP, this`returned, this`nicSendC, this`sent, this`rxcStdIndex, this`returnP, this`sendC,
               this`returnSeen, this`sentSeen, this`updated
      ensures Valid() && sentSeen >= old(sentSeen) && returnSeen == 0
      ensures Bounded() && Signalled(old(Coming()), old(updated), Coming(), updated)
      ensures (old(updated) ==> updated) && (!updated ==> sentSeen == old(sentSeen))
      ensures old(returned)[..old(returnSeen)] <= taken
      ensures rxqueue == old(rxqueue) + Received(taken) && freelist == old(freelist) + Failed(taken)
    {
      hide ProducerRing, ReturnRing, SendRing, Conserved, Received, Failed, Coming, Signalled, Valid, InRing,
        EndsWith, Shape;
      taken := [];
      NothingReceived();
      NothingReturned();
      SeenBounds();
      NoSignal(Coming(), updated, Coming());
      var more := true;
      while more
        invariant Valid() && hand == [] && sentSeen >= old(sentSeen) && sentSeen <= sent <= |sending|
        invariant returnSeen <= |returned| && Bounded() && Signalled(old(Coming()), old(updated), Coming(), updated)
        invariant (old(updated) ==> updated) && (!updated ==> sentSeen == old(sentSeen))
        invariant returnSeen <= |returned| && (more ==> returnSeen > 0)
        invariant |taken| + returnSeen >= old(returnSeen) && old(returned) <= taken + returned
        invariant rxqueue == old(rxqueue) + Received(taken) && freelist == old(freelist) + Failed(taken)
        invariant !more ==> returnP == rxrIndex
        decreases |producer| + |nicHeld| + |returned|, more
      {
        ghost var bd, before := returned[0], returned;
        ProcessReturned();
        assert before[..1] == [bd];
        TakenMore(taken, bd, returned, old(rxqueue), old(freelist));
        taken := taken + [bd];
        ghost var rest, coming, was := returned, Coming(), updated;
        NicRuns();
        SignalledTwice(old(Coming()), old(updated), coming, was, Coming(), updated);
        PrefixBehind(taken, rest, returned);
        more := returnP != rxrIndex;
        NothingReturned();
      }
      AllSeenTaken();
      assert old(returned)[..old(returnSeen)] <= taken by {
        assert old(returned)[..old(returnSeen)] == (taken + returned)[..old(returnSeen)] == taken[..old(returnSeen)];
      }
    }

    /** t3_procrxring: the loop, then the refill. */
    method ProcRxRing() returns (ghost taken: seq<Returned>)
      requires Valid() && hand == [] && returnP != rxrIndex
      modifies rxpStd, rxr, this`freelist, this`rxqueue, this`hand, this`rxpStdIndex, this`rxrIndex, this`nicRxc, this`nicHeld,
               this`producer, this`posted, this`nicReturnP, this`returned, this`nicSendC, this`sent, this`rxcStdIndex,
               this`returnP, this`sendC, this`returnSeen, this`sentSeen, this`updated
      ensures Valid() && hand == [] && sentSeen >= old(sentSeen) && on == old(on)
      ensures Bounded() && Signalled(old(Coming()), old(updated), Coming(), updated)
      ensures (old(updated) ==> updated) && (!updated ==> returnSeen == 0 && sentSeen == old(sentSeen))
      ensures old(returned)[..old(returnSeen)] <= taken
      ensures rxqueue == old(rxqueue) + Received(taken)
      ensures rxcStdIndex < 512
      ensures
        var all := old(freelist) + Failed(taken);
        exists counted: nat :: freelist == all[Shortfall(counted, |all|)..]
      ensures !updated ==> freelist == [] || Counted(rxpStdIndex, rxcStdIndex) >= 32
    {
      hide ProducerRing, ReturnRing, SendRing, Conserved, Received, Failed, Coming, Signalled, Valid, InRing,
        EndsWith, Shape;
      SeenBounds();
      taken := TakeAllReturned();
      ghost var coming, was := Coming(), updated;
      FillRxRing();
      SignalledTwice(old(Coming()), old(updated), coming, was, Coming(), updated);
      SeenBounds();
    }

    /** t3_transmit: no check for room. Writing the mailbox tells the NIC of everything in the send ring. */
    method Transmit(pkt: nat)
      requires Valid() && hand == [pkt]
      modifies txp, this`txpIndex, this`sending, this`handed, this`hand
      ensures Valid() && hand == [] && sending == old(sending) + [pkt] && handed == old(handed) + [pkt]
    {
      hide ProducerRing, ReturnRing, InRing, EndsWith, Count;
      ghost var n := txp.Length;
      RingBounds(txp[..], txcIndex, sending);
      ConservedBounds(freelist, rxqueue, producer, nicHeld, returned, sending, hand);
      RingPush(txp[..], txcIndex, sending, pkt);
      NextOfWrap(txcIndex, |sending|, n);
      MoveFirst(hand, sending);
      ghost var before := txp[..];
      txp[txpIndex] := pkt;
      assert txp[..] == before[Wrap(txcIndex + |sending|, n) := pkt];
      assert rxpStd[..] == old(rxpStd[..]);
      txpIndex := Next(txpIndex, TXP_RING_ENTRIES);
      OneMoreHanded(handed, sending, pkt);
      sending := sending + [pkt];
      handed := handed + [pkt];
      hand := hand[1..];
    }

    /** The driver's part of one round of t3_proctxring: a transmitted packet is free again. */
    method ReclaimSent()
      requires Valid() && hand == [] && sentSeen > 0
      modifies this`freelist, this`txcIndex, this`sending, this`sent, this`sentSeen
      ensures Valid() && sentSeen == old(sentSeen) - 1 && sent == old(sent) - 1
      ensures old(sending) != [] && old(sending) == [old(sending)[0]] + sending
      ensures freelist == old(freelist) + old(sending)[..1]
      ensures Bounded() && Coming() == old(Coming())
    {
      hide ProducerRing, ReturnRing, InRing, EndsWith, Count;
      SeenBounds();
      RingBounds(txp[..], txcIndex, sending);
      RingPop(txp[..], txcIndex, sending);
      WrapFromNext(txcIndex, |sending|, txp.Length);
      WrapFromNext(txcIndex, sent, txp.Length);
      WrapFromNext(txcIndex, sentSeen, txp.Length);
      MoveFirst(sending, freelist);
      freelist := freelist + [txp[txcIndex]];
      txcIndex := Next(txcIndex, TXP_RING_ENTRIES);
      FirstReclaimed(handed, sending);
      sending := sending[1..];
      sent := sent - 1;
      sentSeen := sentSeen - 1;
    }

    /** t3_proctxring. Packets that the NIC transmits while the loop runs are reclaimed too. */
    method ProcTxRing() returns (ghost taken: seq<nat>)
      requires Valid() && hand == [] && sendC != txcIndex
      modifies rxr, this`freelist, this`txcIndex, this`sending, this`nicRxc, this`nicHeld, this`producer, this`posted,
               this`nicReturnP, this`returned, this`nicSendC, this`sent, this`rxcStdIndex, this`returnP, this`sendC,
               this`returnSeen, this`sentSeen, this`updated
      ensures Valid() && on == old(on) && hand == old(hand) && rxqueue == old(rxqueue)
      ensures Bounded() && Signalled(old(Coming()), old(updated), Coming(), updated)
      ensures (old(updated) ==> updated) && (!updated ==> returnSeen == old(returnSeen) && sentSeen == 0)
      ensures old(returned) <= returned && returnSeen >= old(returnSeen)
      ensures old(sending) == taken + sending && |taken| >= old(sentSeen)
      ensures freelist == old(freelist) + taken
    {
      hide ProducerRing, ReturnRing, SendRing, Conserved, Coming, Signalled, Valid, InRing, EndsWith, Shape;
      taken := [];
      NothingSent();
      SeenBounds();
      NoSignal(Coming(), updated, Coming());
      var more := true;
      while more
        invariant Valid() && hand == [] && Bounded()
        invariant Signalled(old(Coming()), old(updated), Coming(), updated)
        invariant (old(updated) ==> updated) && (!updated ==> returnSeen == old(returnSeen))
        invariant old(returned) <= returned && returnSeen >= old(returnSeen)
        invariant sentSeen <= |sending| && (more ==> sentSeen > 0)
        invariant old(sending) == taken + sending && |taken| + sentSeen >= old(sentSeen)
        invariant freelist == old(freelist) + taken
        invariant !more ==> sendC == txcIndex
        decreases |sending|, more
      {
        ghost var before := sending;
        ReclaimSent();
        assert before[..1] == [before[0]];
        assert taken + before == (taken + before[..1]) + sending;
        taken := taken + before[..1];
        ghost var coming, was := Coming(), updated;
        NicRuns();
        SignalledTwice(old(Coming()), old(updated), coming, was, Coming(), updated);
        more := sendC != txcIndex;
        NothingSent();
      }
      AllSentTaken();
    }

    lemma AllSeenTaken()
      requires Valid() && returnP == rxrIndex
      ensures returnSeen == 0
    {
    }

    lemma AllSentTaken()
      requires Valid() && sendC == txcIndex
      ensures sentSeen == 0
    {
    }

    /** What the status block shows at the start of a call is still shown when the NIC has run. */
    static lemma SeenStays(before: seq<Returned>, seen: nat, after: seq<Returned>, more: nat, taken: seq<Returned>)
      requires before <= after && seen <= more <= |after| && seen <= |before| && after[..more] <= taken
      ensures before[..seen] <= taken && Received(before[..seen]) <= Received(taken)
    {
      hide Received, Failed;
      assert before[..seen] == after[..more][..seen];
      ReceivedOfPrefix(before[..seen], taken);
    }

    /** The first store of a round of t3_isr: the update flag is cleared before the indices are looked at. */
    method ClearUpdate()
      requires Valid()
      modifies this`updated
      ensures Valid() && !updated
    {
      hide InRing, EndsWith, Conserved, Wrap;
      updated := false;
    }

    /** Up to the look at the indices, the NIC running before and after the store: what was shown is still shown. */
    method StartRound()
      requires Valid() && hand == []
      modifies rxr, this`nicRxc, this`nicHeld, this`producer, this`posted, this`nicReturnP, this`returned, this`updated,
               this`nicSendC, this`sent, this`rxcStdIndex, this`returnP, this`sendC, this`returnSeen, this`sentSeen
      ensures Valid() && on == old(on) && hand == [] && rxqueue == old(rxqueue)
      ensures Bounded() && Coming() <= old(Coming()) && (updated ==> Coming() < old(Coming()))
      ensures old(returned) <= returned && old(returnSeen) <= returnSeen <= |returned| && old(sentSeen) <= sentSeen
    {
      hide Valid, Coming, Later;
      SeenBounds();
      NicRuns();
      ghost var before := Seen();
      ClearUpdate();
      NicRuns();
      ClearedLater(old(Seen()), before, Seen());
      SeenBounds();
    }

    /** The first half of a round of t3_isr. */
    method ServeReturnRing() returns (ghost taken: seq<Returned>)
      requires Valid() && hand == []
      modifies rxpStd, rxr, this`freelist, this`rxqueue, this`hand, this`rxpStdIndex, this`rxrIndex, this`nicRxc, this`nicHeld,
               this`producer, this`posted, this`nicReturnP, this`returned, this`nicSendC, this`sent, this`rxcStdIndex,
               this`returnP, this`sendC, this`returnSeen, this`sentSeen, this`updated
      ensures Valid() && hand == [] && sentSeen >= old(sentSeen) && on == old(on)
      ensures Bounded() && Signalled(old(Coming()), old(updated), Coming(), updated)
      ensures (old(updated) ==> updated) && (!updated ==> returnSeen == 0 && sentSeen == old(sentSeen))
      ensures old(returned)[..old(returnSeen)] <= taken && rxqueue == old(rxqueue) + Received(taken)
      ensures exists n :: 0 <= n <= |old(freelist) + Failed(taken)| && freelist == (old(freelist) + Failed(taken))[n..]
    {
      hide ProducerRing, ReturnRing, SendRing, Conserved, Received, Failed, Coming, Signalled, InRing, Shape;
      SeenBounds();
      if returnP != rxrIndex {
        taken := ProcRxRing();
      } else {
        taken := [];
        NothingReceived();
        AllSeenTaken();
        NoSignal(Coming(), updated, Coming());
        assert freelist == (old(freelist) + Failed(taken))[0..];
      }
    }

    /** The second half. */
    method ServeSendRing() returns (ghost reclaimed: seq<nat>)
      requires Valid() && hand == []
      modifies rxr, this`freelist, this`txcIndex, this`sending, this`nicRxc, this`nicHeld, this`producer, this`posted,
               this`nicReturnP, this`returned, this`nicSendC, this`sent, this`rxcStdIndex, this`returnP, this`sendC,
               this`returnSeen, this`sentSeen, this`updated
      ensures Valid() && on == old(on) && hand == [] && rxqueue == old(rxqueue)
      ensures Bounded() && Signalled(old(Coming()), old(updated), Coming(), updated)
      ensures (old(updated) ==> updated) && (!updated ==> returnSeen == old(returnSeen) && sentSeen == 0)
      ensures old(sending) == reclaimed + sending && |reclaimed| >= old(sentSeen)
      ensures freelist == old(freelist) + reclaimed
    {
      hide ProducerRing, ReturnRing, SendRing, Conserved, Coming, Signalled, InRing, Shape;
      SeenBounds();
      if sendC != txcIndex {
        reclaimed := ProcTxRing();
      } else {
        reclaimed := [];
        AllSentTaken();
        NoSignal(Coming(), updated, Coming());
      }
    }

    /** One round of t3_isr, the NIC running all the time. Every packet returned that the status block showed
        is processed, in order, and so are others that have come in since: received ones join the receive queue,
        failed ones the free list, from which the producer ring is refilled. Every packet that was shown as sent
        is then free again. If the update flag is not set in the end, the status block shows nothing that is not processed. */
    method ServeRings() returns (ghost taken: seq<Returned>, ghost reclaimed: seq<nat>)
      requires Valid() && hand == []
      modifies this, rxpStd, rxr
      ensures Valid() && hand == [] && on == old(on) && handed == old(handed)
      ensures old(returned)[..old(returnSeen)] <= taken && rxqueue == old(rxqueue) + Received(taken)
      ensures old(rxqueue) + Received(old(returned)[..old(returnSeen)]) <= rxqueue
      ensures old(sending) == reclaimed + sending && |reclaimed| >= old(sentSeen)
      ensures exists n :: 0 <= n <= |old(freelist) + Failed(taken)|
                          && freelist == (old(freelist) + Failed(taken))[n..] + reclaimed
      ensures Bounded()
      ensures if updated then Coming() < old(Coming()) else Coming() <= old(Coming()) && returnSeen == sentSeen == 0
    {
      hide ProducerRing, ReturnRing, SendRing, Conserved, Received, Failed, Coming, InRing, Shape, Valid, Bounded,
        EndsWith, Later;
      SeenBounds();
      StartRound();
      ghost var more, after := returnSeen, returned;
      taken := ServeReturnRing();
      SeenStays(old(returned), old(returnSeen), after, more, taken);
      reclaimed := ServeSendRing();
    }

    static lemma StillBehind(queue: seq<nat>, more: seq<nat>, sending: seq<nat>, reclaimed: seq<nat>, rest: seq<nat>,
                             first: seq<nat>)
      requires first <= queue && EndsWith(sending, reclaimed + rest)
      ensures first <= queue + more && EndsWith(sending, rest)
    {
      var k := |sending| - |reclaimed + rest|;
      assert sending[k + |reclaimed|..] == sending[k..][|reclaimed|..];
    }

    /** t3_isr: as long as the NIC signals an update, process both rings; then tell the NIC of the buffers that
        were added. Only then, so it ends: the NIC runs out of buffers to return and of packets to send. `updates` bounds
        the signals that are not about the rings, of a link that changes. Every packet that was received
        when it starts is in the receive queue when it ends, behind those that were there and in the order in
        which they came; of the send ring only packets not yet shown as sent, the newest, are left; and the status block
        shows nothing, returned or sent, that is not processed. */
    method Isr(updates: nat)
      requires Valid() && hand == []
      modifies this, rxpStd, rxr
      ensures Valid() && hand == [] && posted == |producer|
      ensures on == old(on) && handed == old(handed)
      ensures old(rxqueue) + Received(old(returned)[..old(returnSeen)]) <= rxqueue
      ensures |sending| + old(sentSeen) <= old(|sending|) && old(sending)[old(|sending|) - |sending|..] == sending
      ensures !updated && returnSeen == sentSeen == 0
    {
      hide ProducerRing, ReturnRing, SendRing, Conserved, Received, Failed, InRing, Shape, Valid, Coming, Later;
      var left := updates;
      var again := true;
      SeenBounds();
      ghost var served := false;
      NothingSent();
      NothingReturned();
      ghost var first := rxqueue + Received(returned[..returnSeen]);
      while again
        invariant Valid() && hand == [] && on == old(on) && handed == old(handed) && EndsWith(old(sending), sending)
        invariant Bounded()
        invariant if served then first <= rxqueue && |sending| + old(sentSeen) <= old(|sending|) else again && unchanged(this)
        invariant !again ==> !updated && returnSeen == sentSeen == 0
        decreases Coming() + left + if again then 1 else 0
      {
        ghost var queue := rxqueue;
        ghost var taken, reclaimed := ServeRings();
        ghost var done := Seen();
        NicRuns();
        LaterMeans(done, Seen());
        StillBehind(if served then queue else rxqueue, if served then Received(taken) else [],
                    old(sending), reclaimed, sending, first);
        served := true;
        var signal: bool := *;
        signal := signal && left > 0;
        again := updated || signal;
        if signal { left := left - 1; }
      }
      if rxpStdIndex != prevRxpStdIndex {
        PostAll();
      } else {
        AllPosted();
      }
    }

    /** The index remembered is the one the NIC knows, so an unmoved index means nothing is left to tell. */
    lemma AllPosted()
      requires Valid() && rxpStdIndex == prevRxpStdIndex
      ensures posted == |producer|
    {
      SameIndexSameDistance(nicRxc, posted, |producer|, rxpStd.Length);
    }

    /** Tell the NIC of every buffer that was added: the write to its mailbox. */
    method PostAll()
      requires Valid()
      modifies this`nicPosted, this`posted, this`prevRxpStdIndex
      ensures Valid() && posted == |producer|
    {
      hide InRing, EndsWith, Conserved;
      prevRxpStdIndex := rxpStdIndex;
      nicPosted, posted := rxpStdIndex, |producer|;
    }

    /** t3_init and t3_reinit: whatever went before, all packets are free again, the rings are empty but for the
        first buffers, and the NIC, which has been reset, knows of none. */
    method Reinit()
      requires rxrEntries in {RXR_RING_ENTRIES, RXR_RING_ENTRIES_05}
      requires rxpStd.Length == RXP_STD_ENTRIES && rxr.Length == rxrEntries && txp.Length == TXP_RING_ENTRIES && rxpStd != txp
      modifies this, rxpStd, rxr
      ensures Valid() && hand == [] && rxqueue == [] && on == old(on)
      ensures |freelist| == 32 && |producer| + |nicHeld| + |returned| == 32
    {
      hide Valid, ProducerRing, ReturnRing, SendRing, Shape, Conserved, InRing, EndsWith, Coming, Later, Signalled,
        Seen, Counted;
      ClearDescriptors();
      ClearAll();
      SeenBounds();
      CountedRoundTheRing();
      FillRxRing();
    }

    /** The loop of t3_initrings. */
    method ClearDescriptors()
      requires rxpStd.Length == RXP_STD_ENTRIES
      modifies rxpStd
      ensures forall i :: 0 <= i < 512 ==> rxpStd[i] == 0
    {
      for i := 0 to RXP_STD_ENTRIES
        invariant forall j :: 0 <= j < i ==> rxpStd[j] == 0
      {
        rxpStd[i] := 0;
      }
    }

    /** eth_initfreelist, q_init and the index resets of t3_initrings. */
    method ClearAll()
      requires rxrEntries in {RXR_RING_ENTRIES, RXR_RING_ENTRIES_05}
      requires rxpStd.Length == RXP_STD_ENTRIES && rxr.Length == rxrEntries && txp.Length == TXP_RING_ENTRIES && rxpStd != txp
      modifies this
      ensures Valid() && hand == [] && rxqueue == [] && on == old(on) && prevRxpStdIndex == 0
      ensures |freelist| == 64 && OnRing() == 0 && |producer| + |nicHeld| + |returned| == 0
    {
      hide Conserved, InRing, EndsWith, Wrap;
      InitFreeList();
      ResetDriver();
      ResetNic();
      assert Conserved(freelist, rxqueue, producer, nicHeld, returned, sending, hand) by { AllFree(freelist); }
      assert ProducerRing() by { EmptyRing(rxpStd[..]); NothingToWrap(rxpStd.Length); }
      assert ReturnRing() by { EmptyRing(rxr[..]); NothingToWrap(rxr.Length); }
      assert SendRing() by { EmptyRing(txp[..]); NothingToWrap(txp.Length); NothingHanded(); }
    }

    method ResetDriver()
      modifies this`rxqueue, this`rxpStdIndex, this`rxrIndex, this`txpIndex, this`txcIndex, this`prevRxpStdIndex, this`hand
      ensures rxqueue == [] && hand == []
      ensures rxpStdIndex == rxrIndex == txpIndex == txcIndex == prevRxpStdIndex == 0
    {
      rxqueue, hand := [], [];
      rxpStdIndex, rxrIndex, txpIndex, txcIndex, prevRxpStdIndex := 0, 0, 0, 0, 0;
    }

    /** The driver zeroes the status block; the reset chip has forgotten its buffers. */
    method ResetNic()
      modifies this`rxcStdIndex, this`returnP, this`sendC, this`nicRxc, this`nicPosted, this`nicHeld, this`nicReturnP, this`nicSendC,
               this`producer, this`posted, this`returned, this`returnSeen, this`sending, this`sent, this`sentSeen, this`handed
      ensures handed == []
      ensures rxcStdIndex == returnP == sendC == nicRxc == nicPosted == nicReturnP == nicSendC == 0
      ensures nicHeld == producer == sending == [] && returned == []
      ensures posted == returnSeen == sent == sentSeen == 0
    {
      ForgetQueues();
      rxcStdIndex, returnP, sendC := 0, 0, 0;
      nicRxc, nicPosted, nicReturnP, nicSendC := 0, 0, 0, 0;
    }

    method ForgetQueues()
      modifies this`nicHeld, this`producer, this`posted, this`returned, this`returnSeen, this`sending, this`sent, this`sentSeen,
               this`handed
      ensures handed == []
      ensures nicHeld == producer == sending == [] && returned == []
      ensures posted == returnSeen == sent == sentSeen == 0
    {
      nicHeld, producer, posted, returned, returnSeen, sending, sent, sentSeen := [], [], 0, [], 0, [], 0, 0;
      handed := [];
    }

    /** eth_initfreelist */
    method InitFreeList()
      modifies this`freelist
      ensures freelist == seq(POOL_SIZE, j => j)
    {
      freelist := [];
      for i := 0 to POOL_SIZE
        invariant freelist == seq(i, j => j)
      {
        freelist := freelist + [i];
      }
    }

    /** t3_start: post the buffers. */
    method Start()
      requires Valid()
      modifies this`nicPosted, this`posted, this`prevRxpStdIndex, this`on
      ensures Valid() && on && posted == |producer|
    {
      PostAll();
      on := true;
    }

    static lemma StillFirst(first: seq<nat>, queue: seq<nat>, more: seq<nat>, later: seq<nat>)
      requires first <= queue && queue + more <= later
      ensures first <= later
    {
    }

    static lemma RestStays(queue: seq<nat>, all: seq<nat>, rest: seq<nat>, later: seq<nat>)
      requires queue <= all && all != [] && rest == all[1..] && rest <= later
      ensures queue != [] ==> queue[0] == all[0] && queue[1..] <= later
    {
    }

    /** t3_ether_read: hands out the oldest received packet, if any, and frees it. Packets come in the order
        in which they were received, those still in the return ring when the call starts included, and none is
        handed out only if none is left in the queue. */
    method Read(updates: nat) returns (status: int, got: bool, pkt: nat)
      requires Valid() && hand == []
      modifies this, rxpStd, rxr
      ensures Valid() && hand == [] && on == old(on) && handed == old(handed)
      ensures !on ==> status == -1 && !got
      ensures on ==> status == 0
      ensures var queue := old(rxqueue) + Received(old(returned)[..old(returnSeen)]);
              && (on && queue != [] ==> got && pkt == queue[0] && queue[1..] <= rxqueue)
              && (!on ==> queue <= rxqueue)
      ensures on && !got ==> rxqueue == []
      ensures returnSeen == sentSeen == 0 && posted == |producer|
      ensures |sending| + old(sentSeen) <= old(|sending|) && old(sending)[old(|sending|) - |sending|..] == sending
    {
      hide ProducerRing, ReturnRing, SendRing, Conserved, Received, Failed, InRing, Shape, Valid, EndsWith, Coming;
      got, pkt := false, 0;
      NothingReturned();
      ghost var queue := rxqueue + Received(returned[..returnSeen]);
      Isr(updates);
      if !on {
        return -1, got, pkt;
      }
      status := 0;
      if rxqueue == [] {
        return;
      }
      ghost var all, left := rxqueue, sending;
      pkt := TakeReceived();
      got := true;
      NicRuns();
      FreePkt(pkt);
      ghost var rest := rxqueue;
      Isr(updates);
      RestStays(queue, all, rest, rxqueue);
      assert old(sending)[old(|sending|) - |sending|..] == left[|left| - |sending|..];
    }

    /** q_deqnext on the receive queue. */
    method TakeReceived() returns (pkt: nat)
      requires Valid() && hand == [] && rxqueue != []
      modifies this`rxqueue, this`hand
      ensures Valid() && hand == [pkt] && old(rxqueue) == [pkt] + rxqueue
    {
      hide InRing, EndsWith, Count;
      MoveFirst(rxqueue, hand);
      pkt := rxqueue[0];
      rxqueue := rxqueue[1..];
      hand := hand + [pkt];
    }

    /** The middle of t3_ether_write: a packet from the free list goes to the end of the send ring, if there is one. */
    method SendOne() returns (ok: bool)
      requires Valid() && hand == []
      modifies txp, this`freelist, this`hand, this`txpIndex, this`sending, this`handed
      ensures Valid() && hand == [] && ok == (old(freelist) != [])
      ensures ok ==> [old(freelist)[0]] + freelist == old(freelist) && sending == old(sending) + [old(freelist)[0]]
      ensures ok ==> handed == old(handed) + [old(freelist)[0]]
      ensures !ok ==> freelist == old(freelist) && sending == old(sending) && handed == old(handed)
    {
      hide ProducerRing, ReturnRing, SendRing, Conserved;
      var pkt;
      ok, pkt := AllocPkt();
      if ok {
        Transmit(pkt);
      }
    }

    lemma NewestAreLeft()
      requires Valid()
      ensures |sending| <= |handed| && handed[|handed| - |sending|..] == sending
    {
    }

    /** t3_ether_write: exactly if it says so, one packet, and no other, has entered the send ring, which holds the
        newest of those that did; it fails for want of memory only if no packet is free. */
    method Write(updates: nat) returns (result: Written)
      requires Valid() && hand == []
      modifies this, rxpStd, rxr, txp
      ensures Valid() && hand == [] && on == old(on)
      ensures result.NotOn? <==> !on
      ensures if result.Sent? then |handed| == |old(handed)| + 1 && old(handed) <= handed else handed == old(handed)
      ensures |sending| <= |handed| && handed[|handed| - |sending|..] == sending
      ensures result.NoMemory? ==> freelist == []
      ensures returnSeen == sentSeen == 0 && posted == |producer|
      ensures old(rxqueue) + Received(old(returned)[..old(returnSeen)]) <= rxqueue
    {
      hide ProducerRing, ReturnRing, SendRing, Conserved, Received, Failed, InRing, Shape, Valid, EndsWith, Coming;
      NothingReturned();
      Isr(updates);
      if !on {
        NewestAreLeft();
        return NotOn;
      }
      var ok := SendOne();
      if !ok {
        NewestAreLeft();
        return NoMemory;
      }
      NicRuns();
      ghost var queue, first := rxqueue, old(rxqueue) + Received(old(returned)[..old(returnSeen)]);
      NothingReturned();
      ghost var more := Received(returned[..returnSeen]);
      Isr(updates);
      StillFirst(first, queue, more, rxqueue);
      NewestAreLeft();
      result := Sent;
    }

    /** t3_ether_close */
    method Stop()
      requires Valid()
      modifies this, rxpStd, rxr
      ensures Valid() && !on
      ensures if old(on) then hand == [] && rxqueue == [] && |freelist| == 32 else unchanged(this, rxpStd, rxr)
    {
      if on {
        on := false;
        Reinit();
      }
    }
  }
}
