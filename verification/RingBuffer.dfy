/** The single-producer, single-consumer byte ring (src/ringbuf.c): slots and counters. */
module RingSlots {
  import opened Bits

  /** A capacity `cpr_ringbuf_init` accepts. */
  ghost predicate Capacity(cap: nat) {
    cap < 0x1_0000_0000 && IsPow2(cap)
  }

  /** Where the copy helpers put byte `j` of a copy that starts at counter value `pos`. */
  function Slot(cap: nat, pos: u32, j: nat): nat
    requires cap > 0
  {
    var idx := And(pos, cap - 1);
    if idx + j < cap then idx + j else idx + j - cap
  }

  lemma CapacityDivides(cap: nat)
    requires Capacity(cap)
    ensures exists q: nat :: 0x1_0000_0000 == q * cap
  {
    var k: nat :| cap == Pow2(k);
    Pow2Words();
    if k > 32 {
      Pow2Mono(32, k);
      assert false;
    }
    Pow2Add(32 - k, k);
  }

  /** Masking a wrapped counter gives the slot of the true counter. */
  lemma WrapKeepsSlot(cap: nat, n: nat)
    requires Capacity(cap)
    ensures Wrap32(n) % cap == n % cap
  {
    CapacityDivides(cap);
    var q: nat :| 0x1_0000_0000 == q * cap;
    var c, r := n / 0x1_0000_0000, n % 0x1_0000_0000;
    assert n == c * (q * cap) + r;
    assert c * (q * cap) == (c * q) * cap;
    assert n == (c * q + r / cap) * cap + r % cap;
    DivUnique(n, cap, c * q + r / cap, r % cap);
  }

  lemma SlotIsMod(cap: nat, n: nat, j: nat)
    requires Capacity(cap) && j < cap
    ensures Slot(cap, Wrap32(n), j) == (n + j) % cap
  {
    var k: nat :| cap == Pow2(k);
    LowMask(Wrap32(n), k);
    WrapKeepsSlot(cap, n);
    ModAdd(cap, n, j);
  }

  lemma ModAdd(cap: nat, n: nat, j: nat)
    requires j < cap
    ensures (n + j) % cap == if n % cap + j < cap then n % cap + j else n % cap + j - cap
  {
    var q, r := n / cap, n % cap;
    assert (q + 1) * cap == q * cap + cap;
    if r + j < cap {
      DivUnique(n + j, cap, q, r + j);
    } else {
      DivUnique(n + j, cap, q + 1, r + j - cap);
    }
  }

  /** Counters less than a capacity apart use different slots. */
  lemma DistinctSlots(cap: nat, a: nat, b: nat)
    requires a < b < a + cap
    ensures a % cap != b % cap
  {
    if a % cap == b % cap {
      var d := b / cap - a / cap;
      assert d * cap == b / cap * cap - a / cap * cap;
      assert d * cap == b - a;
      SmallMultiple(d, cap);
      assert false;
    }
  }

  /** Subtracting wrapped counters recovers the true distance. */
  lemma WrapDistance(h: nat, t: nat)
    requires t <= h < t + 0x1_0000_0000
    ensures Wrap32(Wrap32(h) - Wrap32(t)) == h - t
  {
  }

  lemma WrapAdd(h: nat, n: nat)
    ensures Wrap32(Wrap32(h) + n) == Wrap32(h + n)
  {
  }
}

/** Every interleaving of the producer and the consumer, one byte copied at a time. */
module RingProtocol {
  import opened Bits
  import opened Options
  import opened RingSlots

  /** What a thread is doing: `todo` holds the offsets memcpy has not copied yet, in any order. */
  datatype Producer = PIdle | PCopying(data: seq<byte>, todo: set<nat>)
  datatype Consumer = CIdle | CCopying(out: seq<byte>, todo: set<nat>)

  /** The fields of CprRingBuffer and the two threads. */
  datatype Ring = Ring(
    cap: nat, buf: seq<byte>,
    head: u32, tail: u32,           // shared atomics
    headCache: u32, tailCache: u32, // private to one thread each
    prod: Producer, cons: Consumer)

  /** Observed history: bytes published by completed writes, bytes returned by completed reads. */
  datatype System = System(ring: Ring, written: seq<byte>, taken: seq<byte>)

  /** One atomic step. Begin steps load the other thread's counter and decide how much to copy;
      `all` selects write_all/read_all. `dst` is the reader's buffer as the caller passed it. */
  datatype Event =
    | WriteBegin(data: seq<byte>, all: bool)
    | PutByte(j: nat)
    | WriteEnd
    | ReadBegin(dst: seq<byte>, all: bool)
    | TakeByte(j: nat)
    | ReadEnd

  function FreeSeen(r: Ring): nat {
    Wrap32(r.cap - Wrap32(r.headCache - r.tail))
  }

  function SizeSeen(r: Ring): nat {
    Wrap32(r.head - r.tailCache)
  }

  function Offsets(n: nat): (s: set<nat>)
    ensures forall j: nat :: j in s <==> j < n
  {
    if n == 0 then {} else Offsets(n - 1) + {n - 1}
  }

  function BeginWrite(r: Ring, data: seq<byte>, all: bool): Producer {
    var free := FreeSeen(r);
    if all then
      if |data| > free then PIdle else PCopying(data, Offsets(|data|))
    else
      var n := if |data| < free then |data| else free;
      if n == 0 then PIdle else PCopying(data[..n], Offsets(n))
  }

  function BeginRead(r: Ring, dst: seq<byte>, all: bool): Consumer {
    var used := SizeSeen(r);
    if all then
      if |dst| > used then CIdle else CCopying(dst, Offsets(|dst|))
    else
      var n := if |dst| < used then |dst| else used;
      if n == 0 then CIdle else CCopying(dst[..n], Offsets(n))
  }

  /** An event the threads' positions do not allow leaves the system as it is. */
  function Step(x: System, e: Event): System {
    var r := x.ring;
    match e
    case WriteBegin(data, all) =>
      if r.prod.PIdle? then x.(ring := r.(prod := BeginWrite(r, data, all))) else x
    case PutByte(j) =>
      if r.prod.PCopying? && j in r.prod.todo && j < |r.prod.data| && r.cap > 0 && Slot(r.cap, r.headCache, j) < |r.buf| then
        x.(ring := r.(buf := r.buf[Slot(r.cap, r.headCache, j) := r.prod.data[j]],
                      prod := r.prod.(todo := r.prod.todo - {j})))
      else x
    case WriteEnd =>
      if r.prod.PCopying? && r.prod.todo == {} then
        var h := Wrap32(r.headCache + |r.prod.data|);
        System(r.(headCache := h, head := h, prod := PIdle), x.written + r.prod.data, x.taken)
      else x
    case ReadBegin(dst, all) =>
      if r.cons.CIdle? then x.(ring := r.(cons := BeginRead(r, dst, all))) else x
    case TakeByte(j) =>
      if r.cons.CCopying? && j in r.cons.todo && j < |r.cons.out| && r.cap > 0 && Slot(r.cap, r.tailCache, j) < |r.buf| then
        x.(ring := r.(cons := CCopying(r.cons.out[j := r.buf[Slot(r.cap, r.tailCache, j)]], r.cons.todo - {j})))
      else x
    case ReadEnd =>
      if r.cons.CCopying? && r.cons.todo == {} then
        var t := Wrap32(r.tailCache + |r.cons.out|);
        System(r.(tailCache := t, tail := t, cons := CIdle), x.written, x.taken + r.cons.out)
      else x
  }

  function Run(x: System, es: seq<Event>): System {
    if es == [] then x else Step(Run(x, es[..|es| - 1]), es[|es| - 1])
  }

  function Start(buf: seq<byte>): System {
    System(Ring(|buf|, buf, 0, 0, 0, 0, PIdle, CIdle), [], [])
  }

  /** Every unread byte is in its slot. */
  ghost predicate Stored(buf: seq<byte>, written: seq<byte>, t: nat) {
    buf != [] && forall i :: t <= i < |written| ==> buf[i % |buf|] == written[i]
  }

  /** A half-done write fits in the free space, and has put the bytes no longer to do in their slots. */
  ghost predicate Filling(p: Producer, buf: seq<byte>, h: nat, t: nat) {
    p.PCopying? && buf != [] ==>
      && h + |p.data| <= t + |buf|
      && p.todo <= Offsets(|p.data|)
      && forall j :: 0 <= j < |p.data| && j !in p.todo ==> buf[(h + j) % |buf|] == p.data[j]
  }

  /** A half-done read stays within the unread bytes, and has those no longer to do. */
  ghost predicate Draining(c: Consumer, written: seq<byte>, t: nat) {
    c.CCopying? ==>
      && t + |c.out| <= |written|
      && c.todo <= Offsets(|c.out|)
      && forall j :: 0 <= j < |c.out| && j !in c.todo ==> c.out[j] == written[t + j]
  }

  /** What holds in every reachable state, in terms of the true, unbounded counters. */
  ghost predicate Inv(x: System) {
    var r, h, t := x.ring, |x.written|, |x.taken|;
    && Capacity(r.cap) && |r.buf| == r.cap
    && r.head == r.headCache == Wrap32(h)
    && r.tail == r.tailCache == Wrap32(t)
    && t <= h <= t + r.cap
    && x.taken == x.written[..t]
    && Stored(r.buf, x.written, t)
    && Filling(r.prod, r.buf, h, t)
    && Draining(r.cons, x.written, t)
  }

  lemma Seen(x: System)
    requires Inv(x)
    ensures FreeSeen(x.ring) == x.ring.cap - (|x.written| - |x.taken|)
    ensures SizeSeen(x.ring) == |x.written| - |x.taken|
  {
    WrapDistance(|x.written|, |x.taken|);
  }

  lemma PutByteKeepsInv(x: System, j: nat)
    requires Inv(x)
    ensures Inv(Step(x, PutByte(j)))
  {
    var r, h, t := x.ring, |x.written|, |x.taken|;
    if r.prod.PCopying? && j in r.prod.todo {
      SlotIsMod(r.cap, h, j);
      forall i | t <= i < h + |r.prod.data| && i != h + j
        ensures i % r.cap != (h + j) % r.cap
      {
        if i < h + j {
          DistinctSlots(r.cap, i, h + j);
        } else {
          DistinctSlots(r.cap, h + j, i);
        }
      }
    }
  }

  lemma WriteEndKeepsInv(x: System)
    requires Inv(x)
    ensures Inv(Step(x, WriteEnd))
  {
    var r, h := x.ring, |x.written|;
    if r.prod.PCopying? && r.prod.todo == {} {
      var y := Step(x, WriteEnd);
      WrapAdd(h, |r.prod.data|);
      KeepsWritten(x.written, r.prod.data, |x.taken|);
      PublishStores(x);
      assert y.ring.buf == r.buf;
    }
  }

  lemma KeepsWritten(written: seq<byte>, more: seq<byte>, t: nat)
    requires t <= |written|
    ensures (written + more)[..t] == written[..t] && |written + more| == |written| + |more|
    ensures forall i :: 0 <= i < |written| ==> (written + more)[i] == written[i]
  {
  }

  lemma PublishStores(x: System)
    requires Inv(x) && x.ring.prod.PCopying? && x.ring.prod.todo == {}
    ensures forall i :: |x.taken| <= i < |x.written| + |x.ring.prod.data| ==>
              x.ring.buf[i % x.ring.cap] == (x.written + x.ring.prod.data)[i]
  {
    forall i | |x.taken| <= i < |x.written| + |x.ring.prod.data|
      ensures x.ring.buf[i % x.ring.cap] == (x.written + x.ring.prod.data)[i]
    {
      PublishedByte(x, i);
    }
  }

  lemma PublishedByte(x: System, i: nat)
    requires Inv(x) && x.ring.prod.PCopying? && x.ring.prod.todo == {}
    requires |x.taken| <= i < |x.written| + |x.ring.prod.data|
    ensures x.ring.buf[i % x.ring.cap] == (x.written + x.ring.prod.data)[i]
  {
    var h := |x.written|;
    if i >= h {
      var j := i - h;
      assert j !in x.ring.prod.todo && h + j == i;
    }
  }

  lemma TakeByteKeepsInv(x: System, j: nat)
    requires Inv(x)
    ensures Inv(Step(x, TakeByte(j)))
  {
    var r, t := x.ring, |x.taken|;
    if r.cons.CCopying? && j in r.cons.todo {
      SlotIsMod(r.cap, t, j);
    }
  }

  lemma ReadEndKeepsInv(x: System)
    requires Inv(x)
    ensures Inv(Step(x, ReadEnd))
  {
    var r, t := x.ring, |x.taken|;
    if r.cons.CCopying? && r.cons.todo == {} {
      WrapAdd(t, |r.cons.out|);
      TakesNext(x.written, x.taken, r.cons.out);
    }
  }

  lemma TakesNext(written: seq<byte>, taken: seq<byte>, out: seq<byte>)
    requires |taken| + |out| <= |written| && taken == written[..|taken|]
    requires forall j :: 0 <= j < |out| ==> out[j] == written[|taken| + j]
    ensures taken + out == written[..|taken| + |out|] && |taken + out| == |taken| + |out|
  {
    assert out == written[|taken|..|taken| + |out|];
  }

  lemma StepKeepsInv(x: System, e: Event)
    requires Inv(x)
    ensures Inv(Step(x, e))
  {
    Seen(x);
    match e
    case PutByte(j) => PutByteKeepsInv(x, j);
    case WriteEnd => WriteEndKeepsInv(x);
    case TakeByte(j) => TakeByteKeepsInv(x, j);
    case ReadEnd => ReadEndKeepsInv(x);
    case _ =>
  }

  lemma {:induction false} RunKeepsInv(x: System, es: seq<Event>)
    requires Inv(x)
    ensures Inv(Run(x, es))
  {
    if es != [] {
      RunKeepsInv(x, es[..|es| - 1]);
      StepKeepsInv(Run(x, es[..|es| - 1]), es[|es| - 1]);
    }
  }

  /** In every interleaving the bytes taken are a prefix of the bytes written: nothing is lost,
      repeated or reordered, however often the 32-bit counters wrap. */
  lemma DeliveredInOrder(buf: seq<byte>, es: seq<Event>)
    requires Capacity(|buf|)
    ensures var x := Run(Start(buf), es);
            && x.taken <= x.written
            && |x.written| <= |x.taken| + |buf|
            && SizeSeen(x.ring) == |x.written| - |x.taken|
            && FreeSeen(x.ring) == |buf| - (|x.written| - |x.taken|)
  {
    RunKeepsInv(Start(buf), es);
    RunKeepsCapacity(Start(buf), es);
    Seen(Run(Start(buf), es));
  }

  lemma {:induction false} RunKeepsCapacity(x: System, es: seq<Event>)
    ensures Run(x, es).ring.cap == x.ring.cap
  {
    if es != [] {
      RunKeepsCapacity(x, es[..|es| - 1]);
    }
  }

  /** In every reachable state the slots being filled hold no unread byte; in particular they
      are disjoint from the slots the consumer is copying. */
  lemma CopiesAreDisjoint(buf: seq<byte>, es: seq<Event>, j: nat, k: nat)
    requires Capacity(|buf|)
    requires var x := Run(Start(buf), es);
             && x.ring.prod.PCopying? && j < |x.ring.prod.data|
             && k < |x.written| - |x.taken|
    ensures var x := Run(Start(buf), es);
            && x.ring.cap == |buf|
            && Slot(|buf|, x.ring.headCache, j) != Slot(|buf|, x.ring.tailCache, k)
            && (x.ring.cons.CCopying? ==> |x.ring.cons.out| <= |x.written| - |x.taken|)
  {
    RunKeepsInv(Start(buf), es);
    RunKeepsCapacity(Start(buf), es);
    FilledSlotIsFree(Run(Start(buf), es), j, k);
  }

  lemma FilledSlotIsFree(x: System, j: nat, k: nat)
    requires Inv(x) && x.ring.prod.PCopying? && j < |x.ring.prod.data| && k < |x.written| - |x.taken|
    ensures Slot(x.ring.cap, x.ring.headCache, j) != Slot(x.ring.cap, x.ring.tailCache, k)
  {
    var h, t, cap := |x.written|, |x.taken|, x.ring.cap;
    SlotIsMod(cap, h, j);
    SlotIsMod(cap, t, k);
    DistinctSlots(cap, t + k, h + j);
  }

  /** A write takes exactly what fits, a write_all everything or nothing. */
  lemma WriteTakesWhatFits(buf: seq<byte>, es: seq<Event>, data: seq<byte>, all: bool, free: nat)
    requires Capacity(|buf|)
    requires var x := Run(Start(buf), es); x.ring.prod.PIdle? && |x.written| + free == |x.taken| + |buf|
    ensures Step(Run(Start(buf), es), WriteBegin(data, all)).ring.prod ==
            match Share(data, all, free)
            case None => PIdle
            case Some(d) => PCopying(d, Offsets(|d|))
  {
    RunKeepsInv(Start(buf), es);
    RunKeepsCapacity(Start(buf), es);
    Seen(Run(Start(buf), es));
  }

  /** A read returns exactly what is there, a read_all everything asked for or nothing. */
  lemma ReadTakesWhatIsThere(buf: seq<byte>, es: seq<Event>, dst: seq<byte>, all: bool, used: nat)
    requires Capacity(|buf|)
    requires var x := Run(Start(buf), es); x.ring.cons.CIdle? && |x.written| == |x.taken| + used
    ensures Step(Run(Start(buf), es), ReadBegin(dst, all)).ring.cons ==
            match Share(dst, all, used)
            case None => CIdle
            case Some(d) => CCopying(d, Offsets(|d|))
  {
    RunKeepsInv(Start(buf), es);
    Seen(Run(Start(buf), es));
  }

  /** The part of `d` a call handles when `room` bytes are possible, or None if it handles none. */
  function Share(d: seq<byte>, all: bool, room: nat): Option<seq<byte>> {
    if |d| <= room then (if d == [] && !all then None else Some(d))
    else if all || room == 0 then None
    else Some(d[..room])
  }

  // ---- From caller to caller

  /** The bytes the producer's calls have been granted, told from the calls: of each made while no
      other is under way, the part that fits in the free space, or for write_all everything or nothing. */
  function Accepted(buf: seq<byte>, es: seq<Event>): seq<byte> {
    if es == [] then []
    else
      var x, before := Run(Start(buf), es[..|es| - 1]), Accepted(buf, es[..|es| - 1]);
      var free := |buf| - (|x.written| - |x.taken|);
      match es[|es| - 1]
      case WriteBegin(data, all) =>
        if !x.ring.prod.PIdle? || free < 0 then before
        else if |data| <= free then before + data
        else if all then before
        else before + data[..free]
      case _ => before
  }

  /** How many bytes the consumer's calls have been granted, told from the calls. */
  function Served(buf: seq<byte>, es: seq<Event>): nat {
    if es == [] then 0
    else
      var x, before := Run(Start(buf), es[..|es| - 1]), Served(buf, es[..|es| - 1]);
      var used := |x.written| - |x.taken|;
      match es[|es| - 1]
      case ReadBegin(dst, all) =>
        if !x.ring.cons.CIdle? || used < 0 then before
        else if |dst| <= used then before + |dst|
        else if all then before
        else before + used
      case _ => before
  }

  function UnderWay(p: Producer): seq<byte> {
    if p.PCopying? then p.data else []
  }

  function Reading(c: Consumer): nat {
    if c.CCopying? then |c.out| else 0
  }

  lemma BeginAccepts(x: System, data: seq<byte>, all: bool, free: nat)
    requires Inv(x) && x.ring.prod.PIdle? && free == x.ring.cap - (|x.written| - |x.taken|)
    ensures UnderWay(Step(x, WriteBegin(data, all)).ring.prod) ==
            if |data| <= free then data else if all then [] else data[..free]
  {
    Seen(x);
  }

  lemma BeginServes(x: System, dst: seq<byte>, all: bool, used: nat)
    requires Inv(x) && x.ring.cons.CIdle? && used == |x.written| - |x.taken|
    ensures Reading(Step(x, ReadBegin(dst, all)).ring.cons) ==
            if |dst| <= used then |dst| else if all then 0 else used
  {
    Seen(x);
  }

  /** Only the end of a write publishes, and what it publishes is what was under way. */
  lemma OthersKeepWritten(x: System, e: Event)
    requires !e.WriteBegin? || !x.ring.prod.PIdle?
    ensures var y := Step(x, e);
            y.written + UnderWay(y.ring.prod) == x.written + UnderWay(x.ring.prod)
  {
    var y := Step(x, e);
    if e.WriteEnd? {
      assert x.written + UnderWay(x.ring.prod) + [] == x.written + UnderWay(x.ring.prod);
    }
  }

  lemma OthersKeepTaken(x: System, e: Event)
    requires !e.ReadBegin? || !x.ring.cons.CIdle?
    ensures var y := Step(x, e); |y.taken| + Reading(y.ring.cons) == |x.taken| + Reading(x.ring.cons)
  {
  }

  lemma BeginKeepsWritten(x: System, data: seq<byte>, all: bool)
    ensures Step(x, WriteBegin(data, all)).written == x.written
  {
  }

  /** What the producer has published, and has under way, is what its callers passed in. */
  lemma {:induction false} PublishedIsAccepted(buf: seq<byte>, es: seq<Event>)
    requires Capacity(|buf|)
    ensures var x := Run(Start(buf), es); x.written + UnderWay(x.ring.prod) == Accepted(buf, es)
  {
    if es != [] {
      var init, e := es[..|es| - 1], es[|es| - 1];
      var x := Run(Start(buf), init);
      PublishedIsAccepted(buf, init);
      RunKeepsInv(Start(buf), init);
      RunKeepsCapacity(Start(buf), init);
      if e.WriteBegin? && x.ring.prod.PIdle? {
        assert x.written == Accepted(buf, init) by { assert x.written + [] == x.written; }
        BeginAccepts(x, e.data, e.all, |buf| - (|x.written| - |x.taken|));
        BeginKeepsWritten(x, e.data, e.all);
        assert x.written + [] == x.written;
      } else {
        OthersKeepWritten(x, e);
      }
    }
  }

  lemma {:induction false} TakenIsServed(buf: seq<byte>, es: seq<Event>)
    requires Capacity(|buf|)
    ensures var x := Run(Start(buf), es); |x.taken| + Reading(x.ring.cons) == Served(buf, es)
  {
    if es != [] {
      var init, e := es[..|es| - 1], es[|es| - 1];
      var x := Run(Start(buf), init);
      TakenIsServed(buf, init);
      RunKeepsInv(Start(buf), init);
      if e.ReadBegin? && x.ring.cons.CIdle? {
        BeginServes(x, e.dst, e.all, |x.written| - |x.taken|);
      } else {
        OthersKeepTaken(x, e);
      }
    }
  }

  /** In every interleaving the bytes returned to the consumer's callers are the first of the bytes
      the producer's callers passed in, and as many as their calls were granted. */
  lemma CallerToCaller(buf: seq<byte>, es: seq<Event>)
    requires Capacity(|buf|)
    ensures var x := Run(Start(buf), es);
            && x.taken <= Accepted(buf, es)
            && (x.ring.cons.CIdle? ==> |x.taken| == Served(buf, es))
            && (x.ring.prod.PIdle? ==> x.written == Accepted(buf, es))
  {
    var x := Run(Start(buf), es);
    PublishedIsAccepted(buf, es);
    TakenIsServed(buf, es);
    DeliveredInOrder(buf, es);
    assert x.written <= x.written + UnderWay(x.ring.prod);
    assert x.written + [] == x.written;
  }

  // ---- Observations stay valid

  ghost predicate ByConsumer(e: Event) {
    e.ReadBegin? || e.TakeByte? || e.ReadEnd?
  }

  ghost predicate ByProducer(e: Event) {
    e.WriteBegin? || e.PutByte? || e.WriteEnd?
  }

  lemma {:induction false} ConsumerOnlyFrees(x: System, es: seq<Event>)
    requires forall e :: e in es ==> ByConsumer(e)
    ensures Run(x, es).written == x.written && Run(x, es).ring.prod == x.ring.prod
    ensures |Run(x, es).taken| >= |x.taken|
  {
    if es != [] {
      assert ByConsumer(es[|es| - 1]);
      ConsumerOnlyFrees(x, es[..|es| - 1]);
    }
  }

  lemma {:induction false} ProducerOnlyFills(x: System, es: seq<Event>)
    requires forall e :: e in es ==> ByProducer(e)
    ensures Run(x, es).taken == x.taken && Run(x, es).ring.cons == x.ring.cons
    ensures |Run(x, es).written| >= |x.written|
  {
    if es != [] {
      assert ByProducer(es[|es| - 1]);
      ProducerOnlyFills(x, es[..|es| - 1]);
    }
  }

  /** Free space the producer has observed stays available whatever the consumer does next:
      a write_all of at most that much starts, and copies all of its data. */
  lemma FreeStaysAvailable(buf: seq<byte>, es: seq<Event>, later: seq<Event>, data: seq<byte>)
    requires Capacity(|buf|)
    requires forall e :: e in later ==> ByConsumer(e)
    requires Run(Start(buf), es).ring.prod.PIdle?
    requires |data| <= FreeSeen(Run(Start(buf), es).ring)
    ensures var y := Run(Run(Start(buf), es), later);
            Step(y, WriteBegin(data, true)).ring.prod == PCopying(data, Offsets(|data|))
  {
    var x := Run(Start(buf), es);
    RunKeepsInv(Start(buf), es);
    RunKeepsInv(x, later);
    RunKeepsCapacity(x, later);
    ConsumerOnlyFrees(x, later);
    Seen(x);
    Seen(Run(x, later));
  }

  /** Data the consumer has observed stays readable whatever the producer does next. */
  lemma SizeStaysAvailable(buf: seq<byte>, es: seq<Event>, later: seq<Event>, dst: seq<byte>)
    requires Capacity(|buf|)
    requires forall e :: e in later ==> ByProducer(e)
    requires Run(Start(buf), es).ring.cons.CIdle?
    requires |dst| <= SizeSeen(Run(Start(buf), es).ring)
    ensures var y := Run(Run(Start(buf), es), later);
            Step(y, ReadBegin(dst, true)).ring.cons == CCopying(dst, Offsets(|dst|))
  {
    var x := Run(Start(buf), es);
    RunKeepsInv(Start(buf), es);
    RunKeepsInv(x, later);
    ProducerOnlyFills(x, later);
    Seen(x);
    Seen(Run(x, later));
  }
}

/** The same calls on the actual structure, each run to its end by one thread. */
module RingObject {
  import opened Bits
  import opened RingSlots

  /** The `n` bytes starting at counter `pos`, read around the end of the buffer. */
  ghost function Window(b: seq<byte>, pos: nat, n: nat): (w: seq<byte>)
    requires b != []
    ensures |w| == n
    ensures forall i :: 0 <= i < n ==> w[i] == b[(pos + i) % |b|]
  {
    seq(n, i requires 0 <= i < n => b[(pos + i) % |b|])
  }

  /** `b` after `src` is copied in at counter `pos`: what every slot then holds. */
  ghost predicate CopiedIn(b: seq<byte>, b': seq<byte>, pos: nat, src: seq<byte>)
    requires b != []
  {
    var idx := pos % |b|;
    && |b'| == |b|
    && forall i :: 0 <= i < |b| ==>
         b'[i] == if idx <= i < idx + |src| then src[i - idx]
                  else if i + |b| < idx + |src| then src[i + |b| - idx]
                  else b[i]
  }

  lemma CopiedInAppends(b: seq<byte>, b': seq<byte>, t: nat, used: nat, src: seq<byte>)
    requires Capacity(|b|) && used + |src| <= |b|
    requires CopiedIn(b, b', Wrap32(t + used), src)
    ensures Window(b', t, used + |src|) == Window(b, t, used) + src
  {
    var w, w' := Window(b, t, used), Window(b', t, used + |src|);
    forall i | 0 <= i < used + |src|
      ensures w'[i] == (w + src)[i]
    {
      if i >= used {
        NewByte(b, b', t + used, src, i - used);
        assert t + i == t + used + (i - used);
      } else {
        OldByte(b, b', t, used, src, i);
      }
    }
  }

  lemma NewByte(b: seq<byte>, b': seq<byte>, h: nat, src: seq<byte>, j: nat)
    requires Capacity(|b|) && j < |src| <= |b|
    requires CopiedIn(b, b', Wrap32(h), src)
    ensures b'[(h + j) % |b|] == src[j]
  {
    WrapKeepsSlot(|b|, h);
    ModAdd(|b|, h, j);
  }

  lemma OldByte(b: seq<byte>, b': seq<byte>, t: nat, used: nat, src: seq<byte>, i: nat)
    requires Capacity(|b|) && i < used && used + |src| <= |b|
    requires CopiedIn(b, b', Wrap32(t + used), src)
    ensures b'[(t + i) % |b|] == b[(t + i) % |b|]
  {
    WrapKeepsSlot(|b|, t + used);
    UnreadSlot(|b|, t, used, i);
  }

  /** An unread byte sits at least a free gap after the head. */
  lemma UnreadSlot(cap: nat, t: nat, used: nat, i: nat)
    requires i < used <= cap
    ensures var idx, d := (t + used) % cap, cap + i - used;
            (t + i) % cap == if idx + d < cap then idx + d else idx + d - cap
  {
    AddCap(cap, t + i);
    assert t + i + cap == t + used + (cap + i - used);
    ModAdd(cap, t + used, cap + i - used);
  }

  lemma AddCap(cap: nat, n: nat)
    requires cap > 0
    ensures (n + cap) % cap == n % cap
  {
    assert (n / cap + 1) * cap == n / cap * cap + cap;
    DivUnique(n + cap, cap, n / cap + 1, n % cap);
  }

  class CprRingBuffer {
    var buf: array<byte>
    var capacity: u32
    var mask: u32
    var head: u32
    var tail: u32
    var headCache: u32
    var tailCache: u32

    ghost predicate Valid()
      reads this
    {
      && Capacity(capacity) && buf.Length == capacity && mask == capacity - 1
      && head == headCache && tail == tailCache
      && Wrap32(head - tail) <= capacity
    }

    /** The bytes written and not yet read, oldest first. */
    ghost function Contents(): seq<byte>
      reads this, buf
      requires Valid()
    {
      Window(buf[..], tail, Wrap32(head - tail))
    }

    constructor ()
    {
      buf := new byte[0];
    }

    method Init(b: array<byte>) returns (ok: bool)
      requires b.Length < 0x1_0000_0000
      modifies this
      ensures ok <==> Capacity(b.Length)
      ensures ok ==> Valid() && buf == b && capacity == b.Length && Contents() == []
      ensures !ok ==> unchanged(this)
    {
      var size: u32 := b.Length;
      if size == 0 || And(size, size - 1) != 0 {
        if size != 0 {
          PowerOfTwoTest(size);
        }
        return false;
      }
      PowerOfTwoTest(size);
      buf, capacity, mask := b, size, size - 1;
      headCache, tailCache, head, tail := 0, 0, 0, 0;
      return true;
    }

    method CopyIn(pos: u32, src: seq<byte>, n: nat)
      requires Valid() && n <= |src| && n <= capacity
      modifies buf
      ensures CopiedIn(old(buf[..]), buf[..], pos, src[..n])
    {
      var idx := And(pos, mask);
      MaskIsMod(pos);
      var untilWrap := capacity - idx;
      if n <= untilWrap {
        forall i | 0 <= i < n {
          buf[idx + i] := src[i];
        }
      } else {
        forall i | 0 <= i < untilWrap {
          buf[idx + i] := src[i];
        }
        forall i | 0 <= i < n - untilWrap {
          buf[i] := src[untilWrap + i];
        }
      }
    }

    lemma MaskIsMod(pos: u32)
      requires Valid()
      ensures And(pos, mask) == pos % capacity
    {
      var k: nat :| capacity == Pow2(k);
      LowMask(pos, k);
    }

    method CopyOut(pos: u32, dst: array<byte>, n: nat)
      requires Valid() && n <= dst.Length && n <= capacity && dst != buf
      modifies dst
      ensures dst[..n] == Window(buf[..], pos, n)
      ensures dst[n..] == old(dst[n..])
    {
      var idx := And(pos, mask);
      MaskIsMod(pos);
      var untilWrap := capacity - idx;
      if n <= untilWrap {
        forall i | 0 <= i < n {
          dst[i] := buf[idx + i];
        }
      } else {
        forall i | 0 <= i < untilWrap {
          dst[i] := buf[idx + i];
        }
        forall i | 0 <= i < n - untilWrap {
          dst[untilWrap + i] := buf[i];
        }
      }
      forall i | 0 <= i < n
        ensures dst[i] == buf[(pos + i) % capacity]
      {
        ModAdd(capacity, pos, i);
      }
    }

    method Write(data: seq<byte>) returns (n: nat)
      requires Valid()
      modifies this`headCache, this`head, buf
      ensures Valid()
      ensures n == if |data| <= capacity - |old(Contents())| then |data| else capacity - |old(Contents())|
      ensures Contents() == old(Contents()) + data[..n]
    {
      var used := Wrap32(headCache - tail);
      var freeSpace := Wrap32(capacity - used);
      n := if |data| < freeSpace then |data| else freeSpace;
      if n == 0 {
        return;
      }
      CopyIn(headCache, data, n);
      headCache := Wrap32(headCache + n);
      head := headCache;
      Published(old(buf[..]), old(head), used, data[..n]);
    }

    lemma Published(b0: seq<byte>, h0: u32, used: nat, src: seq<byte>)
      requires Capacity(capacity) && |b0| == capacity == buf.Length && used + |src| <= capacity
      requires used == Wrap32(h0 - tail) && head == Wrap32(h0 + |src|)
      requires CopiedIn(b0, buf[..], h0, src)
      ensures Wrap32(head - tail) == used + |src|
      ensures Window(buf[..], tail, Wrap32(head - tail)) == Window(b0, tail, used) + src
    {
      assert h0 == Wrap32(tail + used);
      CopiedInAppends(b0, buf[..], tail, used, src);
    }

    method WriteAll(data: seq<byte>) returns (ok: bool)
      requires Valid()
      modifies this`headCache, this`head, buf
      ensures Valid()
      ensures ok <==> |data| <= capacity - |old(Contents())|
      ensures Contents() == if ok then old(Contents()) + data else old(Contents())
    {
      var used := Wrap32(headCache - tail);
      var freeSpace := Wrap32(capacity - used);
      if |data| > freeSpace {
        return false;
      }
      CopyIn(headCache, data, |data|);
      headCache := Wrap32(headCache + |data|);
      head := headCache;
      assert data[..|data|] == data;
      Published(old(buf[..]), old(head), used, data);
      return true;
    }

    lemma Consumed(t0: u32, used: nat, n: nat)
      requires Capacity(capacity) && capacity == buf.Length && n <= used <= capacity
      requires used == Wrap32(head - t0) && tail == Wrap32(t0 + n)
      ensures Wrap32(head - tail) == used - n
      ensures Window(buf[..], tail, used - n) == Window(buf[..], t0, used)[n..]
    {
      var w, w' := Window(buf[..], t0, used), Window(buf[..], tail, used - n);
      forall i | 0 <= i < used - n
        ensures w'[i] == w[n..][i]
      {
        SlidSlot(capacity, t0 + n, i);
        assert t0 + n + i == t0 + (n + i);
      }
    }

    static lemma SlidSlot(cap: nat, p: nat, i: nat)
      requires Capacity(cap) && i < cap
      ensures (Wrap32(p) + i) % cap == (p + i) % cap
    {
      WrapKeepsSlot(cap, p);
      ModAdd(cap, Wrap32(p), i);
      ModAdd(cap, p, i);
    }

    method Read(dst: array<byte>) returns (n: nat)
      requires Valid() && dst != buf
      modifies this`tailCache, this`tail, dst
      ensures Valid()
      ensures n == if dst.Length <= |old(Contents())| then dst.Length else |old(Contents())|
      ensures dst[..n] == old(Contents())[..n] && dst[n..] == old(dst[n..])
      ensures Contents() == old(Contents())[n..]
    {
      var used := Wrap32(head - tailCache);
      n := if dst.Length < used then dst.Length else used;
      if n == 0 {
        return;
      }
      CopyOut(tailCache, dst, n);
      tailCache := Wrap32(tailCache + n);
      tail := tailCache;
      Consumed(old(tail), used, n);
    }

    method ReadAll(dst: array<byte>) returns (ok: bool)
      requires Valid() && dst != buf
      modifies this`tailCache, this`tail, dst
      ensures Valid()
      ensures ok <==> dst.Length <= |old(Contents())|
      ensures ok ==> dst[..] == old(Contents())[..dst.Length] && Contents() == old(Contents())[dst.Length..]
      ensures !ok ==> dst[..] == old(dst[..]) && Contents() == old(Contents())
    {
      var used := Wrap32(head - tailCache);
      if dst.Length > used {
        return false;
      }
      CopyOut(tailCache, dst, dst.Length);
      tailCache := Wrap32(tailCache + dst.Length);
      tail := tailCache;
      Consumed(old(tail), used, dst.Length);
      assert dst[..dst.Length] == dst[..];
      return true;
    }
  }
}
