/** The sequential meaning of the 32-bit atomics (src/atomic.c). */
module AtomicSpec {
  import opened Bits

  datatype Op =
    | Load
    | Store(v: u32)
    | Exchange(v: u32)
    | CompareExchange(expected: u32, desired: u32)
    | FetchAdd(v: u32)
    | FetchSub(v: u32)

  /** What a call reports: the value it saw (a store reports none, written 0) and, for
      compare_exchange, whether it stored. A failed compare_exchange leaves `value` in `*expected`. */
  datatype Ret = Ret(value: u32, ok: bool)

  /** One indivisible operation on a cell holding `v`. */
  function Effect(op: Op, v: u32): (u32, Ret) {
    match op
    case Load => (v, Ret(v, true))
    case Store(w) => (w, Ret(0, true))
    case Exchange(w) => (w, Ret(v, true))
    case CompareExchange(expected, desired) => if v == expected then (desired, Ret(v, true)) else (v, Ret(v, false))
    case FetchAdd(w) => (Wrap32(v + w), Ret(v, true))
    case FetchSub(w) => (Wrap32(v - w), Ret(v, true))
  }

  datatype Entry = Entry(tid: nat, op: Op, ret: Ret)

  datatype Call = Free | Pending(op: Op) | Done(op: Op, ret: Ret)

  /** Threads calling single-step atomic operations; `log` lists the operations in the order they took effect. */
  datatype Spec = Spec(value: u32, calls: map<nat, Call>, log: seq<Entry>)

  datatype SpecEvent = Skip | Begin(t: nat, op: Op) | Atomic(t: nat) | Return(t: nat)

  function CallOf(s: Spec, t: nat): Call {
    if t in s.calls then s.calls[t] else Free
  }

  function SpecStep(s: Spec, e: SpecEvent): Spec {
    match e
    case Skip => s
    case Begin(t, op) =>
      if CallOf(s, t).Free? then s.(calls := s.calls[t := Pending(op)]) else s
    case Atomic(t) =>
      (match CallOf(s, t)
       case Pending(op) =>
         var (v, ret) := Effect(op, s.value);
         Spec(v, s.calls[t := Done(op, ret)], s.log + [Entry(t, op, ret)])
       case _ => s)
    case Return(t) =>
      if CallOf(s, t).Done? then s.(calls := s.calls[t := Free]) else s
  }

  function SpecRun(s: Spec, es: seq<SpecEvent>): Spec {
    if es == [] then s else SpecStep(SpecRun(s, es[..|es| - 1]), es[|es| - 1])
  }

  /** The value left by performing the logged operations one after another. */
  function Replay(v: u32, log: seq<Entry>): u32 {
    if log == [] then v else Effect(log[|log| - 1].op, Replay(v, log[..|log| - 1])).0
  }

  /** Every logged operation reported what it does on the value its predecessors left. */
  ghost predicate Legal(v: u32, log: seq<Entry>) {
    forall i :: 0 <= i < |log| ==> log[i].ret == Effect(log[i].op, Replay(v, log[..i])).1
  }

  lemma {:induction false} SpecRunIsLegal(v: u32, es: seq<SpecEvent>)
    ensures var s := SpecRun(Spec(v, map[], []), es);
            Legal(v, s.log) && s.value == Replay(v, s.log)
  {
    if es != [] {
      SpecRunIsLegal(v, es[..|es| - 1]);
      var s := SpecRun(Spec(v, map[], []), es[..|es| - 1]);
      var s' := SpecStep(s, es[|es| - 1]);
      if s'.log != s.log {
        assert s'.log[..|s.log|] == s.log;
        forall i | 0 <= i < |s'.log|
          ensures s'.log[i].ret == Effect(s'.log[i].op, Replay(v, s'.log[..i])).1
        {
          assert i < |s.log| ==> s'.log[..i] == s.log[..i];
        }
      }
    }
  }

  // ---- Histories

  /** What the operation does to the value `b`, leaving `a`, and what it reports. */
  predicate Explains(e: Entry, b: u32, a: u32) {
    match e.op
    case Load => a == b && e.ret.value == b
    case Store(w) => a == w
    case Exchange(w) => a == w && e.ret.value == b
    case CompareExchange(x, w) => e.ret.value == b && (e.ret.ok <==> b == x) && a == if b == x then w else b
    case FetchAdd(w) => e.ret.value == b && a == (b + w) % 0x1_0000_0000
    case FetchSub(w) => e.ret.value == b && a == (b - w) % 0x1_0000_0000
  }

  /** The cell's values, one more than there are operations. */
  ghost predicate History(v: u32, log: seq<Entry>, vals: seq<u32>) {
    && |vals| == |log| + 1 && vals[0] == v
    && forall i :: 0 <= i < |log| ==> Explains(log[i], vals[i], vals[i + 1])
  }

  lemma EffectExplains(e: Entry, b: u32)
    requires e.ret == Effect(e.op, b).1
    ensures Explains(e, b, Effect(e.op, b).0)
  {
  }

  lemma LegalInit(v: u32, log: seq<Entry>)
    requires Legal(v, log) && log != []
    ensures Legal(v, log[..|log| - 1])
  {
    var init := log[..|log| - 1];
    forall i | 0 <= i < |init|
      ensures init[i].ret == Effect(init[i].op, Replay(v, init[..i])).1
    {
      assert init[i] == log[i] && init[..i] == log[..i];
    }
  }

  lemma HistorySnoc(v: u32, log: seq<Entry>, vals: seq<u32>, e: Entry, a: u32)
    requires History(v, log, vals) && Explains(e, vals[|log|], a)
    ensures History(v, log + [e], vals + [a])
  {
  }

  /** A legal log has a history, which ends where the replay does. */
  lemma {:induction false} LegalHasHistory(v: u32, log: seq<Entry>) returns (vals: seq<u32>)
    requires Legal(v, log)
    ensures History(v, log, vals) && vals[|log|] == Replay(v, log)
  {
    if log == [] {
      vals := [v];
    } else {
      var init, e := log[..|log| - 1], log[|log| - 1];
      assert e.ret == Effect(e.op, Replay(v, init)).1;
      LegalInit(v, log);
      var before := LegalHasHistory(v, init);
      EffectExplains(e, Replay(v, init));
      HistorySnoc(v, init, before, e, Replay(v, log));
      assert init + [e] == log;
      vals := before + [Replay(v, log)];
    }
  }

  function Given(e: Entry): u32 {
    if e.op.Exchange? then e.op.v else 0
  }

  function AllGiven(log: seq<Entry>): multiset<u32> {
    if log == [] then multiset{} else AllGiven(log[..|log| - 1]) + multiset{Given(log[|log| - 1])}
  }

  function AllReturned(log: seq<Entry>): multiset<u32> {
    if log == [] then multiset{} else AllReturned(log[..|log| - 1]) + multiset{log[|log| - 1].ret.value}
  }

  lemma HistoryInit(v: u32, log: seq<Entry>, vals: seq<u32>)
    requires log != [] && History(v, log, vals)
    ensures History(v, log[..|log| - 1], vals[..|log|]) && Explains(log[|log| - 1], vals[|log| - 1], vals[|log|])
  {
  }

  /** Exchanges lose no value and invent none: those returned and the last are those given and the first. */
  lemma {:induction false} ExchangesConserve(v: u32, log: seq<Entry>, vals: seq<u32>)
    requires History(v, log, vals) && forall e :: e in log ==> e.op.Exchange?
    ensures AllReturned(log) + multiset{vals[|log|]} == AllGiven(log) + multiset{v}
  {
    if log != [] {
      var n := |log| - 1;
      HistoryInit(v, log, vals);
      ExchangesConserve(v, log[..n], vals[..n + 1]);
      assert log[n].op.Exchange?;
    }
  }

  function LastStored(v: u32, log: seq<Entry>): u32 {
    if log == [] then v
    else if log[|log| - 1].op.Store? then log[|log| - 1].op.v
    else LastStored(v, log[..|log| - 1])
  }

  /** Among loads and stores, the cell holds the value last stored, and that is what a load reports. */
  lemma {:induction false} LoadsReportLastStored(v: u32, log: seq<Entry>, vals: seq<u32>, i: nat)
    requires History(v, log, vals) && forall e :: e in log ==> e.op.Load? || e.op.Store?
    requires i <= |log|
    ensures vals[i] == LastStored(v, log[..i])
    ensures i < |log| && log[i].op.Load? ==> log[i].ret.value == LastStored(v, log[..i])
    decreases i
  {
    if i > 0 {
      LoadsReportLastStored(v, log, vals, i - 1);
      assert log[i - 1] in log && Explains(log[i - 1], vals[i - 1], vals[i]);
      assert log[..i][..i - 1] == log[..i - 1];
    }
    assert i < |log| ==> Explains(log[i], vals[i], vals[i + 1]);
  }

  /** Of compare_exchanges that all expect the initial value and would replace it, the first succeeds
      and no other. */
  lemma {:induction false} OneWinner(v: u32, log: seq<Entry>, vals: seq<u32>, i: nat)
    requires History(v, log, vals) && i < |log|
    requires forall e :: e in log ==> e.op.CompareExchange? && e.op.expected == v && e.op.desired != v
    ensures log[i].ret.ok <==> i == 0
    ensures vals[i + 1] == log[0].op.desired
  {
    assert log[i] in log && Explains(log[i], vals[i], vals[i + 1]);
    if i > 0 {
      OneWinner(v, log, vals, i - 1);
      assert log[0] in log;
    }
  }

  // ---- Counters

  function SumOf(log: seq<Entry>): int {
    if log == [] then 0
    else SumOf(log[..|log| - 1]) + Operand(log[|log| - 1].op)
  }

  /** What an operation adds to the cell, for the two arithmetic operations. */
  function Operand(op: Op): int {
    match op
    case FetchAdd(v) => v
    case FetchSub(v) => 0 - v
    case _ => 0
  }

  predicate Arithmetic(op: Op) {
    op.FetchAdd? || op.FetchSub? || op.Load?
  }

  ghost predicate AllArithmetic(log: seq<Entry>) {
    forall e :: e in log ==> Arithmetic(e.op)
  }

  lemma {:induction false} ReplayAdds(v: u32, log: seq<Entry>)
    requires AllArithmetic(log)
    ensures Replay(v, log) == Wrap32(v + SumOf(log))
  {
    if log != [] {
      var n := |log| - 1;
      assert Arithmetic(log[n].op);
      ReplayAdds(v, log[..n]);
      WrapSum(v + SumOf(log[..n]), Operand(log[n].op));
    }
  }

  lemma WrapSum(x: int, y: int)
    ensures Wrap32(Wrap32(x) + y) == Wrap32(x + y)
  {
  }

  lemma {:induction false} SumOfOnes(log: seq<Entry>)
    requires forall e :: e in log ==> e.op == FetchAdd(1)
    ensures SumOf(log) == |log|
  {
    if log != [] {
      assert log[|log| - 1].op == FetchAdd(1);
      SumOfOnes(log[..|log| - 1]);
    }
  }

  lemma TicketAt(v: u32, log: seq<Entry>, i: nat)
    requires Legal(v, log) && i < |log|
    requires forall e :: e in log ==> e.op == FetchAdd(1)
    ensures log[i].ret.value == Wrap32(v + i)
  {
    assert log[i].op == FetchAdd(1);
    forall e | e in log[..i]
      ensures e.op == FetchAdd(1)
    {
    }
    ReplayAdds(v, log[..i]);
    SumOfOnes(log[..i]);
  }

  /** At most 2^32 increments by one report pairwise distinct values. */
  lemma TicketsAreDistinct(v: u32, log: seq<Entry>, i: nat, j: nat)
    requires Legal(v, log) && |log| <= 0x1_0000_0000
    requires forall e :: e in log ==> e.op == FetchAdd(1)
    requires i < j < |log|
    ensures log[i].ret.value == Wrap32(v + i)
    ensures log[i].ret.value != log[j].ret.value
  {
    TicketAt(v, log, i);
    TicketAt(v, log, j);
    WrapApart(v + i, v + j);
  }

  lemma WrapApart(x: int, y: int)
    requires x < y < x + 0x1_0000_0000
    ensures Wrap32(x) != Wrap32(y)
  {
  }
}

/** The fallback used without native atomics: every operation takes the cell's mutex. */
module AtomicFallback {
  import opened Bits
  import opened Options
  import opened AtomicSpec

  /** Where a thread stands in a fallback function. `HasSum` follows the second read of the cell,
      the one in `i->value += value`. */
  datatype Pc =
    | Idle
    | Called(op: Op)
    | Locked(op: Op)
    | HasPrev(op: Op, prev: u32)
    | HasSum(op: Op, prev: u32, sum: u32)
    | Stored(op: Op, ret: Ret)
    | Unlocked(op: Op, ret: Ret)

  datatype Cell = Cell(value: u32, owner: Option<nat>, pcs: map<nat, Pc>)

  datatype Event = Enter(t: nat, op: Op) | Lock(t: nat) | Read(t: nat) | Write(t: nat) | Unlock(t: nat) | Leave(t: nat)

  function PcOf(c: Cell, t: nat): Pc {
    if t in c.pcs then c.pcs[t] else Idle
  }

  function At(c: Cell, t: nat, pc: Pc): Cell {
    c.(pcs := c.pcs[t := pc])
  }

  /** The write of each function, and what it will return. */
  function DoWrite(c: Cell, t: nat): Cell {
    match PcOf(c, t)
    case Locked(Store(v)) => At(c.(value := v), t, Stored(Store(v), Ret(0, true)))
    case HasPrev(Load, prev) => At(c, t, Stored(Load, Ret(prev, true)))
    case HasPrev(Exchange(v), prev) => At(c.(value := v), t, Stored(Exchange(v), Ret(prev, true)))
    case HasPrev(CompareExchange(expected, desired), prev) =>
      if prev == expected then At(c.(value := desired), t, Stored(CompareExchange(expected, desired), Ret(prev, true)))
      else At(c, t, Stored(CompareExchange(expected, desired), Ret(prev, false)))
    case HasSum(op, prev, sum) => At(c.(value := sum), t, Stored(op, Ret(prev, true)))
    case _ => c
  }

  function DoRead(c: Cell, t: nat): Cell {
    match PcOf(c, t)
    case Locked(op) => if op.Store? then c else At(c, t, HasPrev(op, c.value))
    case HasPrev(FetchAdd(v), prev) => At(c, t, HasSum(FetchAdd(v), prev, Wrap32(c.value + v)))
    case HasPrev(FetchSub(v), prev) => At(c, t, HasSum(FetchSub(v), prev, Wrap32(c.value - v)))
    case _ => c
  }

  /** One step of thread `e.t`; a step its position does not allow changes nothing. Only Lock and
      Unlock look at the mutex: reads and writes of the cell are plain memory accesses. */
  function Step(c: Cell, e: Event): Cell {
    match e
    case Enter(t, op) => if PcOf(c, t).Idle? then At(c, t, Called(op)) else c
    case Lock(t) =>
      if PcOf(c, t).Called? && c.owner == None then At(c.(owner := Some(t)), t, Locked(PcOf(c, t).op)) else c
    case Read(t) => DoRead(c, t)
    case Write(t) => DoWrite(c, t)
    case Unlock(t) =>
      if PcOf(c, t).Stored? then At(c.(owner := None), t, Unlocked(PcOf(c, t).op, PcOf(c, t).ret)) else c
    case Leave(t) => if PcOf(c, t).Unlocked? then At(c, t, Idle) else c
  }

  function Run(c: Cell, es: seq<Event>): Cell {
    if es == [] then c else Step(Run(c, es[..|es| - 1]), es[|es| - 1])
  }

  predicate Holding(pc: Pc) {
    pc.Locked? || pc.HasPrev? || pc.HasSum? || pc.Stored?
  }

  /** Only the owner is between lock and unlock, and what it has read is still there. */
  ghost predicate Inv(c: Cell) {
    && (forall t: nat :: Holding(PcOf(c, t)) <==> c.owner == Some(t))
    && (forall t: nat ::
          match PcOf(c, t)
          case HasPrev(op, prev) => prev == c.value && !op.Store?
          case HasSum(op, prev, sum) => prev == c.value && (op.FetchAdd? || op.FetchSub?) && sum == Effect(op, prev).0
          case _ => true)
  }

  function AbsCall(pc: Pc): Call {
    match pc
    case Idle => Free
    case Called(op) => Pending(op)
    case Locked(op) => Pending(op)
    case HasPrev(op, _) => Pending(op)
    case HasSum(op, _, _) => Pending(op)
    case Stored(op, ret) => Done(op, ret)
    case Unlocked(op, ret) => Done(op, ret)
  }

  /** The operation takes effect at its write; every other step inside the call is invisible. */
  function AbsEvent(c: Cell, e: Event): SpecEvent {
    match e
    case Enter(t, op) => Begin(t, op)
    case Write(t) => if Step(c, e) != c then Atomic(t) else Skip
    case Leave(t) => if PcOf(c, t).Unlocked? then Return(t) else Skip
    case _ => Skip
  }

  function AbsEvents(c: Cell, es: seq<Event>): seq<SpecEvent> {
    if es == [] then [] else AbsEvents(c, es[..|es| - 1]) + [AbsEvent(Run(c, es[..|es| - 1]), es[|es| - 1])]
  }

  /** The cell and the specification agree on the value and on every thread's call. */
  ghost predicate Matches(c: Cell, s: Spec) {
    c.value == s.value && forall t: nat :: AbsCall(PcOf(c, t)) == CallOf(s, t)
  }

  lemma StepKeepsInv(c: Cell, e: Event)
    requires Inv(c)
    ensures Inv(Step(c, e))
  {
    var c' := Step(c, e);
    forall t: nat | t != e.t
      ensures PcOf(c', t) == PcOf(c, t)
    {
    }
  }

  lemma StepMatches(c: Cell, e: Event, s: Spec)
    requires Inv(c) && Matches(c, s)
    ensures Matches(Step(c, e), SpecStep(s, AbsEvent(c, e)))
  {
    var c', s' := Step(c, e), SpecStep(s, AbsEvent(c, e));
    assert AbsCall(PcOf(c, e.t)) == CallOf(s, e.t);
    forall t: nat | t != e.t
      ensures AbsCall(PcOf(c', t)) == CallOf(s', t)
    {
      assert AbsCall(PcOf(c, t)) == CallOf(s, t);
    }
  }

  function Start(v: u32): Cell {
    Cell(v, None, map[])
  }

  function SpecStart(v: u32): Spec {
    Spec(v, map[], [])
  }

  /** For any number of threads, every run of lock, read, write and unlock steps is a run of
      single-step atomic operations. */
  lemma {:induction false} FallbackRefinesAtomics(v: u32, es: seq<Event>)
    ensures Inv(Run(Start(v), es))
    ensures Matches(Run(Start(v), es), SpecRun(SpecStart(v), AbsEvents(Start(v), es)))
  {
    if es != [] {
      var init := es[..|es| - 1];
      FallbackRefinesAtomics(v, init);
      var c, aes := Run(Start(v), init), AbsEvents(Start(v), es);
      assert aes[..|aes| - 1] == AbsEvents(Start(v), init);
      StepKeepsInv(c, es[|es| - 1]);
      StepMatches(c, es[|es| - 1], SpecRun(SpecStart(v), AbsEvents(Start(v), init)));
    }
  }

  /** The operations performed in a run, in the order they took effect. */
  function LogOf(v: u32, es: seq<Event>): seq<Entry> {
    SpecRun(SpecStart(v), AbsEvents(Start(v), es)).log
  }

  // ---- Every call is performed once, in its thread's order

  function OpsBy(log: seq<Entry>, t: nat): seq<Op> {
    if log == [] then []
    else
      var rest := OpsBy(log[..|log| - 1], t);
      if log[|log| - 1].tid == t then rest + [log[|log| - 1].op] else rest
  }

  /** The calls thread `t` has made. */
  function CallsBy(c: Cell, es: seq<Event>, t: nat): seq<Op> {
    if es == [] then []
    else
      var rest, e := CallsBy(c, es[..|es| - 1], t), es[|es| - 1];
      if e.Enter? && e.t == t && PcOf(Run(c, es[..|es| - 1]), t).Idle? then rest + [e.op] else rest
  }

  function Outstanding(pc: Pc): seq<Op> {
    match AbsCall(pc)
    case Pending(op) => [op]
    case _ => []
  }

  /** What event `e` adds to the calls of thread `t`. */
  function NewCall(c: Cell, e: Event, t: nat): seq<Op> {
    if e.Enter? && e.t == t && PcOf(c, t).Idle? then [e.op] else []
  }

  lemma OpsByAppend(log: seq<Entry>, x: Entry, t: nat)
    ensures OpsBy(log + [x], t) == OpsBy(log, t) + (if x.tid == t then [x.op] else [])
  {
    assert (log + [x])[..|log|] == log;
  }

  /** What the step performs for thread `t`. */
  function Performed(c: Cell, e: Event, t: nat): seq<Op> {
    if AbsEvent(c, e).Atomic? && e.t == t then Outstanding(PcOf(c, t)) else []
  }

  lemma StepOutstanding(c: Cell, e: Event, t: nat)
    requires Inv(c)
    ensures Outstanding(PcOf(c, t)) + NewCall(c, e, t) == Performed(c, e, t) + Outstanding(PcOf(Step(c, e), t))
  {
    if e.t != t {
      assert PcOf(Step(c, e), t) == PcOf(c, t);
    }
  }

  lemma StepLogs(c: Cell, s: Spec, e: Event, t: nat)
    requires Inv(c) && Matches(c, s)
    ensures OpsBy(SpecStep(s, AbsEvent(c, e)).log, t) == OpsBy(s.log, t) + Performed(c, e, t)
  {
    var ev, s' := AbsEvent(c, e), SpecStep(s, AbsEvent(c, e));
    assert AbsCall(PcOf(c, e.t)) == CallOf(s, e.t);
    if ev.Atomic? {
      OpsByAppend(s.log, s'.log[|s.log|], t);
    }
  }

  lemma StepKeepsOps(c: Cell, s: Spec, e: Event, t: nat)
    requires Inv(c) && Matches(c, s)
    ensures OpsBy(SpecStep(s, AbsEvent(c, e)).log, t) + Outstanding(PcOf(Step(c, e), t))
            == OpsBy(s.log, t) + Outstanding(PcOf(c, t)) + NewCall(c, e, t)
  {
    StepLogs(c, s, e, t);
    StepOutstanding(c, e, t);
    Regroup(OpsBy(s.log, t), Outstanding(PcOf(c, t)), NewCall(c, e, t), Performed(c, e, t), Outstanding(PcOf(Step(c, e), t)));
  }

  lemma Regroup(a: seq<Op>, b: seq<Op>, c: seq<Op>, d: seq<Op>, f: seq<Op>)
    requires b + c == d + f
    ensures a + d + f == a + b + c
  {
    assert a + d + f == a + (d + f);
    assert a + b + c == a + (b + c);
  }

  lemma UnrollRun(v: u32, es: seq<Event>)
    requires es != []
    ensures var init, e := es[..|es| - 1], es[|es| - 1];
            var c, s := Run(Start(v), init), SpecRun(SpecStart(v), AbsEvents(Start(v), init));
            Inv(c) && Matches(c, s) && SpecRun(SpecStart(v), AbsEvents(Start(v), es)) == SpecStep(s, AbsEvent(c, e))
  {
    var aes := AbsEvents(Start(v), es);
    assert aes[..|aes| - 1] == AbsEvents(Start(v), es[..|es| - 1]);
    FallbackRefinesAtomics(v, es[..|es| - 1]);
  }

  /** The operations performed for a thread are its calls, in order, less the one still pending. */
  lemma {:induction false} CallsPerformedInOrder(v: u32, es: seq<Event>, t: nat)
    ensures CallsBy(Start(v), es, t) == OpsBy(LogOf(v, es), t) + Outstanding(PcOf(Run(Start(v), es), t))
  {
    if es != [] {
      var init, e := es[..|es| - 1], es[|es| - 1];
      var c, s := Run(Start(v), init), SpecRun(SpecStart(v), AbsEvents(Start(v), init));
      CallsPerformedInOrder(v, init, t);
      UnrollRun(v, es);
      StepKeepsOps(c, s, e, t);
      assert CallsBy(Start(v), es, t) == CallsBy(Start(v), init, t) + NewCall(c, e, t);
    }
  }

  /** Only operations some thread called are performed. */
  lemma {:induction false} OnlyCalledOps(v: u32, es: seq<Event>, ok: Op -> bool)
    requires forall e :: e in es && e.Enter? ==> ok(e.op)
    ensures forall x :: x in LogOf(v, es) ==> ok(x.op)
    ensures forall t: nat :: AbsCall(PcOf(Run(Start(v), es), t)).Pending? ==> ok(AbsCall(PcOf(Run(Start(v), es), t)).op)
  {
    if es != [] {
      var init, e := es[..|es| - 1], es[|es| - 1];
      OnlyCalledOps(v, init, ok);
      UnrollRun(v, es);
      var c, s := Run(Start(v), init), SpecRun(SpecStart(v), AbsEvents(Start(v), init));
      assert AbsCall(PcOf(c, e.t)) == CallOf(s, e.t);
      assert e in es;
      FallbackRefinesAtomics(v, es);
    }
  }

  // ---- Shared counters

  /** The operand of a call not yet performed. */
  function Owed(pc: Pc): int {
    match AbsCall(pc)
    case Pending(op) => Operand(op)
    case _ => 0
  }

  /** The operands of all calls made. */
  function SumCalled(c: Cell, es: seq<Event>): int {
    if es == [] then 0
    else
      var d, e := Run(c, es[..|es| - 1]), es[|es| - 1];
      SumCalled(c, es[..|es| - 1]) + NewOperand(d, e)
  }

  function SumOwed(c: Cell, n: nat): int {
    if n == 0 then 0 else SumOwed(c, n - 1) + Owed(PcOf(c, n - 1))
  }

  lemma {:induction false} OneThreadMoves(c: Cell, c': Cell, t: nat, n: nat)
    requires forall u: nat :: u != t ==> PcOf(c', u) == PcOf(c, u)
    ensures SumOwed(c', n) == SumOwed(c, n) + (if t < n then Owed(PcOf(c', t)) - Owed(PcOf(c, t)) else 0)
  {
    if n > 0 {
      OneThreadMoves(c, c', t, n - 1);
    }
  }

  /** What the step adds to the operands called, and what it performs. */
  function NewOperand(c: Cell, e: Event): int {
    if e.Enter? && PcOf(c, e.t).Idle? then Operand(e.op) else 0
  }

  function PerformedOperand(c: Cell, e: Event): int {
    if AbsEvent(c, e).Atomic? then Owed(PcOf(c, e.t)) else 0
  }

  lemma StepOwed(c: Cell, e: Event)
    requires Inv(c)
    ensures Owed(PcOf(Step(c, e), e.t)) == Owed(PcOf(c, e.t)) + NewOperand(c, e) - PerformedOperand(c, e)
  {
  }

  lemma StepSumLogged(c: Cell, s: Spec, e: Event)
    requires Inv(c) && Matches(c, s)
    ensures SumOf(SpecStep(s, AbsEvent(c, e)).log) == SumOf(s.log) + PerformedOperand(c, e)
  {
    assert AbsCall(PcOf(c, e.t)) == CallOf(s, e.t);
    var s' := SpecStep(s, AbsEvent(c, e));
    if AbsEvent(c, e).Atomic? {
      assert s'.log[..|s.log|] == s.log;
    }
  }

  lemma StepKeepsSum(c: Cell, s: Spec, e: Event, n: nat)
    requires Inv(c) && Matches(c, s) && e.t < n
    ensures SumOf(SpecStep(s, AbsEvent(c, e)).log) + SumOwed(Step(c, e), n)
            == SumOf(s.log) + SumOwed(c, n) + NewOperand(c, e)
  {
    OneThreadMoves(c, Step(c, e), e.t, n);
    StepOwed(c, e);
    StepSumLogged(c, s, e);
  }

  lemma {:induction false} NothingOwed(c: Cell, n: nat)
    requires forall t: nat :: PcOf(c, t).Idle?
    ensures SumOwed(c, n) == 0
  {
    if n > 0 {
      NothingOwed(c, n - 1);
    }
  }

  lemma {:induction false} SumConserved(v: u32, es: seq<Event>, n: nat)
    requires forall e :: e in es ==> e.t < n
    ensures SumCalled(Start(v), es) == SumOf(LogOf(v, es)) + SumOwed(Run(Start(v), es), n)
  {
    if es == [] {
      NothingOwed(Start(v), n);
    } else {
      var init, e := es[..|es| - 1], es[|es| - 1];
      SumConserved(v, init, n);
      UnrollRun(v, es);
      StepKeepsSum(Run(Start(v), init), SpecRun(SpecStart(v), AbsEvents(Start(v), init)), e, n);
    }
  }

  /** Only fetch_add, fetch_sub and load are called. */
  ghost predicate ArithmeticCalls(es: seq<Event>) {
    forall e :: e in es && e.Enter? ==> Arithmetic(e.op)
  }

  lemma LogIsArithmetic(v: u32, es: seq<Event>)
    requires ArithmeticCalls(es)
    ensures AllArithmetic(LogOf(v, es))
  {
    OnlyCalledOps(v, es, op => Arithmetic(op));
  }

  /** The cell always holds what the logged operations leave, and each reported what it saw. */
  lemma CellIsReplay(v: u32, es: seq<Event>)
    ensures Run(Start(v), es).value == Replay(v, LogOf(v, es))
    ensures Legal(v, LogOf(v, es))
  {
    FallbackRefinesAtomics(v, es);
    SpecRunIsLegal(v, AbsEvents(Start(v), es));
  }

  /** Every run has a history: values of the cell, from the initial to the present one, between which
      each performed operation does and reports what it should. */
  lemma RunHasHistory(v: u32, es: seq<Event>) returns (vals: seq<u32>)
    ensures History(v, LogOf(v, es), vals) && vals[|LogOf(v, es)|] == Run(Start(v), es).value
  {
    CellIsReplay(v, es);
    vals := LegalHasHistory(v, LogOf(v, es));
  }

  /** While threads only add, subtract and load, the cell holds the initial value plus everything
      performed so far, mod 2^32. */
  lemma CounterTracksLog(v: u32, es: seq<Event>)
    requires ArithmeticCalls(es)
    ensures Run(Start(v), es).value == Wrap32(v + SumOf(LogOf(v, es)))
  {
    LogIsArithmetic(v, es);
    CellAdds(v, es);
  }

  lemma CellAdds(v: u32, es: seq<Event>)
    requires AllArithmetic(LogOf(v, es))
    ensures Run(Start(v), es).value == Wrap32(v + SumOf(LogOf(v, es)))
  {
    ReplayAdds(v, LogOf(v, es));
    CellValue(v, es);
  }

  lemma CellValue(v: u32, es: seq<Event>)
    ensures Run(Start(v), es).value == Replay(v, LogOf(v, es))
  {
    CellIsReplay(v, es);
  }

  /** Once all threads have returned, that is the initial value plus the sum of everything called. */
  lemma CounterIsSum(v: u32, es: seq<Event>, n: nat)
    requires forall e :: e in es ==> e.t < n
    requires ArithmeticCalls(es)
    requires forall t: nat :: PcOf(Run(Start(v), es), t).Idle?
    ensures Run(Start(v), es).value == Wrap32(v + SumCalled(Start(v), es))
  {
    CounterTracksLog(v, es);
    SumConserved(v, es, n);
    NothingOwed(Run(Start(v), es), n);
  }

  /** Up to 2^32 performed calls of fetch_add(1) return pairwise distinct values. */
  lemma ConcurrentTickets(v: u32, es: seq<Event>, i: nat, j: nat)
    requires forall e :: e in es && e.Enter? ==> e.op == FetchAdd(1)
    requires i < j < |LogOf(v, es)| <= 0x1_0000_0000
    ensures LogOf(v, es)[i].ret.value != LogOf(v, es)[j].ret.value
  {
    OnlyCalledOps(v, es, op => op == FetchAdd(1));
    CellIsReplay(v, es);
    TicketsAreDistinct(v, LogOf(v, es), i, j);
  }

  // ---- A call comes to its end

  /** The steps of one undisturbed call, from taking the mutex to giving it back. */
  function CallSteps(t: nat, op: Op): seq<Event> {
    if op.Store? then [Lock(t), Write(t), Unlock(t)]
    else if op.FetchAdd? || op.FetchSub? then [Lock(t), Read(t), Read(t), Write(t), Unlock(t)]
    else [Lock(t), Read(t), Write(t), Unlock(t)]
  }

  function RunFrom(c: Cell, es: seq<Event>): Cell
    decreases |es|
  {
    if es == [] then c else RunFrom(Step(c, es[0]), es[1..])
  }

  /** A call that finds the mutex free and is not disturbed ends with the mutex free again, with the
      effect and the result its operation should have on the value it found. */
  lemma CallCompletes(c: Cell, t: nat, op: Op)
    requires c.owner == None && PcOf(c, t) == Called(op)
    ensures var c' := RunFrom(c, CallSteps(t, op));
            && c'.owner == None
            && PcOf(c', t).Unlocked? && PcOf(c', t).op == op
            && Explains(Entry(t, op, PcOf(c', t).ret), c.value, c'.value)
            && forall u: nat :: u != t ==> PcOf(c', u) == PcOf(c, u)
  {
    var c1 := Step(c, Lock(t));
    if op.Store? {
      var c2 := Step(c1, Write(t));
      RunThree(c, Lock(t), Write(t), Unlock(t));
    } else if op.FetchAdd? || op.FetchSub? {
      var c3 := Step(Step(c1, Read(t)), Read(t));
      assert PcOf(c3, t) == HasSum(op, c.value, Effect(op, c.value).0);
      RunThree(Step(c1, Read(t)), Read(t), Write(t), Unlock(t));
      assert CallSteps(t, op)[1..][1..] == [Read(t), Write(t), Unlock(t)];
    } else {
      RunThree(c1, Read(t), Write(t), Unlock(t));
      assert CallSteps(t, op)[1..] == [Read(t), Write(t), Unlock(t)];
    }
  }

  lemma RunThree(c: Cell, e: Event, e': Event, e'': Event)
    ensures RunFrom(c, [e, e', e'']) == Step(Step(Step(c, e), e'), e'')
  {
    var es := [e, e', e''];
    assert es[1..] == [e', e''] && es[1..][1..] == [e''] && es[1..][1..][1..] == [];
    assert RunFrom(c, es) == RunFrom(Step(c, e), es[1..]);
    assert RunFrom(Step(c, e), es[1..]) == RunFrom(Step(Step(c, e), e'), es[1..][1..]);
    assert RunFrom(Step(Step(c, e), e'), [e'']) == RunFrom(Step(Step(Step(c, e), e'), e''), []);
  }
}
