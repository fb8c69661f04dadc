/** Threads writing through one logger to several sinks, under the logger's mutex (src/log.c). */
module LogFanout {
  import opened Options
  import opened LogFiles

  /** CPR_LOG_OFF */
  const LOG_OFF: int := 6

  datatype Record = Record(level: int, body: Text)

  type Format = Record -> Text

  datatype SinkConfig = SinkConfig(minLevel: int, format: Option<Format>)

  /** A logger created with `thread_safe`, with its levels and sinks fixed. `sinks` is its array of
      pointers, in which a sink may stand more than once; `config` is what they point to. */
  datatype Logger = Logger(minLevel: int, defaultFormat: Format, sinks: seq<nat>, config: nat -> SinkConfig)

  datatype Entry = Entry(tid: nat, rec: Record)

  /** Where a thread stands in `cpr_log_writev`: before the mutex, at position `k` of the loop, or
      inside the write of the sink there with `rest` still to go. */
  datatype Pc = Idle | Waiting(rec: Record) | Visiting(rec: Record, k: nat) | Emitting(rec: Record, k: nat, rest: Text)

  /** `outs` is what each sink has received, byte by byte. `order` lists the records by acquisition of
      the mutex, `accepted` by the call that passed the logger's level. */
  datatype State = State(owner: Option<nat>, pcs: map<nat, Pc>, outs: map<nat, Text>, order: seq<Entry>, accepted: seq<Entry>)

  datatype Event = Call(t: nat, rec: Record) | Lock(t: nat) | Visit(t: nat) | Emit(t: nat) | Unlock(t: nat)

  function PcOf(s: State, t: nat): Pc {
    if t in s.pcs then s.pcs[t] else Idle
  }

  function OutOf(s: State, d: nat): Text {
    if d in s.outs then s.outs[d] else []
  }

  function At(s: State, t: nat, pc: Pc): State {
    s.(pcs := s.pcs[t := pc])
  }

  predicate LoggerTakes(lg: Logger, r: Record) {
    lg.minLevel <= r.level < LOG_OFF
  }

  predicate SinkTakes(lg: Logger, d: nat, r: Record) {
    lg.config(d).minLevel <= r.level
  }

  /** What the sink's formatter, or else the logger's, makes of the record. */
  function Formatted(lg: Logger, d: nat, r: Record): Text {
    match lg.config(d).format
    case None => lg.defaultFormat(r)
    case Some(format) => format(r)
  }

  /** The loop body up to the call of the sink's write, which is skipped for an empty text. */
  function Visited(lg: Logger, r: Record, k: nat): Pc
    requires k < |lg.sinks|
  {
    var d := lg.sinks[k];
    if !SinkTakes(lg, d, r) || Formatted(lg, d, r) == [] then Visiting(r, k + 1)
    else Emitting(r, k, Formatted(lg, d, r))
  }

  function Emitted(r: Record, k: nat, rest: Text): Pc {
    if rest == [] then Visiting(r, k + 1) else Emitting(r, k, rest)
  }

  /** One step of thread `e.t`; a step its position does not allow changes nothing. Only Lock and
      Unlock look at the mutex. */
  function Step(lg: Logger, s: State, e: Event): State {
    match (e, PcOf(s, e.t))
    case (Call(t, r), Idle) =>
      if LoggerTakes(lg, r) then At(s.(accepted := s.accepted + [Entry(t, r)]), t, Waiting(r)) else s
    case (Lock(t), Waiting(r)) =>
      if s.owner == None then At(s.(owner := Some(t), order := s.order + [Entry(t, r)]), t, Visiting(r, 0)) else s
    case (Visit(t), Visiting(r, k)) =>
      if k < |lg.sinks| then At(s, t, Visited(lg, r, k)) else s
    case (Emit(t), Emitting(r, k, rest)) =>
      if k < |lg.sinks| && rest != [] then
        At(s.(outs := s.outs[lg.sinks[k] := OutOf(s, lg.sinks[k]) + [rest[0]]]), t, Emitted(r, k, rest[1..]))
      else s
    case (Unlock(t), Visiting(r, k)) =>
      if k >= |lg.sinks| then At(s.(owner := None), t, Idle) else s
    case _ => s
  }

  const START := State(None, map[], map[], [], [])

  function Run(lg: Logger, es: seq<Event>): State {
    if es == [] then START else Step(lg, Run(lg, es[..|es| - 1]), es[|es| - 1])
  }

  // ---- What a sink should receive

  /** What one record gives sink `d` in the loop from position `i` on. */
  function Share(lg: Logger, d: nat, r: Record, i: nat): Text
    decreases |lg.sinks| - i
  {
    if i >= |lg.sinks| then []
    else (if lg.sinks[i] == d && SinkTakes(lg, d, r) then Formatted(lg, d, r) else []) + Share(lg, d, r, i + 1)
  }

  function Expected(lg: Logger, d: nat, order: seq<Entry>): Text {
    if order == [] then [] else Expected(lg, d, order[..|order| - 1]) + Share(lg, d, order[|order| - 1].rec, 0)
  }

  lemma ExpectedSnoc(lg: Logger, d: nat, order: seq<Entry>, e: Entry)
    ensures Expected(lg, d, order + [e]) == Expected(lg, d, order) + Share(lg, d, e.rec, 0)
  {
    assert (order + [e])[..|order|] == order;
  }

  /** The text of one record for a sink: nothing below the sink's level, else what its own formatter
      makes of the record, or the logger's if it has none. */
  function RecordText(lg: Logger, d: nat, r: Record): Text {
    if r.level < lg.config(d).minLevel then []
    else match lg.config(d).format
         case Some(format) => format(r)
         case None => lg.defaultFormat(r)
  }

  function Copies(text: Text, n: nat): Text {
    if n == 0 then [] else text + Copies(text, n - 1)
  }

  /** The texts of the records of `order`, each as often as the sink stands in the array. */
  function Wanted(lg: Logger, d: nat, order: seq<Entry>): Text {
    if order == [] then []
    else Wanted(lg, d, order[..|order| - 1]) + Copies(RecordText(lg, d, order[|order| - 1].rec), multiset(lg.sinks)[d])
  }

  lemma CopiesOfNothing(n: nat)
    ensures Copies([], n) == []
  {
  }

  lemma CountFrom(sinks: seq<nat>, d: nat, i: nat)
    requires i < |sinks|
    ensures multiset(sinks[i..])[d] == multiset(sinks[i + 1..])[d] + if sinks[i] == d then 1 else 0
  {
    assert sinks[i..] == [sinks[i]] + sinks[i + 1..];
  }

  lemma {:induction false} ShareIs(lg: Logger, d: nat, r: Record, i: nat)
    requires i <= |lg.sinks|
    ensures Share(lg, d, r, i) == Copies(RecordText(lg, d, r), multiset(lg.sinks[i..])[d])
    decreases |lg.sinks| - i
  {
    if i < |lg.sinks| {
      ShareIs(lg, d, r, i + 1);
      CountFrom(lg.sinks, d, i);
      CopiesOfNothing(multiset(lg.sinks[i..])[d]);
      CopiesOfNothing(multiset(lg.sinks[i + 1..])[d]);
      assert [] + Share(lg, d, r, i + 1) == Share(lg, d, r, i + 1);
    }
  }

  lemma {:induction false} ExpectedIsWanted(lg: Logger, d: nat, order: seq<Entry>)
    ensures Expected(lg, d, order) == Wanted(lg, d, order)
  {
    if order != [] {
      ExpectedIsWanted(lg, d, order[..|order| - 1]);
      ShareIs(lg, d, order[|order| - 1].rec, 0);
      assert lg.sinks[0..] == lg.sinks;
    }
  }

  // ---- The invariant

  predicate Inside(pc: Pc) {
    pc.Visiting? || pc.Emitting?
  }

  /** What a thread still has to give sink `d` of the record it is delivering. */
  function Owed(lg: Logger, pc: Pc, d: nat): Text {
    match pc
    case Visiting(r, i) => Share(lg, d, r, i)
    case Emitting(r, i, rest) => (if i < |lg.sinks| && lg.sinks[i] == d then rest else []) + Share(lg, d, r, i + 1)
    case _ => []
  }

  function OwedByOwner(lg: Logger, s: State, d: nat): Text {
    match s.owner
    case None => []
    case Some(t) => Owed(lg, PcOf(s, t), d)
  }

  ghost predicate OnlyOwnerInside(s: State) {
    forall t: nat :: Inside(PcOf(s, t)) <==> s.owner == Some(t)
  }

  /** What sink `d` has received and what the owner still owes it is what it should receive. */
  ghost predicate Accounted(lg: Logger, s: State, d: nat) {
    OutOf(s, d) + OwedByOwner(lg, s, d) == Expected(lg, d, s.order)
  }

  ghost predicate Inv(lg: Logger, s: State) {
    && OnlyOwnerInside(s)
    && (forall t: nat :: PcOf(s, t).Emitting? ==> PcOf(s, t).rest != [] && PcOf(s, t).k < |lg.sinks|)
    && (forall d: nat :: Accounted(lg, s, d))
  }

  lemma StepOwner(lg: Logger, s: State, e: Event)
    requires Inv(lg, s)
    ensures OnlyOwnerInside(Step(lg, s, e))
    ensures forall t: nat :: PcOf(Step(lg, s, e), t).Emitting? ==>
              PcOf(Step(lg, s, e), t).rest != [] && PcOf(Step(lg, s, e), t).k < |lg.sinks|
  {
    var s' := Step(lg, s, e);
    assert forall t: nat :: t != e.t ==> PcOf(s', t) == PcOf(s, t);
    assert Inside(PcOf(s, e.t)) <==> s.owner == Some(e.t);
  }

  /** Visiting a position and emitting a byte only move bytes from owed to received. */
  lemma VisitKeepsOwed(lg: Logger, r: Record, k: nat, d: nat)
    requires k < |lg.sinks|
    ensures Owed(lg, Visited(lg, r, k), d) == Share(lg, d, r, k)
  {
    assert [] + Share(lg, d, r, k + 1) == Share(lg, d, r, k + 1);
  }

  lemma EmitMovesByte(lg: Logger, r: Record, k: nat, rest: Text, d: nat, out: Text)
    requires k < |lg.sinks| && rest != []
    ensures (if lg.sinks[k] == d then out + [rest[0]] else out) + Owed(lg, Emitted(r, k, rest[1..]), d)
            == out + Owed(lg, Emitting(r, k, rest), d)
  {
    var more := Share(lg, d, r, k + 1);
    if lg.sinks[k] == d {
      assert rest == [rest[0]] + rest[1..];
      assert out + (rest + more) == out + [rest[0]] + (rest[1..] + more);
    }
    assert [] + more == more;
  }

  lemma LockOwes(lg: Logger, s: State, t: nat, d: nat)
    requires s.owner == None && PcOf(s, t).Waiting?
    ensures var s', r := Step(lg, s, Lock(t)), PcOf(s, t).rec;
            && OutOf(s', d) == OutOf(s, d)
            && OwedByOwner(lg, s', d) == Share(lg, d, r, 0)
            && s'.order == s.order + [Entry(t, r)]
  {
  }

  lemma LockSink(lg: Logger, s: State, t: nat, d: nat)
    requires Accounted(lg, s, d) && s.owner == None && PcOf(s, t).Waiting?
    ensures Accounted(lg, Step(lg, s, Lock(t)), d)
  {
    var out := OutOf(s, d);
    assert out == Expected(lg, d, s.order) by { assert out + [] == out; }
    LockOwes(lg, s, t, d);
    ExpectedSnoc(lg, d, s.order, Entry(t, PcOf(s, t).rec));
  }

  lemma VisitSink(lg: Logger, s: State, t: nat, d: nat)
    requires Accounted(lg, s, d) && s.owner == Some(t)
    ensures Accounted(lg, Step(lg, s, Visit(t)), d)
  {
    var pc := PcOf(s, t);
    if pc.Visiting? && pc.k < |lg.sinks| {
      VisitKeepsOwed(lg, pc.rec, pc.k, d);
    }
  }

  lemma EmitSink(lg: Logger, s: State, t: nat, d: nat)
    requires Accounted(lg, s, d) && s.owner == Some(t)
    ensures Accounted(lg, Step(lg, s, Emit(t)), d)
  {
    var pc := PcOf(s, t);
    if pc.Emitting? && pc.k < |lg.sinks| && pc.rest != [] {
      EmitMovesByte(lg, pc.rec, pc.k, pc.rest, d, OutOf(s, d));
    }
  }

  lemma UnlockSink(lg: Logger, s: State, t: nat, d: nat)
    requires Accounted(lg, s, d) && s.owner == Some(t)
    ensures Accounted(lg, Step(lg, s, Unlock(t)), d)
  {
  }

  lemma StepSink(lg: Logger, s: State, e: Event, d: nat)
    requires OnlyOwnerInside(s) && Accounted(lg, s, d)
    ensures Accounted(lg, Step(lg, s, e), d)
  {
    assert Inside(PcOf(s, e.t)) <==> s.owner == Some(e.t);
    match e
    case Call(t, r) =>
    case Lock(t) =>
      if s.owner == None && PcOf(s, t).Waiting? {
        LockSink(lg, s, t, d);
      }
    case Visit(t) =>
      if s.owner == Some(t) {
        VisitSink(lg, s, t, d);
      }
    case Emit(t) =>
      if s.owner == Some(t) {
        EmitSink(lg, s, t, d);
      }
    case Unlock(t) =>
      if s.owner == Some(t) {
        UnlockSink(lg, s, t, d);
      }
  }

  lemma StepKeepsInv(lg: Logger, s: State, e: Event)
    requires Inv(lg, s)
    ensures Inv(lg, Step(lg, s, e))
  {
    var s' := Step(lg, s, e);
    StepOwner(lg, s, e);
    forall d: nat
      ensures Accounted(lg, s', d)
    {
      StepSink(lg, s, e, d);
    }
  }

  lemma {:induction false} RunKeepsInv(lg: Logger, es: seq<Event>)
    ensures Inv(lg, Run(lg, es))
  {
    if es != [] {
      RunKeepsInv(lg, es[..|es| - 1]);
      StepKeepsInv(lg, Run(lg, es[..|es| - 1]), es[|es| - 1]);
    }
  }

  // ---- What every run guarantees

  /** At every moment of every interleaving there is one order of the records such that each sink has
      received a prefix of the texts it should have of them, never mixing two records; and all of it
      whenever no thread holds the mutex. */
  lemma EachSinkReceives(lg: Logger, es: seq<Event>, d: nat)
    ensures var s := Run(lg, es);
            && OutOf(s, d) <= Wanted(lg, d, s.order)
            && (s.owner == None ==> OutOf(s, d) == Wanted(lg, d, s.order))
  {
    var s := Run(lg, es);
    RunKeepsInv(lg, es);
    ExpectedIsWanted(lg, d, s.order);
    assert Accounted(lg, s, d);
    assert s.owner == None ==> OutOf(s, d) + [] == OutOf(s, d);
  }

  /** The records submitted, told from the calls: those made while the thread is in no other call,
      at the logger's level or above and below CPR_LOG_OFF. */
  function Submitted(lg: Logger, es: seq<Event>): seq<Entry> {
    if es == [] then []
    else
      var before := Submitted(lg, es[..|es| - 1]);
      match es[|es| - 1]
      case Call(t, r) =>
        if PcOf(Run(lg, es[..|es| - 1]), t).Idle? && lg.minLevel <= r.level && r.level < 6 then before + [Entry(t, r)]
        else before
      case _ => before
  }

  lemma {:induction false} AcceptedIsSubmitted(lg: Logger, es: seq<Event>)
    ensures Run(lg, es).accepted == Submitted(lg, es)
  {
    if es != [] {
      AcceptedIsSubmitted(lg, es[..|es| - 1]);
    }
  }

  /** The records of one thread. */
  function By(t: nat, es: seq<Entry>): seq<Record> {
    if es == [] then []
    else
      var e := es[|es| - 1];
      if e.tid == t then By(t, es[..|es| - 1]) + [e.rec] else By(t, es[..|es| - 1])
  }

  lemma BySnoc(t: nat, es: seq<Entry>, e: Entry)
    ensures By(t, es + [e]) == if e.tid == t then By(t, es) + [e.rec] else By(t, es)
  {
    assert (es + [e])[..|es|] == es;
  }

  /** The thread's ordered records and, while it waits for the mutex, the one it waits with. */
  function WithWaiting(ordered: seq<Record>, pc: Pc): seq<Record> {
    if pc.Waiting? then ordered + [pc.rec] else ordered
  }

  /** The order keeps each thread's own records in the order it submitted them, all of them except
      the one it may be waiting with. */
  lemma {:induction false} ThreadOrderKept(lg: Logger, es: seq<Event>, t: nat)
    ensures var s := Run(lg, es);
            By(t, s.accepted) == WithWaiting(By(t, s.order), PcOf(s, t))
  {
    if es != [] {
      ThreadOrderKept(lg, es[..|es| - 1], t);
      StepThreadOrder(lg, Run(lg, es[..|es| - 1]), es[|es| - 1], t);
    }
  }

  lemma StepThreadOrder(lg: Logger, s: State, e: Event, t: nat)
    requires By(t, s.accepted) == WithWaiting(By(t, s.order), PcOf(s, t))
    ensures var s' := Step(lg, s, e);
            By(t, s'.accepted) == WithWaiting(By(t, s'.order), PcOf(s', t))
  {
    var s' := Step(lg, s, e);
    StepLogs(lg, s, e, t);
    if s'.accepted != s.accepted {
      BySnoc(t, s.accepted, Entry(e.t, e.rec));
    } else if s'.order != s.order {
      BySnoc(t, s.order, Entry(e.t, PcOf(s, e.t).rec));
    }
  }

  /** A step appends to at most one of the two lists, and only for its own thread. */
  lemma StepLogs(lg: Logger, s: State, e: Event, t: nat)
    ensures var s', pc, pc' := Step(lg, s, e), PcOf(s, t), PcOf(Step(lg, s, e), t);
            && (s'.accepted != s.accepted ==>
                  && e.Call? && s'.accepted == s.accepted + [Entry(e.t, e.rec)] && s'.order == s.order
                  && (if t == e.t then pc.Idle? && pc' == Waiting(e.rec) else pc' == pc))
            && (s'.order != s.order ==>
                  && PcOf(s, e.t).Waiting? && s'.order == s.order + [Entry(e.t, PcOf(s, e.t).rec)]
                  && s'.accepted == s.accepted
                  && (if t == e.t then !pc'.Waiting? else pc' == pc))
            && (s'.accepted == s.accepted && s'.order == s.order ==> pc' == pc || (!pc.Waiting? && !pc'.Waiting?))
  {
  }

  /** Only records at the logger's level or above and below CPR_LOG_OFF are ever ordered. */
  lemma {:induction false} OrderedPassLogger(lg: Logger, es: seq<Event>)
    ensures forall e :: e in Run(lg, es).order ==> lg.minLevel <= e.rec.level < 6
    ensures forall t: nat :: PcOf(Run(lg, es), t).Waiting? ==> LoggerTakes(lg, PcOf(Run(lg, es), t).rec)
  {
    if es != [] {
      var e := es[|es| - 1];
      OrderedPassLogger(lg, es[..|es| - 1]);
      var s := Run(lg, es[..|es| - 1]);
      var s' := Step(lg, s, e);
      forall t: nat
        ensures PcOf(s', t).Waiting? ==> LoggerTakes(lg, PcOf(s', t).rec)
      {
        assert PcOf(s, t).Waiting? ==> LoggerTakes(lg, PcOf(s, t).rec);
      }
    }
  }

  // ---- A call comes to its end

  function RunFrom(lg: Logger, s: State, es: seq<Event>): State
    decreases |es|
  {
    if es == [] then s else RunFrom(lg, Step(lg, s, es[0]), es[1..])
  }

  /** The thread waits for a free mutex, or holds it. */
  ghost predicate Ready(lg: Logger, s: State, t: nat) {
    match PcOf(s, t)
    case Idle => false
    case Waiting(_) => s.owner == None
    case Visiting(_, _) => s.owner == Some(t)
    case Emitting(_, k, rest) => s.owner == Some(t) && k < |lg.sinks| && rest != []
  }

  /** What sink `d` is still to receive from the call. */
  function Due(lg: Logger, pc: Pc, d: nat): Text {
    if pc.Waiting? then Share(lg, d, pc.rec, 0) else Owed(lg, pc, d)
  }

  function NextOf(lg: Logger, t: nat, pc: Pc): Event {
    match pc
    case Visiting(_, k) => if k < |lg.sinks| then Visit(t) else Unlock(t)
    case Emitting(_, _, _) => Emit(t)
    case _ => Lock(t)
  }

  lemma NextStepGives(lg: Logger, s: State, t: nat)
    requires Ready(lg, s, t)
    ensures var pc, s' := PcOf(s, t), Step(lg, s, NextOf(lg, t, PcOf(s, t)));
            && (Ready(lg, s', t) || (PcOf(s', t) == Idle && s'.owner == None))
            && (PcOf(s', t) == Idle <==> pc.Visiting? && pc.k >= |lg.sinks|)
            && (forall u: nat :: u != t ==> PcOf(s', u) == PcOf(s, u))
  {
  }

  lemma NextStepDue(lg: Logger, s: State, t: nat, d: nat)
    requires Ready(lg, s, t)
    ensures var s' := Step(lg, s, NextOf(lg, t, PcOf(s, t)));
            OutOf(s', d) + Due(lg, PcOf(s', t), d) == OutOf(s, d) + Due(lg, PcOf(s, t), d)
  {
    var pc := PcOf(s, t);
    if pc.Visiting? && pc.k < |lg.sinks| {
      VisitKeepsOwed(lg, pc.rec, pc.k, d);
    } else if pc.Emitting? {
      EmitMovesByte(lg, pc.rec, pc.k, pc.rest, d, OutOf(s, d));
    }
  }

  lemma RunFromStep(lg: Logger, s: State, e: Event, es: seq<Event>)
    ensures RunFrom(lg, s, [e] + es) == RunFrom(lg, Step(lg, s, e), es)
  {
    assert ([e] + es)[1..] == es;
  }

  /** A thread that waits for a free mutex, or holds it, comes to the end of its call by its own steps
      alone; then the mutex is free and each sink has received all that was due to it. */
  lemma {:induction false} CallCompletes(lg: Logger, s: State, t: nat) returns (es: seq<Event>)
    requires Ready(lg, s, t)
    ensures forall e :: e in es ==> e.t == t && !e.Call?
    ensures var s' := RunFrom(lg, s, es);
            && s'.owner == None && PcOf(s', t) == Idle
            && (forall u: nat :: u != t ==> PcOf(s', u) == PcOf(s, u))
            && (forall d: nat :: OutOf(s', d) == OutOf(s, d) + Due(lg, PcOf(s, t), d))
    decreases if PcOf(s, t).Waiting? then 1 else 0,
              if PcOf(s, t).Waiting? then 0 else |lg.sinks| - PcOf(s, t).k,
              if PcOf(s, t).Emitting? then 0 else 1,
              if PcOf(s, t).Emitting? then |PcOf(s, t).rest| else 0
  {
    var e := NextOf(lg, t, PcOf(s, t));
    var s1 := Step(lg, s, e);
    NextStepGives(lg, s, t);
    if PcOf(s1, t) == Idle {
      es := [e];
      RunFromStep(lg, s, e, []);
      assert [e] + [] == [e];
    } else {
      var rest := CallCompletes(lg, s1, t);
      es := [e] + rest;
      RunFromStep(lg, s, e, rest);
    }
    forall d: nat
      ensures OutOf(RunFrom(lg, s, es), d) == OutOf(s, d) + Due(lg, PcOf(s, t), d)
    {
      NextStepDue(lg, s, t, d);
      assert OutOf(s1, d) + [] == OutOf(s1, d);
    }
  }

  /** So in every run the thread that holds the mutex can always finish. */
  lemma OwnerIsReady(lg: Logger, es: seq<Event>, t: nat)
    requires Run(lg, es).owner == Some(t)
    ensures Ready(lg, Run(lg, es), t)
  {
    RunKeepsInv(lg, es);
    assert Inside(PcOf(Run(lg, es), t));
  }
}

/** The logger's list of sinks, an array shifted in place. */
module LogSinkList {
  import opened Options

  const LOG_MAX_SINKS: nat := 8

  /** `xs` without the first `x`. */
  function Without(xs: seq<nat>, x: nat): seq<nat> {
    if xs == [] then []
    else if xs[0] == x then xs[1..]
    else [xs[0]] + Without(xs[1..], x)
  }

  lemma {:induction false} WithoutAt(xs: seq<nat>, x: nat, i: nat)
    requires i <= |xs| && (i < |xs| ==> xs[i] == x)
    requires forall j :: 0 <= j < i ==> xs[j] != x
    ensures Without(xs, x) == if i < |xs| then xs[..i] + xs[i + 1..] else xs
  {
    if i > 0 {
      var rest := xs[1..];
      WithoutAt(rest, x, i - 1);
      assert xs == [xs[0]] + rest;
      assert i < |xs| ==> xs[..i] == [xs[0]] + rest[..i - 1] && xs[i + 1..] == rest[i..];
    }
  }

  lemma Removed(xs: seq<nat>, ys: seq<nat>, i: nat)
    requires i < |xs| == |ys| + 1
    requires forall j :: 0 <= j < i ==> ys[j] == xs[j]
    requires forall j :: i <= j < |ys| ==> ys[j] == xs[j + 1]
    ensures ys == xs[..i] + xs[i + 1..]
  {
  }

  /** Removing a sink just added restores the list, when it was not there before. */
  lemma RemoveUndoesAdd(xs: seq<nat>, x: nat)
    requires x !in xs
    ensures Without(xs + [x], x) == xs
  {
    WithoutAt(xs + [x], x, |xs|);
  }

  /** Sinks are named by number; None is the null pointer. */
  class CprLogger {
    const sinks: array<Option<nat>>
    var sinkCount: nat

    ghost predicate Valid()
      reads this, sinks
    {
      && sinks.Length == LOG_MAX_SINKS && sinkCount <= LOG_MAX_SINKS
      && (forall i :: 0 <= i < sinkCount ==> sinks[i].Some?)
      && (forall i :: sinkCount <= i < LOG_MAX_SINKS ==> sinks[i].None?)
    }

    ghost function Contents(): (xs: seq<nat>)
      reads this, sinks
      requires Valid()
      ensures |xs| == sinkCount && forall i :: 0 <= i < sinkCount ==> sinks[i] == Some(xs[i])
    {
      seq(sinkCount, i requires 0 <= i < sinkCount reads this, sinks requires Valid() => sinks[i].value)
    }

    constructor ()
      ensures Valid() && fresh(sinks) && Contents() == []
    {
      sinks := new Option<nat>[LOG_MAX_SINKS](_ => None);
      sinkCount := 0;
    }

    method AddSink(sink: nat) returns (ok: bool)
      requires Valid()
      modifies this, sinks
      ensures Valid()
      ensures ok <==> |old(Contents())| < 8
      ensures Contents() == if ok then old(Contents()) + [sink] else old(Contents())
    {
      if sinkCount >= LOG_MAX_SINKS {
        return false;
      }
      sinks[sinkCount] := Some(sink);
      sinkCount := sinkCount + 1;
      return true;
    }

    /** memmove of everything above slot `at` one slot down. */
    method ShiftDown(at: nat)
      requires Valid() && at < sinkCount
      modifies sinks
      ensures forall j :: 0 <= j < at ==> sinks[j] == old(sinks[j])
      ensures forall j :: sinkCount - 1 <= j < LOG_MAX_SINKS ==> sinks[j] == old(sinks[j])
      ensures forall j :: at <= j < sinkCount - 1 ==> sinks[j] == old(sinks[j + 1])
    {
      var i := at;
      while i < sinkCount - 1
        invariant at <= i <= sinkCount - 1
        invariant forall j :: 0 <= j < at ==> sinks[j] == old(sinks[j])
        invariant forall j :: i <= j < LOG_MAX_SINKS ==> sinks[j] == old(sinks[j])
        invariant forall j :: at <= j < i ==> sinks[j] == old(sinks[j + 1])
      {
        sinks[i] := sinks[i + 1];
        i := i + 1;
      }
    }

    /** The rest of the removal, for the sink found at `at`. */
    method DeleteAt(at: nat)
      requires Valid() && at < sinkCount
      modifies this, sinks
      ensures Valid()
      ensures Contents() == old(Contents())[..at] + old(Contents())[at + 1..]
    {
      ghost var xs := Contents();
      assert forall j :: 0 <= j < sinkCount ==> sinks[j] == Some(xs[j]);
      ShiftDown(at);
      assert forall j :: 0 <= j < at ==> sinks[j] == Some(xs[j]);
      assert forall j :: at <= j < sinkCount - 1 ==> sinks[j] == Some(xs[j + 1]);
      sinkCount := sinkCount - 1;
      sinks[sinkCount] := None;
      Removed(xs, Contents(), at);
    }

    method RemoveSink(sink: nat)
      requires Valid()
      modifies this, sinks
      ensures Valid()
      ensures Contents() == Without(old(Contents()), sink)
    {
      ghost var xs := Contents();
      var i := 0;
      while i < sinkCount && sinks[i] != Some(sink)
        invariant i <= sinkCount
        invariant forall j :: 0 <= j < i ==> xs[j] != sink
      {
        i := i + 1;
      }
      WithoutAt(xs, sink, i);
      if i < sinkCount {
        DeleteAt(i);
      }
    }
  }
}
