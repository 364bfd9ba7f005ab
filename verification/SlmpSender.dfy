/** The SLMP sender: several threads share one socket, each with its own share of the window, and any
    thread may receive the acknowledgement of any other thread's packet.  The labels below are the
    points at which threads interleave: taking an iteration, one receive, one send, one write of
    the shared exit flag.  A receive that finds nothing and a send that must be retried change nothing
    and are not labels; a deadline may pass at any moment. */
module SlmpSender {
  import opened Sums

  /** `n` packets: packet 0 first, packets 1 to n-2 in the parallel loop, packet n-1 last. */
  datatype Config = Config(wnd: nat, threads: nat, n: nat) {
    predicate Valid() { threads >= 1 && n >= 1 }
    predicate AckAll() { wnd > 0 }
    function Limit(): nat
      requires threads >= 1
    {
      (wnd + threads - 1) / threads
    }
    function Total(): nat
      requires threads >= 1
    {
      Limit() * threads
    }
  }

  datatype Pc =
    | Idle
    | Entered(k: nat)
    | Draining(k: nat, acked: nat)
    | Ready(k: nat)
    | Failing

  /** `w` is window_thread[t]; `ret` is the thread's private copy of the reduction variable. */
  datatype Thread = Thread(w: int, pc: Pc, ret: int)

  datatype Status = Todo | Held(t: nat) | Sent | Skipped

  datatype Phase =
    | Start
    | SynWait
    | Parallel
    | LastCheck(left: int)
    | LastDrain(left: int, got: nat)
    | LastReady(left: int)
    | FinalDrain(left: int, got: nat, ret: int)
    | Returned(ret: int)

  /** `log` is the packets sent, in order; `inflight` the SYN packets sent whose ACK has not been
      received; `acks` the ACKs received.  `burnt` counts the credit destroyed because drain_ack returned -1,
      `silent` the packets sent without SYN, and `synOwed` is 1 if the SYN's own ACK was not reclaimed. */
  datatype State = State(phase: Phase, threads: seq<Thread>, status: seq<Status>, exit: bool,
                         log: seq<nat>, inflight: nat, acks: nat, burnt: nat, silent: nat, synOwed: nat)

  /** A drain that ends in an error carries the credit it costs: the ACKs it had received, and the error value
      itself. */
  datatype SynAct = SynSend | SynSendFails | SynAck | SynTimeout | SynError
  datatype ThreadAct = CheckWindow | RecvAck | DrainEnd | DrainError(lost: nat) | Send | SendFails | SetExit
  datatype LastAct = LastWindow | LastAck | LastDrainEnd | LastDrainError(lost: nat) | LastSend | LastSendFails
  datatype FinalAct = FinalAck | FinalEnd | FinalError

  datatype Label =
    | Syn(y: SynAct)
    | Take(t: nat, k: nat)
    | Work(t: nat, a: ThreadAct)
    | Join
    | Last(z: LastAct)
    | Final(f: FinalAct)

  function Init(c: Config): State
    requires c.Valid()
  {
    State(Start, seq(c.threads, _ => Thread(c.Limit(), Idle, 0)), seq(c.n, _ => Todo), false, [], 0, 0, 0, 0, 0)
  }

  // ---------------------------------------------------------------- steps

  predicate SynEnabled(s: State, y: SynAct) {
    match y
    case SynSend => s.phase == Start
    case SynSendFails => s.phase == Start
    case SynAck => s.phase == SynWait && s.inflight > 0
    case SynTimeout => s.phase == SynWait
    case SynError => s.phase == SynWait
  }

  predicate TakeEnabled(s: State, t: nat, k: nat) {
    && s.phase == Parallel && t < |s.threads| && s.threads[t].pc == Idle
    && 0 < k < |s.status| - 1 && s.status[k] == Todo
  }

  predicate WorkEnabled(c: Config, s: State, t: nat, a: ThreadAct)
    requires c.Valid()
  {
    && s.phase == Parallel && t < |s.threads|
    && var pc := s.threads[t].pc;
       match a
       case CheckWindow => pc.Entered?
       case RecvAck => pc.Draining? && pc.acked < c.Limit() && s.inflight > 0
       case DrainEnd => pc.Draining?
       case DrainError(lost) => pc.Draining? && pc.acked < c.Limit() && lost == pc.acked + 1
       case Send => pc.Ready?
       case SendFails => pc.Ready?
       case SetExit => pc == Failing
  }

  predicate JoinEnabled(s: State) {
    && s.phase == Parallel
    && (forall t | 0 <= t < |s.threads| :: s.threads[t].pc == Idle)
    && (forall k | 0 < k < |s.status| - 1 :: s.status[k] != Todo)
  }

  predicate LastEnabled(c: Config, s: State, z: LastAct)
    requires c.Valid()
  {
    match z
    case LastWindow => s.phase.LastCheck?
    case LastAck => s.phase.LastDrain? && s.phase.got < c.Total() && s.inflight > 0
    case LastDrainEnd => s.phase.LastDrain?
    case LastDrainError(lost) => s.phase.LastDrain? && s.phase.got < c.Total() && lost == s.phase.got + 1
    case LastSend => s.phase.LastReady?
    case LastSendFails => s.phase.LastReady?
  }

  predicate FinalEnabled(c: Config, s: State, f: FinalAct)
    requires c.Valid()
  {
    && s.phase.FinalDrain?
    && match f
       case FinalAck => s.phase.got < c.Total() - s.phase.left && s.inflight > 0
       case FinalEnd => true
       case FinalError => s.phase.got < c.Total() - s.phase.left
  }

  predicate Enabled(c: Config, s: State, l: Label)
    requires c.Valid()
  {
    match l
    case Syn(y) => SynEnabled(s, y)
    case Take(t, k) => TakeEnabled(s, t, k)
    case Work(t, a) => WorkEnabled(c, s, t, a)
    case Join => JoinEnabled(s)
    case Last(z) => LastEnabled(c, s, z)
    case Final(f) => FinalEnabled(c, s, f)
  }

  function PutThread(s: State, t: nat, th: Thread): State
    requires t < |s.threads|
  {
    s.(threads := s.threads[t := th])
  }

  function Mark(s: State, k: nat, st: Status): State {
    if k < |s.status| then s.(status := s.status[k := st]) else s
  }

  /** send_single returns -1 in thread t, which was working on packet k. */
  function FailThread(s: State, t: nat, k: nat): State
    requires t < |s.threads|
  {
    Mark(PutThread(s, t, s.threads[t].(pc := Failing, ret := -1)), k, Skipped)
  }

  function WindowOf(th: Thread): int { th.w }
  function RetOf(th: Thread): int { th.ret }

  /** The first packet and the wait for its acknowledgement; an error value counts as success. */
  function ApplySyn(s: State, y: SynAct): State
    requires SynEnabled(s, y)
  {
    match y
    case SynSend => Mark(s, 0, Sent).(phase := SynWait, log := s.log + [0], inflight := s.inflight + 1)
    case SynSendFails => s.(phase := Returned(-3))
    case SynAck => s.(phase := Parallel, inflight := s.inflight - 1, acks := s.acks + 1)
    case SynTimeout => s.(phase := Returned(-2))
    case SynError => s.(phase := Parallel, synOwed := s.inflight)
  }

  function ApplyTake(s: State, t: nat, k: nat): State
    requires TakeEnabled(s, t, k)
  {
    if s.exit then Mark(s, k, Skipped)
    else Mark(PutThread(s, t, s.threads[t].(pc := Entered(k))), k, Held(t))
  }

  /** send_single in the parallel loop, and what the loop body does with its result. */
  function ApplyWork(c: Config, s: State, t: nat, a: ThreadAct): State
    requires c.Valid() && WorkEnabled(c, s, t, a)
  {
    var th := s.threads[t];
    match a
    case CheckWindow =>
      PutThread(s, t, th.(pc := if c.AckAll() && th.w == 0 then Draining(th.pc.k, 0) else Ready(th.pc.k)))
    case RecvAck =>
      PutThread(s, t, th.(pc := Draining(th.pc.k, th.pc.acked + 1))).(inflight := s.inflight - 1, acks := s.acks + 1)
    case DrainEnd =>
      if th.pc.acked == 0 then FailThread(s, t, th.pc.k)
      else PutThread(s, t, th.(w := th.w + th.pc.acked, pc := Ready(th.pc.k)))
    case DrainError(lost) =>
      PutThread(s, t, th.(w := th.w - 1, pc := Ready(th.pc.k))).(burnt := s.burnt + lost)
    case Send =>
      var s1 := Mark(PutThread(s, t, th.(w := th.w - 1, pc := Idle, ret := 0)), th.pc.k, Sent)
                .(log := s.log + [th.pc.k]);
      if c.AckAll() then s1.(inflight := s.inflight + 1) else s1.(silent := s.silent + 1)
    case SendFails => FailThread(s, t, th.pc.k)
    case SetExit => PutThread(s, t, th.(pc := Idle)).(exit := true)
  }

  function ApplyJoin(c: Config, s: State): State
    requires JoinEnabled(s)
  {
    if Sum(s.threads, RetOf) != 0 then s.(phase := Returned(-1))
    else
      var left := Sum(s.threads, WindowOf);
      if c.n >= 2 then s.(phase := LastCheck(left)) else s.(phase := FinalDrain(left, 0, 0))
  }

  function ApplyLast(c: Config, s: State, z: LastAct): State
    requires c.Valid() && LastEnabled(c, s, z)
  {
    match z
    case LastWindow => s.(phase := if s.phase.left == 0 then LastDrain(0, 0) else LastReady(s.phase.left))
    case LastAck =>
      s.(phase := LastDrain(s.phase.left, s.phase.got + 1), inflight := s.inflight - 1, acks := s.acks + 1)
    case LastDrainEnd =>
      if s.phase.got == 0 then s.(phase := FinalDrain(s.phase.left, 0, -1))
      else s.(phase := LastReady(s.phase.left + s.phase.got))
    case LastDrainError(lost) => s.(phase := LastReady(s.phase.left - 1), burnt := s.burnt + lost)
    case LastSend =>
      Mark(s, c.n - 1, Sent).(phase := FinalDrain(s.phase.left - 1, 0, 0), log := s.log + [c.n - 1],
            inflight := s.inflight + 1)
    case LastSendFails => s.(phase := FinalDrain(s.phase.left, 0, -1))
  }

  function ApplyFinal(c: Config, s: State, f: FinalAct): State
    requires c.Valid() && FinalEnabled(c, s, f)
  {
    match f
    case FinalAck => s.(phase := s.phase.(got := s.phase.got + 1), inflight := s.inflight - 1, acks := s.acks + 1)
    case FinalEnd => s.(phase := Returned(if s.phase.got < c.Total() - s.phase.left then -1 else s.phase.ret))
    case FinalError => s.(phase := Returned(-1))
  }

  function Apply(c: Config, s: State, l: Label): State
    requires c.Valid() && Enabled(c, s, l)
  {
    match l
    case Syn(y) => ApplySyn(s, y)
    case Take(t, k) => ApplyTake(s, t, k)
    case Work(t, a) => ApplyWork(c, s, t, a)
    case Join => ApplyJoin(c, s)
    case Last(z) => ApplyLast(c, s, z)
    case Final(f) => ApplyFinal(c, s, f)
  }

  // ---------------------------------------------------------------- what every step keeps: threads and packets

  predicate Working(pc: Pc) { pc.Entered? || pc.Draining? || pc.Ready? }

  predicate ThreadOk(c: Config, th: Thread, exit: bool, burnt: nat)
    requires c.Valid()
  {
    && th.w <= c.Limit() && (c.AckAll() && burnt == 0 ==> th.w >= 0)
    && (th.ret == 0 || th.ret == -1) && (Working(th.pc) ==> th.ret == 0)
    && (th.pc == Failing ==> th.ret == -1) && (th.pc == Idle && th.ret == -1 ==> exit)
    && (th.pc.Draining? ==> c.AckAll() && th.w == 0 && th.pc.acked <= c.Limit())
    && (th.pc.Ready? && c.AckAll() ==> th.w != 0)
  }

  /** A packet is marked as held by a thread exactly while that thread works on it. */
  ghost predicate HoldsOk(ths: seq<Thread>, sts: seq<Status>) {
    && (forall t | 0 <= t < |ths| && Working(ths[t].pc) :: 0 < ths[t].pc.k < |sts| - 1 && sts[ths[t].pc.k] == Held(t))
    && (forall k | 0 <= k < |sts| && sts[k].Held? ::
          sts[k].t < |ths| && Working(ths[sts[k].t].pc) && ths[sts[k].t].pc.k == k)
  }

  ghost predicate AllOk(c: Config, ths: seq<Thread>, exit: bool, burnt: nat)
    requires c.Valid()
  {
    forall t | 0 <= t < |ths| :: ThreadOk(c, ths[t], exit, burnt)
  }

  ghost predicate AllIdle(ths: seq<Thread>) { forall t | 0 <= t < |ths| :: ths[t].pc == Idle }

  ghost predicate Threads(c: Config, s: State)
    requires c.Valid()
  {
    && |s.threads| == c.threads && |s.status| == c.n
    && AllOk(c, s.threads, s.exit, s.burnt)
    && HoldsOk(s.threads, s.status)
    && (s.phase != Parallel ==> AllIdle(s.threads))
  }

  /** A thread goes on with the packet it has, or without one. */
  lemma GoOn(ths: seq<Thread>, sts: seq<Status>, t: nat, th: Thread)
    requires HoldsOk(ths, sts) && t < |ths|
    requires Working(th.pc) <==> Working(ths[t].pc)
    requires Working(th.pc) ==> th.pc.k == ths[t].pc.k
    ensures HoldsOk(ths[t := th], sts)
  {
  }

  /** A thread lets go of its packet, which is then sent or skipped. */
  lemma LetGo(ths: seq<Thread>, sts: seq<Status>, t: nat, th: Thread, st: Status)
    requires HoldsOk(ths, sts) && t < |ths|
    requires Working(ths[t].pc) && !Working(th.pc) && !st.Held?
    ensures HoldsOk(ths[t := th], sts[ths[t].pc.k := st])
  {
  }

  lemma PickUp(ths: seq<Thread>, sts: seq<Status>, t: nat, th: Thread, k: nat)
    requires HoldsOk(ths, sts) && t < |ths| && 0 < k < |sts| - 1
    requires !Working(ths[t].pc) && Working(th.pc) && th.pc.k == k && !sts[k].Held?
    ensures HoldsOk(ths[t := th], sts[k := Held(t)])
  {
  }

  lemma MarkFree(ths: seq<Thread>, sts: seq<Status>, k: nat, st: Status)
    requires HoldsOk(ths, sts) && k < |sts| && !sts[k].Held? && !st.Held?
    ensures HoldsOk(ths, sts[k := st])
  {
  }

  lemma MoreExit(c: Config, ths: seq<Thread>, t: nat, th: Thread, exit: bool, burnt: nat, exit': bool, burnt': nat)
    requires c.Valid() && AllOk(c, ths, exit, burnt) && t < |ths|
    requires (exit ==> exit') && burnt <= burnt' && ThreadOk(c, th, exit', burnt')
    ensures AllOk(c, ths[t := th], exit', burnt')
  {
  }

  lemma WorkKeepsThreads(c: Config, s: State, t: nat, a: ThreadAct)
    requires c.Valid() && Threads(c, s) && WorkEnabled(c, s, t, a)
    ensures Threads(c, ApplyWork(c, s, t, a))
  {
    var s' := ApplyWork(c, s, t, a);
    var th, th' := s.threads[t], s'.threads[t];
    assert ThreadOk(c, th, s.exit, s.burnt);
    assert s'.threads == s.threads[t := th'];
    MoreExit(c, s.threads, t, th', s.exit, s.burnt, s'.exit, s'.burnt);
    if Working(th.pc) && !Working(th'.pc) {
      LetGo(s.threads, s.status, t, th', s'.status[th.pc.k]);
    } else {
      GoOn(s.threads, s.status, t, th');
    }
  }

  lemma TakeKeepsThreads(c: Config, s: State, t: nat, k: nat)
    requires c.Valid() && Threads(c, s) && TakeEnabled(s, t, k)
    ensures Threads(c, ApplyTake(s, t, k))
  {
    var s' := ApplyTake(s, t, k);
    assert ThreadOk(c, s.threads[t], s.exit, s.burnt);
    if s.exit {
      MarkFree(s.threads, s.status, k, Skipped);
    } else {
      MoreExit(c, s.threads, t, s'.threads[t], s.exit, s.burnt, s'.exit, s'.burnt);
      PickUp(s.threads, s.status, t, s'.threads[t], k);
    }
  }

  lemma SynKeepsThreads(c: Config, s: State, y: SynAct)
    requires c.Valid() && Threads(c, s) && SynEnabled(s, y)
    ensures Threads(c, ApplySyn(s, y))
  {
    if y == SynSend {
      MarkFree(s.threads, s.status, 0, Sent);
    }
  }

  lemma LastKeepsThreads(c: Config, s: State, z: LastAct)
    requires c.Valid() && Threads(c, s) && LastEnabled(c, s, z)
    ensures Threads(c, ApplyLast(c, s, z))
  {
    if z == LastSend {
      MarkFree(s.threads, s.status, c.n - 1, Sent);
    }
  }

  lemma StepKeepsThreads(c: Config, s: State, l: Label)
    requires c.Valid() && Threads(c, s) && Enabled(c, s, l)
    ensures Threads(c, Apply(c, s, l))
  {
    match l
    case Syn(y) => SynKeepsThreads(c, s, y);
    case Take(t, k) => TakeKeepsThreads(c, s, t, k);
    case Work(t, a) => WorkKeepsThreads(c, s, t, a);
    case Join =>
    case Last(z) => LastKeepsThreads(c, s, z);
    case Final(f) =>
  }

  // ---------------------------------------------------------------- the log

  /** The log holds each sent packet once and nothing else. */
  ghost predicate LogOk(log: seq<nat>, sts: seq<Status>) {
    forall k: nat :: multiset(log)[k] == if k < |sts| && sts[k] == Sent then 1 else 0
  }

  lemma LogPacket(log: seq<nat>, sts: seq<Status>, k: nat)
    requires LogOk(log, sts) && k < |sts| && sts[k] != Sent
    ensures LogOk(log + [k], sts[k := Sent])
  {
    assert multiset(log + [k]) == multiset(log) + multiset{k};
  }

  lemma MarkUnsent(log: seq<nat>, sts: seq<Status>, k: nat, st: Status)
    requires LogOk(log, sts) && k < |sts| && sts[k] != Sent && st != Sent
    ensures LogOk(log, sts[k := st])
  {
  }

  lemma WorkKeepsLog(c: Config, s: State, t: nat, a: ThreadAct)
    requires c.Valid() && Threads(c, s) && LogOk(s.log, s.status) && WorkEnabled(c, s, t, a)
    ensures LogOk(ApplyWork(c, s, t, a).log, ApplyWork(c, s, t, a).status)
  {
    var pc := s.threads[t].pc;
    if a == Send {
      LogPacket(s.log, s.status, pc.k);
    } else if a == SendFails || (a == DrainEnd && pc.acked == 0) {
      MarkUnsent(s.log, s.status, pc.k, Skipped);
    }
  }

  lemma SynKeepsLog(s: State, y: SynAct)
    requires LogOk(s.log, s.status) && SynEnabled(s, y) && |s.status| >= 1
    requires s.phase == Start ==> s.status[0] != Sent
    ensures LogOk(ApplySyn(s, y).log, ApplySyn(s, y).status)
  {
    if y == SynSend {
      LogPacket(s.log, s.status, 0);
    }
  }

  lemma TakeKeepsLog(s: State, t: nat, k: nat)
    requires LogOk(s.log, s.status) && TakeEnabled(s, t, k)
    ensures LogOk(ApplyTake(s, t, k).log, ApplyTake(s, t, k).status)
  {
    MarkUnsent(s.log, s.status, k, if s.exit then Skipped else Held(t));
  }

  lemma LastKeepsLog(c: Config, s: State, z: LastAct)
    requires c.Valid() && LogOk(s.log, s.status) && LastEnabled(c, s, z) && |s.status| == c.n
    requires s.phase.LastReady? ==> s.status[c.n - 1] != Sent
    ensures LogOk(ApplyLast(c, s, z).log, ApplyLast(c, s, z).status)
  {
    if z == LastSend {
      LogPacket(s.log, s.status, c.n - 1);
    }
  }

  lemma StepKeepsLog(c: Config, s: State, l: Label)
    requires c.Valid() && Threads(c, s) && LogOk(s.log, s.status) && Enabled(c, s, l)
    requires s.phase == Start ==> s.status[0] != Sent
    requires s.phase.LastReady? ==> s.status[c.n - 1] != Sent
    ensures LogOk(Apply(c, s, l).log, Apply(c, s, l).status)
  {
    match l
    case Syn(y) => SynKeepsLog(s, y);
    case Take(t, k) => TakeKeepsLog(s, t, k);
    case Work(t, a) => WorkKeepsLog(c, s, t, a);
    case Join =>
    case Last(z) => LastKeepsLog(c, s, z);
    case Final(f) =>
  }

  // ---------------------------------------------------------------- conservation of credit

  /** A thread's window together with the ACKs it has received but not yet added to it. */
  function Credit(th: Thread): int { th.w + if th.pc.Draining? then th.pc.acked else 0 }

  /** The credit that is on the sending side: in the thread windows, or gathered for the last packet. */
  ghost function Reserve(s: State): int {
    match s.phase
    case LastCheck(left) => left
    case LastDrain(left, got) => left + got
    case LastReady(left) => left
    case FinalDrain(left, got, _) => left + got
    case _ => Sum(s.threads, Credit)
  }

  /** Credit held, packets in flight, credit destroyed by errors and packets that ask for no ACK always
      add up to the whole window, plus one if the SYN's ACK is still to come. */
  ghost predicate Balance(c: Config, s: State)
    requires c.Valid()
  {
    match s.phase
    case Start => Sum(s.threads, Credit) == c.Total() && s.acks == s.inflight == s.burnt == s.silent == s.synOwed == 0
    case SynWait => Sum(s.threads, Credit) == c.Total() && s.inflight == 1 && s.burnt == s.silent == s.synOwed == 0
    case Returned(r) => r == 0 ==> s.inflight + s.burnt + s.silent == s.synOwed
    case _ => Reserve(s) + s.inflight + s.burnt + s.silent == c.Total() + s.synOwed
  }

  /** No phase gathers more credit than there is, and a drain never asks for more than it needs. */
  ghost predicate Bounded(c: Config, s: State)
    requires c.Valid()
  {
    match s.phase
    case LastCheck(left) => c.n >= 2 && left <= c.Total()
    case LastDrain(left, got) => c.n >= 2 && left == 0 && got <= c.Total()
    case LastReady(left) => c.n >= 2 && left != 0 && left <= c.Total()
    case FinalDrain(left, got, ret) => left + got <= c.Total() && (ret == 0 || ret == -1)
    case _ => true
  }

  ghost predicate Counted(s: State) { s.acks + s.inflight + s.silent == |s.log| && s.synOwed <= 1 }

  predicate Sending(s: State) {
    s.phase == SynWait || s.phase == Parallel || s.phase.LastCheck? || s.phase.LastDrain? || s.phase.LastReady?
  }

  /** Without acknowledgements no thread ever drains, so nothing is in flight and every send goes unanswered. */
  ghost predicate Quiet(c: Config, s: State)
    requires c.Valid()
  {
    (c.AckAll() ==> s.silent == 0) &&
    (!c.AckAll() ==>
      && s.burnt == 0
      && (Sending(s) ==> s.acks + s.inflight == 1)
      && (s.phase == Parallel || s.phase.LastCheck? || s.phase.LastDrain? || s.phase.LastReady? ==>
            s.inflight == s.synOwed)
      && ((s.phase.FinalDrain? || s.phase.Returned?) && s.phase.ret == 0 && c.n >= 2 ==> s.silent >= 1)
      && ((s.phase.FinalDrain? || s.phase.Returned?) && s.phase.ret == 0 ==>
            s.acks + s.inflight == if c.n >= 2 then 2 else 1))
  }

  ghost predicate Credits(c: Config, s: State)
    requires c.Valid()
  {
    Balance(c, s) && Bounded(c, s) && Counted(s) && Quiet(c, s)
  }

  lemma NoWindowNoLimit(c: Config)
    requires c.Valid() && !c.AckAll()
    ensures c.Limit() == 0 && c.Total() == 0
  {
  }

  lemma SynKeepsCredits(c: Config, s: State, y: SynAct)
    requires c.Valid() && Credits(c, s) && SynEnabled(s, y)
    ensures Credits(c, ApplySyn(s, y))
  {
  }

  /** One action of one thread moves credit between its window, the network and the error count. */
  lemma WorkMovesCredit(c: Config, s: State, t: nat, a: ThreadAct)
    requires c.Valid() && WorkEnabled(c, s, t, a) && ThreadOk(c, s.threads[t], s.exit, s.burnt) && Counted(s)
             && Quiet(c, s)
    ensures var s' := ApplyWork(c, s, t, a);
            && s'.phase == Parallel && |s'.threads| == |s.threads| && s'.threads == s.threads[t := s'.threads[t]]
            && Credit(s'.threads[t]) + s'.inflight + s'.burnt + s'.silent
               == Credit(s.threads[t]) + s.inflight + s.burnt + s.silent
            && s'.synOwed == s.synOwed && Counted(s') && Quiet(c, s')
  {
  }

  lemma WorkKeepsCredits(c: Config, s: State, t: nat, a: ThreadAct)
    requires c.Valid() && Threads(c, s) && Credits(c, s) && WorkEnabled(c, s, t, a)
    ensures Credits(c, ApplyWork(c, s, t, a))
  {
    WorkMovesCredit(c, s, t, a);
    SumUpdate(s.threads, t, ApplyWork(c, s, t, a).threads[t], Credit);
  }

  lemma TakeKeepsCredits(c: Config, s: State, t: nat, k: nat)
    requires c.Valid() && Credits(c, s) && TakeEnabled(s, t, k)
    ensures Credits(c, ApplyTake(s, t, k))
  {
    if !s.exit {
      SumUpdate(s.threads, t, s.threads[t].(pc := Entered(k)), Credit);
    }
  }

  lemma JoinKeepsCredits(c: Config, s: State)
    requires c.Valid() && Threads(c, s) && Credits(c, s) && JoinEnabled(s)
    ensures Credits(c, ApplyJoin(c, s))
  {
    IdleCredit(s.threads);
    WindowsAtMostTotal(c, s);
  }

  lemma IdleCredit(ths: seq<Thread>)
    requires AllIdle(ths)
    ensures Sum(ths, Credit) == Sum(ths, WindowOf)
  {
    SumSame(ths, Credit, WindowOf);
  }

  lemma WindowsAtMostTotal(c: Config, s: State)
    requires c.Valid() && Threads(c, s)
    ensures Sum(s.threads, WindowOf) <= c.Total()
  {
    var least := Least(s.threads);
    SumBounds(s.threads, WindowOf, least, c.Limit());
  }

  ghost function Least(ths: seq<Thread>): (m: int)
    ensures forall th | th in ths :: m <= th.w
  {
    if ths == [] then 0
    else var m := Least(ths[1..]);
         if ths[0].w < m then ths[0].w else m
  }

  lemma LastKeepsCredits(c: Config, s: State, z: LastAct)
    requires c.Valid() && Credits(c, s) && LastEnabled(c, s, z)
    ensures Credits(c, ApplyLast(c, s, z))
  {
    if !c.AckAll() {
      NoWindowNoLimit(c);
    }
  }

  lemma FinalKeepsCredits(c: Config, s: State, f: FinalAct)
    requires c.Valid() && Credits(c, s) && FinalEnabled(c, s, f)
    ensures Credits(c, ApplyFinal(c, s, f))
  {
  }

  lemma StepKeepsCredits(c: Config, s: State, l: Label)
    requires c.Valid() && Threads(c, s) && Credits(c, s) && Enabled(c, s, l)
    ensures Credits(c, Apply(c, s, l))
  {
    match l
    case Syn(y) => SynKeepsCredits(c, s, y);
    case Take(t, k) => TakeKeepsCredits(c, s, t, k);
    case Work(t, a) => WorkKeepsCredits(c, s, t, a);
    case Join => JoinKeepsCredits(c, s);
    case Last(z) => LastKeepsCredits(c, s, z);
    case Final(f) => FinalKeepsCredits(c, s, f);
  }

  // ---------------------------------------------------------------- who failed, and what was sent

  ghost predicate Failed(ths: seq<Thread>) { exists t :: 0 <= t < |ths| && ths[t].ret == -1 }

  ghost predicate MiddleSent(sts: seq<Status>) { forall k | 0 < k < |sts| - 1 :: sts[k] == Sent }

  /** A skipped packet, or a raised exit flag, is always some thread's failure. */
  ghost predicate Blamed(s: State) {
    s.exit || (exists k :: 0 < k < |s.status| - 1 && s.status[k] == Skipped) ==> Failed(s.threads)
  }

  ghost predicate AllSent(sts: seq<Status>) { forall k | 0 <= k < |sts| :: sts[k] == Sent }

  ghost predicate Ordered(c: Config, s: State)
    requires c.Valid()
  {
    && |s.status| == c.n
    && (s.phase == Start ==> s.status[0] == Todo)
    && (s.phase != Start && s.phase != Returned(-3) ==> s.status[0] == Sent)
    && (c.n >= 2 && !s.phase.FinalDrain? && !s.phase.Returned? ==> s.status[c.n - 1] == Todo)
    && (s.phase.LastCheck? || s.phase.LastDrain? || s.phase.LastReady? ==> c.n >= 2)
    && (s.phase.LastCheck? || s.phase.LastDrain? || s.phase.LastReady? || s.phase.FinalDrain? ==>
          MiddleSent(s.status) && !Failed(s.threads))
    && ((s.phase.FinalDrain? || s.phase.Returned?) && s.phase.ret == 0 ==> AllSent(s.status))
    && (Failed(s.threads) ==>
          (s.phase == Parallel || s.phase == Returned(-1)) && (c.n >= 2 ==> s.status[c.n - 1] != Sent))
    && (s.phase == Start || s.phase == SynWait ==> !Failed(s.threads))
    && (s.status[c.n - 1] == Sent ==> AllSent(s.status))
  }

  ghost predicate Outcome(c: Config, s: State)
    requires c.Valid()
  {
    Blamed(s) && Ordered(c, s)
  }

  lemma SynKeepsOutcome(c: Config, s: State, y: SynAct)
    requires c.Valid() && Outcome(c, s) && SynEnabled(s, y)
    ensures Outcome(c, ApplySyn(s, y))
  {
  }

  lemma TakeKeepsOutcome(c: Config, s: State, t: nat, k: nat)
    requires c.Valid() && Outcome(c, s) && TakeEnabled(s, t, k)
    ensures Outcome(c, ApplyTake(s, t, k))
  {
    var s' := ApplyTake(s, t, k);
    if i :| 0 <= i < |s.threads| && s.threads[i].ret == -1 {
      assert s'.threads[i].ret == -1;
    }
  }

  lemma WorkKeepsOutcome(c: Config, s: State, t: nat, a: ThreadAct)
    requires c.Valid() && Threads(c, s) && Outcome(c, s) && WorkEnabled(c, s, t, a)
    ensures Outcome(c, ApplyWork(c, s, t, a))
  {
    var s' := ApplyWork(c, s, t, a);
    assert ThreadOk(c, s.threads[t], s.exit, s.burnt);
    assert s'.threads == s.threads[t := s'.threads[t]];
    assert s.threads[t].ret == -1 ==> s'.threads[t].ret == -1;
    if i :| 0 <= i < |s.threads| && s.threads[i].ret == -1 {
      assert s'.threads[i].ret == -1;
    }
    assert a == SetExit || a == SendFails || (a == DrainEnd && s.threads[t].pc.acked == 0) ==> s'.threads[t].ret == -1;
  }

  /** The summed return value is zero exactly when no thread failed. */
  lemma {:induction false} SumOfRets(ths: seq<Thread>)
    requires forall th | th in ths :: th.ret == 0 || th.ret == -1
    ensures Sum(ths, RetOf) <= 0
    ensures Sum(ths, RetOf) == 0 <==> !Failed(ths)
  {
    if ths != [] {
      var n := |ths| - 1;
      assert forall th | th in ths[..n] :: th in ths;
      SumOfRets(ths[..n]);
      assert ths[n] in ths;
      if i :| 0 <= i < n && ths[..n][i].ret == -1 {
        assert ths[i].ret == -1;
      }
      if i :| 0 <= i < |ths| && ths[i].ret == -1 && i < n {
        assert ths[..n][i].ret == -1;
      }
    }
  }

  lemma JoinKeepsOutcome(c: Config, s: State)
    requires c.Valid() && Threads(c, s) && Outcome(c, s) && JoinEnabled(s)
    ensures Outcome(c, ApplyJoin(c, s))
  {
    forall th | th in s.threads
      ensures th.ret == 0 || th.ret == -1
    {
      var t :| 0 <= t < |s.threads| && s.threads[t] == th;
      assert ThreadOk(c, s.threads[t], s.exit, s.burnt);
    }
    SumOfRets(s.threads);
    if !Failed(s.threads) {
      forall k | 0 < k < |s.status| - 1
        ensures s.status[k] == Sent
      {
        assert s.status[k] != Skipped && s.status[k] != Todo;
      }
    }
  }

  lemma LastKeepsOutcome(c: Config, s: State, z: LastAct)
    requires c.Valid() && Outcome(c, s) && LastEnabled(c, s, z)
    ensures Outcome(c, ApplyLast(c, s, z))
  {
  }

  lemma StepKeepsOutcome(c: Config, s: State, l: Label)
    requires c.Valid() && Threads(c, s) && Outcome(c, s) && Bounded(c, s) && Enabled(c, s, l)
    ensures Outcome(c, Apply(c, s, l))
  {
    match l
    case Syn(y) => SynKeepsOutcome(c, s, y);
    case Take(t, k) => TakeKeepsOutcome(c, s, t, k);
    case Work(t, a) => WorkKeepsOutcome(c, s, t, a);
    case Join => JoinKeepsOutcome(c, s);
    case Last(z) => LastKeepsOutcome(c, s, z);
    case Final(f) =>
  }

  // ---------------------------------------------------------------- whole runs

  /** The labels, taken in order, lead from s to t. */
  ghost predicate Exec(c: Config, s: State, labels: seq<Label>, t: State)
    requires c.Valid()
    decreases |labels|
  {
    if labels == [] then s == t
    else Enabled(c, s, labels[0]) && Exec(c, Apply(c, s, labels[0]), labels[1..], t)
  }

  ghost predicate Reachable(c: Config, s: State)
    requires c.Valid()
  {
    exists labels :: Exec(c, Init(c), labels, s)
  }

  ghost predicate Inv(c: Config, s: State)
    requires c.Valid()
  {
    Threads(c, s) && LogOk(s.log, s.status) && Credits(c, s) && Outcome(c, s)
  }

  lemma InitInv(c: Config)
    requires c.Valid()
    ensures Inv(c, Init(c))
  {
    var s := Init(c);
    SumBounds(s.threads, Credit, c.Limit(), c.Limit());
    assert multiset(s.log) == multiset{};
  }

  lemma StepKeepsInv(c: Config, s: State, l: Label)
    requires c.Valid() && Inv(c, s) && Enabled(c, s, l)
    ensures Inv(c, Apply(c, s, l))
  {
    StepKeepsThreads(c, s, l);
    StepKeepsLog(c, s, l);
    StepKeepsCredits(c, s, l);
    StepKeepsOutcome(c, s, l);
  }

  lemma {:induction false} ExecKeepsInv(c: Config, s: State, labels: seq<Label>, t: State)
    requires c.Valid() && Inv(c, s) && Exec(c, s, labels, t)
    ensures Inv(c, t)
    decreases |labels|
  {
    if labels != [] {
      StepKeepsInv(c, s, labels[0]);
      ExecKeepsInv(c, Apply(c, s, labels[0]), labels[1..], t);
    }
  }

  lemma ReachableInv(c: Config, s: State)
    requires c.Valid() && Reachable(c, s)
    ensures Inv(c, s)
  {
    var labels :| Exec(c, Init(c), labels, s);
    InitInv(c);
    ExecKeepsInv(c, Init(c), labels, s);
  }

  // ---------------------------------------------------------------- what the events of a run account for

  /** A receive failed other than by finding nothing. */
  predicate ErrorFree(l: Label) {
    l != Syn(SynError) && Loss(l) == 0 && l != Final(FinalError)
  }

  /** The credit an event destroys. */
  function Loss(l: Label): nat {
    match l
    case Work(_, DrainError(lost)) => lost
    case Last(LastDrainError(lost)) => lost
    case _ => 0
  }

  function Destroyed(labels: seq<Label>): nat {
    if labels == [] then 0 else Loss(labels[0]) + Destroyed(labels[1..])
  }

  function SynLoss(l: Label): nat { if l == Syn(SynError) then 1 else 0 }

  function Silence(c: Config, l: Label): nat { if !c.AckAll() && l.Work? && l.a == Send then 1 else 0 }

  /** How often the wait for the SYN's ACK ended in an error. */
  function SynErrors(labels: seq<Label>): nat {
    if labels == [] then 0 else SynLoss(labels[0]) + SynErrors(labels[1..])
  }

  /** How many packets were sent that ask for no ACK. */
  function SilentSends(c: Config, labels: seq<Label>): nat {
    if labels == [] then 0 else Silence(c, labels[0]) + SilentSends(c, labels[1..])
  }

  lemma StepLedger(c: Config, s: State, l: Label)
    requires c.Valid() && Credits(c, s) && Enabled(c, s, l)
    ensures var t := Apply(c, s, l);
            t.burnt == s.burnt + Loss(l) && t.silent == s.silent + Silence(c, l) && t.synOwed == s.synOwed + SynLoss(l)
  {
    match l
    case Syn(y) =>
    case Take(t, k) =>
    case Work(t, a) => WorkLedger(c, s, t, a);
    case Join => JoinLedger(c, s);
    case Last(z) =>
    case Final(f) =>
  }

  lemma JoinLedger(c: Config, s: State)
    requires JoinEnabled(s)
    ensures ApplyJoin(c, s) == s.(phase := ApplyJoin(c, s).phase)
  {
  }

  lemma WorkLedger(c: Config, s: State, t: nat, a: ThreadAct)
    requires c.Valid() && WorkEnabled(c, s, t, a)
    ensures var u := ApplyWork(c, s, t, a);
            && u.burnt == s.burnt + Loss(Work(t, a)) && u.synOwed == s.synOwed
            && u.silent == s.silent + if !c.AckAll() && a == Send then 1 else 0
  {
  }

  /** The three counters are exactly what the events of the run add up to. */
  lemma {:induction false} Ledger(c: Config, s: State, labels: seq<Label>, t: State)
    requires c.Valid() && Inv(c, s) && Exec(c, s, labels, t)
    ensures t.burnt == s.burnt + Destroyed(labels) && t.silent == s.silent + SilentSends(c, labels)
    ensures t.synOwed == s.synOwed + SynErrors(labels)
    decreases |labels|
  {
    if labels != [] {
      StepLedger(c, s, labels[0]);
      StepKeepsInv(c, s, labels[0]);
      Ledger(c, Apply(c, s, labels[0]), labels[1..], t);
    }
  }

  lemma {:induction false} DestroyedIff(labels: seq<Label>)
    ensures Destroyed(labels) > 0 <==> exists l :: l in labels && Loss(l) > 0
  {
    if labels != [] {
      DestroyedIff(labels[1..]);
      if Loss(labels[0]) > 0 {
        assert labels[0] in labels;
      }
      if l :| l in labels[1..] && Loss(l) > 0 {
        assert l in labels;
      }
    }
  }

  lemma {:induction false} SynErrorsIff(labels: seq<Label>)
    ensures SynErrors(labels) > 0 <==> Syn(SynError) in labels
  {
    if labels != [] {
      SynErrorsIff(labels[1..]);
    }
  }

  /** An error while draining costs credit, and nothing else does; the SYN's ACK stays owed exactly after an error
      in the wait for it. */
  lemma CreditIsLostIff(c: Config, labels: seq<Label>, s: State)
    requires c.Valid() && Exec(c, Init(c), labels, s)
    ensures s.burnt > 0 <==> exists l :: l in labels && Loss(l) > 0
    ensures s.synOwed <= 1 && (s.synOwed == 1 <==> Syn(SynError) in labels)
    ensures s.burnt == Destroyed(labels) && s.synOwed == SynErrors(labels) && s.silent == SilentSends(c, labels)
  {
    InitInv(c);
    Ledger(c, Init(c), labels, s);
    ExecKeepsInv(c, Init(c), labels, s);
    DestroyedIff(labels);
    SynErrorsIff(labels);
  }

  /** Thread t has had an error while draining. */
  ghost predicate HadError(labels: seq<Label>, t: nat) {
    exists l :: l in labels && l.Work? && l.t == t && l.a.DrainError?
  }

  lemma StepWindowSign(c: Config, s: State, l: Label, t: nat)
    requires c.Valid() && c.AckAll() && Threads(c, s) && Enabled(c, s, l) && t < |s.threads|
    ensures |Apply(c, s, l).threads| == |s.threads|
    ensures Apply(c, s, l).threads[t].w < 0 <==> s.threads[t].w < 0 || (l.Work? && l.t == t && l.a.DrainError?)
  {
    assert ThreadOk(c, s.threads[t], s.exit, s.burnt);
  }

  /** With a window, a thread's window is negative exactly when that thread has had an error while draining; it then
      never becomes zero again, so the thread never waits for another ACK. */
  lemma {:induction false} NegativeWindowIff(c: Config, s: State, labels: seq<Label>, u: State, t: nat)
    requires c.Valid() && c.AckAll() && Inv(c, s) && Exec(c, s, labels, u) && t < |s.threads|
    ensures |u.threads| == |s.threads|
    ensures u.threads[t].w < 0 <==> s.threads[t].w < 0 || HadError(labels, t)
    decreases |labels|
  {
    if labels != [] {
      var l := labels[0];
      StepWindowSign(c, s, l, t);
      StepKeepsInv(c, s, l);
      NegativeWindowIff(c, Apply(c, s, l), labels[1..], u, t);
      if m :| m in labels[1..] && m.Work? && m.t == t && m.a.DrainError? {
        assert m in labels;
      }
      assert l in labels && (forall m | m in labels :: m == l || m in labels[1..]);
    }
  }

  /** Conservation of credit under every interleaving: windows and local ACKs and packets in flight add up to the whole
      window exactly when the credit destroyed by errors and the packets that ask for no ACK make up for a SYN whose ACK
      is still owed.  So with a window the law holds as long as no receive fails, fails after an error in the SYN wait
      alone, and comes back only if one later drain fails before it has received anything. */
  lemma CreditConservation(c: Config, labels: seq<Label>, s: State)
    requires c.Valid() && Exec(c, Init(c), labels, s) && s.phase == Parallel
    ensures Sum(s.threads, Credit) + s.inflight == c.Total()
              + SynErrors(labels) - Destroyed(labels) - SilentSends(c, labels)
    ensures Conserved(c, s) <==> Destroyed(labels) + SilentSends(c, labels) == SynErrors(labels)
    ensures c.AckAll() && (forall l | l in labels :: ErrorFree(l)) ==> Conserved(c, s)
    ensures forall t | 0 <= t < |s.threads| :: s.threads[t].w <= c.Limit()
    ensures c.wnd <= c.Limit() * c.threads == c.Total() < c.wnd + c.threads
    ensures c.AckAll() ==> forall t: nat | t < |s.threads| :: s.threads[t].w < 0 <==> HadError(labels, t)
  {
    InitInv(c);
    ExecKeepsInv(c, Init(c), labels, s);
    CreditIsLostIff(c, labels, s);
    ShareOfWindow(c);
    forall t: nat | t < |s.threads|
      ensures s.threads[t].w <= c.Limit() && (c.AckAll() ==> (s.threads[t].w < 0 <==> HadError(labels, t)))
    {
      assert ThreadOk(c, s.threads[t], s.exit, s.burnt);
      if c.AckAll() {
        NegativeWindowIff(c, Init(c), labels, s, t);
      }
    }
  }

  ghost predicate Conserved(c: Config, s: State)
    requires c.Valid()
  {
    Sum(s.threads, Credit) + s.inflight == c.Total()
  }

  // ---------------------------------------------------------------- the window is respected

  /** Every thread gets the same share, and the shares together cover the window with less than one packet per thread to
      spare. */
  lemma ShareOfWindow(c: Config)
    requires c.Valid()
    ensures c.wnd <= c.Limit() * c.threads < c.wnd + c.threads
    ensures c.Total() == c.Limit() * c.threads
  {
    var x := c.wnd + c.threads - 1;
    assert x == x / c.threads * c.threads + x % c.threads;
  }

  /** What has been gathered for the last packet is not negative. */
  predicate Gathered(p: Phase) {
    match p
    case LastCheck(left) => left >= 0
    case LastDrain(left, _) => left >= 0
    case LastReady(left) => left >= 0
    case FinalDrain(left, _, _) => left >= 0
    case _ => true
  }

  /** As long as no credit has been destroyed, no more is in flight than the whole window, and the SYN if its ACK is
      owed. */
  ghost predicate HasRoom(c: Config, s: State)
    requires c.Valid()
  {
    s.burnt == 0 ==> s.inflight <= c.Total() + s.synOwed && Gathered(s.phase)
  }

  lemma CreditIsNonNegative(c: Config, s: State)
    requires c.Valid() && c.AckAll() && Threads(c, s) && s.burnt == 0
    ensures Sum(s.threads, Credit) >= 0 && Sum(s.threads, WindowOf) >= 0
  {
    forall t | 0 <= t < |s.threads|
      ensures Credit(s.threads[t]) >= 0 && WindowOf(s.threads[t]) >= 0
    {
      assert ThreadOk(c, s.threads[t], s.exit, s.burnt);
    }
    SumNonNegative(s.threads, Credit);
    SumNonNegative(s.threads, WindowOf);
  }

  lemma LastGathers(c: Config, s: State, z: LastAct)
    requires c.Valid() && Credits(c, s) && LastEnabled(c, s, z) && Gathered(s.phase) && !z.LastDrainError?
    ensures Gathered(ApplyLast(c, s, z).phase)
  {
  }

  lemma StepGathers(c: Config, s: State, l: Label)
    requires c.Valid() && c.AckAll() && Inv(c, s) && Enabled(c, s, l) && Gathered(s.phase) && Loss(l) == 0
             && s.burnt == 0
    ensures Gathered(Apply(c, s, l).phase)
  {
    match l
    case Syn(y) =>
    case Take(t, k) =>
    case Work(t, a) =>
    case Join => CreditIsNonNegative(c, s);
    case Last(z) => LastGathers(c, s, z);
    case Final(f) =>
  }

  /** Returning neither sends nor receives. */
  lemma ReturnKeepsInflight(c: Config, s: State, l: Label)
    requires c.Valid() && Inv(c, s) && Enabled(c, s, l) && Apply(c, s, l).phase.Returned?
    ensures Apply(c, s, l).inflight == s.inflight && Apply(c, s, l).synOwed == s.synOwed
  {
    match l
    case Syn(y) =>
    case Take(t, k) =>
    case Work(t, a) => WorkStaysParallel(c, s, t, a);
    case Join => JoinLedger(c, s);
    case Last(z) =>
    case Final(f) =>
  }

  lemma WorkStaysParallel(c: Config, s: State, t: nat, a: ThreadAct)
    requires c.Valid() && WorkEnabled(c, s, t, a)
    ensures ApplyWork(c, s, t, a).phase == Parallel
  {
  }

  lemma BalanceLeavesRoom(c: Config, s: State)
    requires c.Valid() && c.AckAll() && Threads(c, s) && Credits(c, s) && s.burnt == 0 && !s.phase.Returned?
    requires Gathered(s.phase)
    ensures s.inflight <= c.Total() + s.synOwed
  {
    CreditIsNonNegative(c, s);
    ShareOfWindow(c);
  }

  lemma StepKeepsRoom(c: Config, s: State, l: Label)
    requires c.Valid() && c.AckAll() && Inv(c, s) && Enabled(c, s, l) && HasRoom(c, s)
    ensures HasRoom(c, Apply(c, s, l))
  {
    var t := Apply(c, s, l);
    StepKeepsInv(c, s, l);
    StepLedger(c, s, l);
    if t.burnt == 0 {
      StepGathers(c, s, l);
      if t.phase.Returned? {
        ReturnKeepsInflight(c, s, l);
      } else {
        BalanceLeavesRoom(c, t);
      }
    }
  }

  lemma {:induction false} RunKeepsRoom(c: Config, s: State, labels: seq<Label>, u: State)
    requires c.Valid() && c.AckAll() && Inv(c, s) && Exec(c, s, labels, u) && HasRoom(c, s)
    ensures HasRoom(c, u)
    decreases |labels|
  {
    if labels != [] {
      StepKeepsInv(c, s, labels[0]);
      StepKeepsRoom(c, s, labels[0]);
      RunKeepsRoom(c, Apply(c, s, labels[0]), labels[1..], u);
    }
  }

  /** As long as no receive fails, fewer packets are in flight at any moment than the window and one more per thread. */
  lemma WindowRespected(c: Config, labels: seq<Label>, s: State)
    requires c.Valid() && c.AckAll() && Exec(c, Init(c), labels, s) && Destroyed(labels) == 0
    ensures s.inflight <= c.Limit() * c.threads + SynErrors(labels)
    ensures s.inflight < c.wnd + c.threads + SynErrors(labels) && SynErrors(labels) <= 1
  {
    InitInv(c);
    RunKeepsRoom(c, Init(c), labels, s);
    CreditIsLostIff(c, labels, s);
    ShareOfWindow(c);
  }

  // ---------------------------------------------------------------- a thread without credit

  function Itself(x: int): int { x }

  predicate Early(s: State) { s.phase == Start || s.phase == SynWait || s.phase == Parallel }

  /** The credit destroyed so far, thread by thread: a thread has at most one error, because its window then stays
      negative, and that error costs at most its share. */
  ghost predicate LossOk(c: Config, s: State, loss: seq<int>)
    requires c.Valid()
  {
    Early(s) ==>
      && |loss| == |s.threads| && Sum(loss, Itself) == s.burnt
      && forall t | 0 <= t < |loss| :: if s.threads[t].w < 0 then 0 <= loss[t] <= c.Limit() else loss[t] == 0
  }

  predicate IsDrainError(l: Label) { l.Work? && l.a.DrainError? }

  /** The steps before the last packet, as far as the books of losses are concerned. */
  lemma EarlySteps(c: Config, s: State, l: Label)
    requires c.Valid() && Inv(c, s) && Enabled(c, s, l) && Early(Apply(c, s, l))
    ensures Early(s) && Apply(c, s, l).burnt == s.burnt + Loss(l) && (!IsDrainError(l) ==> Loss(l) == 0)
  {
    StepLedger(c, s, l);
    assert [l][1..] == [];
  }

  lemma SameLoss(c: Config, s: State, l: Label, loss: seq<int>)
    requires c.Valid() && c.AckAll() && Inv(c, s) && Enabled(c, s, l) && LossOk(c, s, loss) && !IsDrainError(l)
    ensures LossOk(c, Apply(c, s, l), loss)
  {
    var s' := Apply(c, s, l);
    if Early(s') {
      EarlySteps(c, s, l);
      forall t: nat | t < |loss|
        ensures |s'.threads| == |s.threads| && (s'.threads[t].w < 0 <==> s.threads[t].w < 0)
      {
        StepWindowSign(c, s, l, t);
      }
      assert |s.threads| == c.threads > 0;
    }
  }

  lemma MoreLoss(c: Config, s: State, i: nat, lost: nat, loss: seq<int>) returns (loss': seq<int>)
    requires c.Valid() && c.AckAll() && Inv(c, s) && LossOk(c, s, loss)
    requires WorkEnabled(c, s, i, DrainError(lost))
    ensures LossOk(c, ApplyWork(c, s, i, DrainError(lost)), loss')
  {
    assert ThreadOk(c, s.threads[i], s.exit, s.burnt);
    loss' := loss[i := lost];
    SumUpdate(loss, i, lost, Itself);
  }

  lemma StepLoss(c: Config, s: State, l: Label, loss: seq<int>) returns (loss': seq<int>)
    requires c.Valid() && c.AckAll() && Inv(c, s) && Enabled(c, s, l) && LossOk(c, s, loss)
    ensures LossOk(c, Apply(c, s, l), loss')
  {
    loss' := loss;
    if IsDrainError(l) {
      loss' := MoreLoss(c, s, l.t, l.a.lost, loss);
    } else {
      SameLoss(c, s, l, loss);
    }
  }

  lemma {:induction false} RunLoss(c: Config, s: State, labels: seq<Label>, u: State, loss: seq<int>)
    returns (loss': seq<int>)
    requires c.Valid() && c.AckAll() && Inv(c, s) && Exec(c, s, labels, u) && LossOk(c, s, loss)
    ensures LossOk(c, u, loss')
    decreases |labels|
  {
    loss' := loss;
    if labels != [] {
      StepKeepsInv(c, s, labels[0]);
      loss' := StepLoss(c, s, labels[0], loss);
      loss' := RunLoss(c, Apply(c, s, labels[0]), labels[1..], u, loss');
    }
  }

  lemma InitLoss(c: Config) returns (loss: seq<int>)
    requires c.Valid()
    ensures LossOk(c, Init(c), loss)
  {
    loss := seq(c.threads, _ => 0);
    SumBounds(loss, Itself, 0, 0);
  }

  /** No thread's credit and loss together exceed its share. */
  lemma ShareBounds(c: Config, s: State, loss: seq<int>, i: nat)
    requires c.Valid() && c.AckAll() && Threads(c, s) && LossOk(c, s, loss) && Early(s) && i < |s.threads|
    ensures Credit(s.threads[i]) + loss[i] <= c.Limit()
    ensures Credit(s.threads[i]) == 0 ==> loss[i] == 0
  {
    assert ThreadOk(c, s.threads[i], s.exit, s.burnt);
  }

  /** A thread without credit is never alone with it: whatever errors there have been, at least its whole share of the
      window is in flight and still to be reclaimed, and the SYN besides if its ACK is owed, although other threads may
      have received its own ACKs. */
  lemma StarvedThread(c: Config, s: State, t: nat)
    requires c.Valid() && c.AckAll() && Reachable(c, s) && s.phase == Parallel
    requires t < |s.threads| && Credit(s.threads[t]) == 0
    ensures s.inflight >= c.Limit() + s.synOwed && c.Limit() > 0
    ensures c.wnd <= c.Limit() * c.threads < c.wnd + c.threads
  {
    ShareOfWindow(c);
    ReachableInv(c, s);
    var labels :| Exec(c, Init(c), labels, s);
    InitInv(c);
    var loss := InitLoss(c);
    loss := RunLoss(c, Init(c), labels, s, loss);
    ShareBounds(c, s, loss, t);
    var full := s.threads[t].(w := c.Limit(), pc := Idle);
    SumUpdate(s.threads, t, full, Credit);
    SharesAtMostTotal(c, s, loss, t, full);
    LimitPositive(c);
  }

  lemma SharesAtMostTotal(c: Config, s: State, loss: seq<int>, t: nat, full: Thread)
    requires c.Valid() && c.AckAll() && Threads(c, s) && LossOk(c, s, loss) && Early(s)
    requires t < |s.threads| && loss[t] == 0 && Credit(full) == c.Limit()
    ensures Sum(s.threads[t := full], Credit) + s.burnt <= c.Total()
  {
    var ths := s.threads[t := full];
    forall i | 0 <= i < |ths|
      ensures Credit(ths[i]) + Itself(loss[i]) <= c.Limit()
    {
      ShareBounds(c, s, loss, i);
    }
    SumOfTwo(ths, Credit, loss, Itself, c.Limit());
  }

  lemma LimitPositive(c: Config)
    requires c.Valid() && c.AckAll()
    ensures c.Limit() >= 1
  {
  }

  function Upto(n: nat): seq<nat> { if n == 0 then [] else Upto(n - 1) + [n - 1] }

  lemma {:induction false} UptoCounts(n: nat, k: nat)
    ensures |Upto(n)| == n
    ensures multiset(Upto(n))[k] == if k < n then 1 else 0
  {
    if n > 0 {
      UptoCounts(n - 1, k);
      assert Upto(n) == Upto(n - 1) + [n - 1];
    }
  }

  lemma AllSentOnce(c: Config, s: State)
    requires c.Valid() && LogOk(s.log, s.status) && |s.status| == c.n && AllSent(s.status)
    ensures multiset(s.log) == multiset(Upto(c.n)) && |s.log| == c.n
  {
    forall k: nat
      ensures multiset(s.log)[k] == multiset(Upto(c.n))[k]
    {
      UptoCounts(c.n, k);
    }
    UptoCounts(c.n, 0);
    assert multiset(s.log) == multiset(Upto(c.n));
    assert |s.log| == |multiset(s.log)| == |multiset(Upto(c.n))| == |Upto(c.n)|;
  }

  /** If slmp_sendmsg returns 0, every packet was sent exactly once.  At most one ACK is then missing, and it is missing
      exactly when the wait for the SYN's ACK ended in an error that no later error made up for. */
  lemma ReturnsZero(c: Config, labels: seq<Label>, s: State)
    requires c.Valid() && Exec(c, Init(c), labels, s) && s.phase == Returned(0)
    ensures multiset(s.log) == multiset(Upto(c.n)) && |s.log| == c.n
    ensures |s.log| - 1 <= s.acks <= |s.log|
    ensures s.acks == |s.log| <==> s.burnt == s.synOwed
    ensures s.acks == |s.log| <==> Destroyed(labels) == SynErrors(labels)
    ensures Syn(SynError) !in labels ==> s.acks == |s.log| && s.inflight == 0 && Destroyed(labels) == 0
    ensures c.AckAll() || c.n == 1 || (c.n == 3 && Syn(SynError) in labels)
  {
    InitInv(c);
    ExecKeepsInv(c, Init(c), labels, s);
    CreditIsLostIff(c, labels, s);
    AllSentOnce(c, s);
  }

  /** If any thread fails, the last packet of a multi-packet message is never sent, and the call does not return 0. */
  lemma FailureStopsTheMessage(c: Config, s: State)
    requires c.Valid() && Reachable(c, s) && Failed(s.threads)
    ensures c.n >= 2 ==> c.n - 1 !in s.log
    ensures s.phase.Returned? ==> s.phase.ret == -1
  {
    ReachableInv(c, s);
    assert c.n >= 2 ==> multiset(s.log)[c.n - 1] == 0;
  }

  /** The packet that carries EOM goes out only after every other packet of the message. */
  lemma EndOfMessageIsLast(c: Config, s: State)
    requires c.Valid() && Reachable(c, s) && c.n - 1 in s.log
    ensures multiset(s.log) == multiset(Upto(c.n))
  {
    ReachableInv(c, s);
    assert multiset(s.log)[c.n - 1] >= 1;
    assert AllSent(s.status);
    AllSentOnce(c, s);
  }
}
