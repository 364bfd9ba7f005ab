/** Every call of slmp_sendmsg returns: a run can go on until it does, and no run is long. */
module SlmpReturns {
  import opened Sums
  import opened SlmpSender

  /** The steps that a packet, a thread and a phase may still take. */
  function PacketRank(st: Status): int { if st == Todo then 5 else 0 }

  function ThreadRank(th: Thread): int {
    match th.pc
    case Entered(_) => 4
    case Draining(_, _) => 3
    case Ready(_) => 2
    case Failing => 1
    case Idle => 0
  }

  function PhaseRank(p: Phase): nat {
    match p
    case Start => 7
    case SynWait => 6
    case Parallel => 5
    case LastCheck(_) => 4
    case LastDrain(_, _) => 3
    case LastReady(_) => 2
    case FinalDrain(_, _, _) => 1
    case Returned(_) => 0
  }

  ghost function Rank(s: State): int {
    PhaseRank(s.phase) + Sum(s.status, PacketRank) + Sum(s.threads, ThreadRank) + s.inflight
  }

  lemma RankIsNonNegative(s: State)
    ensures Rank(s) >= 0
  {
    SumNonNegative(s.status, PacketRank);
    SumNonNegative(s.threads, ThreadRank);
  }

  lemma SynLowersRank(c: Config, s: State, y: SynAct)
    requires c.Valid() && |s.status| == c.n && SynEnabled(s, y) && (s.phase == Start ==> s.status[0] == Todo)
    ensures Rank(ApplySyn(s, y)) < Rank(s)
  {
    if y == SynSend {
      SumUpdate(s.status, 0, Sent, PacketRank);
    }
  }

  lemma TakeLowersRank(s: State, t: nat, k: nat)
    requires TakeEnabled(s, t, k)
    ensures Rank(ApplyTake(s, t, k)) < Rank(s)
  {
    SumUpdate(s.status, k, if s.exit then Skipped else Held(t), PacketRank);
    SumUpdate(s.threads, t, s.threads[t].(pc := Entered(k)), ThreadRank);
  }

  /** A send gives the network one more ACK to deliver and takes two steps off the thread. */
  lemma WorkRanks(c: Config, s: State, t: nat, a: ThreadAct)
    requires c.Valid() && WorkEnabled(c, s, t, a)
    ensures var s' := ApplyWork(c, s, t, a);
            && s'.phase == s.phase && |s'.threads| == |s.threads| && s'.threads == s.threads[t := s'.threads[t]]
            && ThreadRank(s'.threads[t]) + s'.inflight < ThreadRank(s.threads[t]) + s.inflight
  {
  }

  /** A packet that is held is sent, skipped or still held. */
  lemma WorkPackets(c: Config, s: State, t: nat, a: ThreadAct)
    requires c.Valid() && WorkEnabled(c, s, t, a) && HoldsOk(s.threads, s.status)
    ensures Sum(ApplyWork(c, s, t, a).status, PacketRank) == Sum(s.status, PacketRank)
  {
    var pc := s.threads[t].pc;
    if a == Send {
      SumUpdate(s.status, pc.k, Sent, PacketRank);
    } else if a == SendFails || (a == DrainEnd && pc.acked == 0) {
      SumUpdate(s.status, pc.k, Skipped, PacketRank);
    }
  }

  lemma WorkLowersRank(c: Config, s: State, t: nat, a: ThreadAct)
    requires c.Valid() && WorkEnabled(c, s, t, a) && HoldsOk(s.threads, s.status)
    ensures Rank(ApplyWork(c, s, t, a)) < Rank(s)
  {
    WorkRanks(c, s, t, a);
    WorkPackets(c, s, t, a);
    SumUpdate(s.threads, t, ApplyWork(c, s, t, a).threads[t], ThreadRank);
  }

  lemma JoinLowersRank(c: Config, s: State)
    requires JoinEnabled(s)
    ensures Rank(ApplyJoin(c, s)) < Rank(s)
  {
    JoinLedger(c, s);
  }

  lemma LastLowersRank(c: Config, s: State, z: LastAct)
    requires c.Valid() && |s.status| == c.n && LastEnabled(c, s, z)
    requires s.phase.LastReady? ==> s.status[c.n - 1] == Todo
    ensures Rank(ApplyLast(c, s, z)) < Rank(s)
  {
    if z == LastSend {
      SumUpdate(s.status, c.n - 1, Sent, PacketRank);
    }
  }

  lemma StepLowersRank(c: Config, s: State, l: Label)
    requires c.Valid() && Inv(c, s) && Enabled(c, s, l)
    ensures Rank(Apply(c, s, l)) < Rank(s)
  {
    match l
    case Syn(y) => SynLowersRank(c, s, y);
    case Take(t, k) => TakeLowersRank(s, t, k);
    case Work(t, a) => WorkLowersRank(c, s, t, a);
    case Join => JoinLowersRank(c, s);
    case Last(z) => LastLowersRank(c, s, z);
    case Final(f) =>
  }

  lemma {:induction false} RankBudget(c: Config, s: State, labels: seq<Label>, u: State)
    requires c.Valid() && Inv(c, s) && Exec(c, s, labels, u)
    ensures |labels| <= Rank(s) - Rank(u)
    decreases |labels|
  {
    if labels != [] {
      var l, v := labels[0], Apply(c, s, labels[0]);
      StepLowersRank(c, s, l);
      StepKeepsInv(c, s, l);
      RankBudget(c, v, labels[1..], u);
    }
  }

  /** However the threads interleave and whatever the network does, a run has at most five steps per packet and seven
      more. */
  lemma RunsAreShort(c: Config, labels: seq<Label>, s: State)
    requires c.Valid() && Exec(c, Init(c), labels, s)
    ensures |labels| <= 5 * c.n + 7
  {
    var s0 := Init(c);
    InitInv(c);
    RankBudget(c, s0, labels, s);
    RankIsNonNegative(s);
    SumBounds(s0.status, PacketRank, 5, 5);
    SumBounds(s0.threads, ThreadRank, 0, 0);
  }

  /** A thread that is not idle can take a step: a deadline may pass, and a send fail or succeed, at any moment. */
  lemma BusyThreadMoves(c: Config, s: State, t: nat) returns (l: Label)
    requires c.Valid() && s.phase == Parallel && t < |s.threads| && s.threads[t].pc != Idle
    ensures Enabled(c, s, l)
  {
    match s.threads[t].pc
    case Entered(_) => l := Work(t, CheckWindow);
    case Draining(_, _) => l := Work(t, DrainEnd);
    case Ready(_) => l := Work(t, Send);
    case Failing => l := Work(t, SetExit);
  }

  lemma ParallelMoves(c: Config, s: State) returns (l: Label)
    requires c.Valid() && Inv(c, s) && s.phase == Parallel
    ensures Enabled(c, s, l)
  {
    if t :| 0 <= t < |s.threads| && s.threads[t].pc != Idle {
      l := BusyThreadMoves(c, s, t);
    } else if k :| 0 < k < |s.status| - 1 && s.status[k] == Todo {
      l := Take(0, k);
    } else {
      l := Join;
    }
  }

  /** Until the call has returned, it can go on; so no interleaving is a deadlock, and a run that cannot be
      continued has returned. */
  lemma NeverStuck(c: Config, s: State) returns (l: Label)
    requires c.Valid() && Reachable(c, s) && !s.phase.Returned?
    ensures Enabled(c, s, l)
  {
    ReachableInv(c, s);
    match s.phase
    case Start => l := Syn(SynSend);
    case SynWait => l := Syn(SynTimeout);
    case Parallel => l := ParallelMoves(c, s);
    case LastCheck(_) => l := Last(LastWindow);
    case LastDrain(_, _) => l := Last(LastDrainEnd);
    case LastReady(_) => l := Last(LastSend);
    case FinalDrain(_, _, _) => l := Final(FinalEnd);
  }

  /** A run that cannot be continued has returned, after at most that many steps. */
  lemma MaximalRunReturns(c: Config, labels: seq<Label>, s: State)
    requires c.Valid() && Exec(c, Init(c), labels, s) && forall l :: !Enabled(c, s, l)
    ensures s.phase.Returned? && |labels| <= 5 * c.n + 7
  {
    RunsAreShort(c, labels, s);
    if !s.phase.Returned? {
      var l := NeverStuck(c, s);
    }
  }

  // ---------------------------------------------------------------- what is returned

  /** A step that returns -3 or -2 is the failure to send the SYN, or the timeout of its acknowledgement. */
  lemma StepReturns(c: Config, s: State, l: Label)
    requires c.Valid() && Inv(c, s) && Enabled(c, s, l)
    ensures !s.phase.Returned?
    ensures Apply(c, s, l).phase == Returned(-3) <==> l == Syn(SynSendFails)
    ensures Apply(c, s, l).phase == Returned(-2) <==> l == Syn(SynTimeout)
    ensures Apply(c, s, l).phase.Returned? ==> -3 <= Apply(c, s, l).phase.ret <= 0
  {
    match l
    case Syn(y) =>
    case Take(t, k) =>
    case Work(t, a) => WorkStaysParallel(c, s, t, a);
    case Join =>
    case Last(z) =>
    case Final(f) =>
  }

  lemma {:induction false} RunReturns(c: Config, s: State, labels: seq<Label>, u: State)
    requires c.Valid() && Inv(c, s) && Exec(c, s, labels, u)
    ensures u.phase == Returned(-3) <==> s.phase == Returned(-3) || Syn(SynSendFails) in labels
    ensures u.phase == Returned(-2) <==> s.phase == Returned(-2) || Syn(SynTimeout) in labels
    ensures u.phase.Returned? && !s.phase.Returned? ==> -3 <= u.phase.ret <= 0
    decreases |labels|
  {
    if labels != [] {
      StepReturns(c, s, labels[0]);
      StepKeepsInv(c, s, labels[0]);
      RunReturns(c, Apply(c, s, labels[0]), labels[1..], u);
      if labels[1..] != [] {
        StepReturns(c, Apply(c, s, labels[0]), labels[1]);
      }
    }
  }

  /** The call returns -3 exactly if the SYN could not be sent, -2 exactly if its acknowledgement timed out, and
      otherwise 0 or -1. */
  lemma ReturnValues(c: Config, labels: seq<Label>, s: State)
    requires c.Valid() && Exec(c, Init(c), labels, s)
    ensures s.phase == Returned(-3) <==> Syn(SynSendFails) in labels
    ensures s.phase == Returned(-2) <==> Syn(SynTimeout) in labels
    ensures s.phase.Returned? ==> s.phase.ret in {0, -1, -2, -3}
  {
    InitInv(c);
    RunReturns(c, Init(c), labels, s);
  }

  // ---------------------------------------------------------------- getting credit back

  /** A draining thread can take m more acknowledgements, if so many packets are in flight and its share allows it. */
  lemma {:induction false} CanTake(c: Config, s: State, t: nat, m: nat) returns (labels: seq<Label>, u: State)
    requires c.Valid() && s.phase == Parallel && t < |s.threads| && s.threads[t].pc.Draining?
    requires m <= s.inflight && s.threads[t].pc.acked + m <= c.Limit()
    ensures Exec(c, s, labels, u) && |u.threads| == |s.threads| && u.phase == Parallel
    ensures u.threads[t] == s.threads[t].(pc := Draining(s.threads[t].pc.k, s.threads[t].pc.acked + m))
    decreases m
  {
    labels, u := [], s;
    if m > 0 {
      var l := Work(t, RecvAck);
      var rest;
      rest, u := CanTake(c, ApplyWork(c, s, t, RecvAck), t, m - 1);
      labels := [l] + rest;
      assert labels[1..] == rest;
    }
  }

  lemma {:induction false} ExecAppend(c: Config, s: State, labels: seq<Label>, u: State, l: Label)
    requires c.Valid() && Exec(c, s, labels, u) && Enabled(c, u, l)
    ensures Exec(c, s, labels + [l], Apply(c, u, l))
    decreases |labels|
  {
    if labels == [] {
      assert [l][1..] == [];
    } else {
      ExecAppend(c, Apply(c, s, labels[0]), labels[1..], u, l);
      assert (labels + [l])[1..] == labels[1..] + [l];
    }
  }

  /** A thread that has run out of credit can always get its whole share back, in one drain. */
  lemma CanRefill(c: Config, s: State, t: nat) returns (labels: seq<Label>, u: State)
    requires c.Valid() && c.AckAll() && Reachable(c, s) && s.phase == Parallel
    requires t < |s.threads| && s.threads[t].pc.Draining? && s.threads[t].pc.acked == 0
    ensures Exec(c, s, labels, u) && t < |u.threads| && u.threads[t].w == c.Limit() > 0 && u.threads[t].pc.Ready?
  {
    ReachableInv(c, s);
    assert ThreadOk(c, s.threads[t], s.exit, s.burnt);
    StarvedThread(c, s, t);
    labels, u := CanTake(c, s, t, c.Limit());
    ExecAppend(c, s, labels, u, Work(t, DrainEnd));
    labels, u := labels + [Work(t, DrainEnd)], ApplyWork(c, u, t, DrainEnd);
  }
}
