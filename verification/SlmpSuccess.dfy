/** When slmp_sendmsg can succeed at all: runs that do, for every way of sharing the loop out to the threads. */
module SlmpSuccess {
  import opened Sums
  import opened SlmpSender

  /** A run that gives iteration k of the loop to thread sched(k) and, if `clean`, in which no receive fails. */
  ghost predicate Path(c: Config, sched: nat -> nat, clean: bool, labels: seq<Label>, s: State)
    requires c.Valid()
  {
    Exec(c, Init(c), labels, s) && forall l | l in labels :: Allowed(sched, clean, l)
  }

  ghost predicate Allowed(sched: nat -> nat, clean: bool, l: Label) {
    (l.Take? ==> l.t == sched(l.k)) && (clean ==> ErrorFree(l))
  }

  ghost predicate OnPath(c: Config, sched: nat -> nat, clean: bool, s: State)
    requires c.Valid()
  {
    exists labels :: Path(c, sched, clean, labels, s)
  }

  lemma {:induction false} ExecThen(c: Config, s: State, labels: seq<Label>, t: State, l: Label)
    requires c.Valid() && Exec(c, s, labels, t) && Enabled(c, t, l)
    ensures Exec(c, s, labels + [l], Apply(c, t, l))
    decreases |labels|
  {
    if labels == [] {
      assert [l][1..] == [];
    } else {
      ExecThen(c, Apply(c, s, labels[0]), labels[1..], t, l);
      assert (labels + [l])[1..] == labels[1..] + [l];
    }
  }

  lemma Reach(c: Config, sched: nat -> nat, clean: bool, s: State, l: Label) returns (t: State)
    requires c.Valid() && OnPath(c, sched, clean, s) && Enabled(c, s, l) && Allowed(sched, clean, l)
    ensures t == Apply(c, s, l) && OnPath(c, sched, clean, t)
  {
    var labels :| Path(c, sched, clean, labels, s);
    ExecThen(c, Init(c), labels, s, l);
    t := Apply(c, s, l);
    assert Path(c, sched, clean, labels + [l], t);
  }

  lemma PathInv(c: Config, sched: nat -> nat, clean: bool, s: State)
    requires c.Valid() && OnPath(c, sched, clean, s)
    ensures Reachable(c, s) && Inv(c, s)
  {
    var labels :| Path(c, sched, clean, labels, s);
    ReachableInv(c, s);
  }

  /** Packets 1 to j-1 have been sent and nothing was lost; every thread is between two iterations. */
  ghost predicate Along(c: Config, sched: nat -> nat, clean: bool, s: State, j: nat)
    requires c.Valid()
  {
    && OnPath(c, sched, clean, s) && s.phase == Parallel && !s.exit
    && |s.threads| == c.threads && |s.status| == c.n
    && (forall t | 0 <= t < c.threads :: s.threads[t] == Thread(s.threads[t].w, Idle, 0))
    && (forall k | 0 <= k < c.n :: s.status[k] == if k < j then Sent else Todo)
    && s.burnt == s.silent == s.synOwed == 0
  }

  lemma AfterSyn(c: Config, sched: nat -> nat) returns (s: State)
    requires c.Valid()
    ensures Along(c, sched, true, s, 1)
    ensures s == Init(c).(phase := Parallel, status := Init(c).status[0 := Sent], log := [0], acks := 1)
  {
    assert Path(c, sched, true, [], Init(c));
    s := Reach(c, sched, true, Init(c), Syn(SynSend));
    s := Reach(c, sched, true, s, Syn(SynAck));
  }

  /** A thread that finds its window empty has something to wait for. */
  lemma Refill(c: Config, sched: nat -> nat, s: State, t: nat, k: nat) returns (u: State)
    requires c.Valid() && c.AckAll() && OnPath(c, sched, true, s) && s.phase == Parallel
    requires t < |s.threads| && s.threads[t] == Thread(0, Draining(k, 0), 0)
    ensures OnPath(c, sched, true, u)
    ensures u == s.(threads := s.threads[t := Thread(1, Ready(k), 0)], inflight := u.inflight, acks := u.acks)
  {
    PathInv(c, sched, true, s);
    StarvedThread(c, s, t);
    u := Reach(c, sched, true, s, Work(t, RecvAck));
    u := Reach(c, sched, true, u, Work(t, DrainEnd));
    assert u.threads == s.threads[t := Thread(1, Ready(k), 0)];
  }

  lemma SendNext(c: Config, sched: nat -> nat, s: State, j: nat) returns (u: State)
    requires c.Valid() && c.AckAll() && Along(c, sched, true, s, j) && 0 < j < c.n - 1 && sched(j) < c.threads
    ensures Along(c, sched, true, u, j + 1)
  {
    var t := sched(j);
    u := Reach(c, sched, true, s, Take(t, j));
    u := Reach(c, sched, true, u, Work(t, CheckWindow));
    if s.threads[t].w == 0 {
      u := Refill(c, sched, u, t, j);
    }
    u := Reach(c, sched, true, u, Work(t, Send));
  }

  lemma {:induction false} SendMiddle(c: Config, sched: nat -> nat, s: State, j: nat) returns (u: State)
    requires c.Valid() && c.AckAll() && Along(c, sched, true, s, j) && 0 < j < c.n && forall k :: sched(k) < c.threads
    ensures Along(c, sched, true, u, c.n - 1)
    decreases c.n - j
  {
    u := s;
    if j < c.n - 1 {
      u := SendNext(c, sched, s, j);
      u := SendMiddle(c, sched, u, j + 1);
    }
  }

  lemma {:induction false} DrainRest(c: Config, sched: nat -> nat, clean: bool, s: State) returns (u: State)
    requires c.Valid() && OnPath(c, sched, clean, s) && s.phase.FinalDrain? && s.phase.ret == 0
    requires s.inflight == c.Total() - s.phase.left - s.phase.got
    ensures OnPath(c, sched, clean, u) && u.phase == Returned(0) && u.acks == s.acks + s.inflight && u.log == s.log
    decreases s.inflight
  {
    if s.inflight == 0 {
      u := Reach(c, sched, clean, s, Final(FinalEnd));
    } else {
      u := Reach(c, sched, clean, s, Final(FinalAck));
      u := DrainRest(c, sched, clean, u);
    }
  }

  lemma JoinAlong(c: Config, sched: nat -> nat, s: State, j: nat) returns (u: State)
    requires c.Valid() && Along(c, sched, true, s, j) && j >= c.n - 1
    ensures OnPath(c, sched, true, u) && u.inflight == s.inflight && u.burnt == u.silent == u.synOwed == 0
    ensures u.phase == if c.n >= 2 then LastCheck(c.Total() - s.inflight) else FinalDrain(c.Total() - s.inflight, 0, 0)
  {
    u := Reach(c, sched, true, s, Join);
    SumBounds(s.threads, RetOf, 0, 0);
    PathInv(c, sched, true, u);
  }

  /** From the window check of the last packet to a return value of 0. */
  lemma FinishLast(c: Config, sched: nat -> nat, s: State) returns (u: State)
    requires c.Valid() && c.AckAll() && OnPath(c, sched, true, s) && s.phase == LastCheck(c.Total() - s.inflight)
    ensures OnPath(c, sched, true, u) && u.phase == Returned(0)
  {
    TotalPositive(c);
    u := Reach(c, sched, true, s, Last(LastWindow));
    if s.phase.left == 0 {
      u := Reach(c, sched, true, u, Last(LastAck));
      u := Reach(c, sched, true, u, Last(LastDrainEnd));
    }
    assert u.phase == LastReady(c.Total() - u.inflight);
    u := Reach(c, sched, true, u, Last(LastSend));
    u := DrainRest(c, sched, true, u);
  }

  lemma TotalPositive(c: Config)
    requires c.Valid() && c.AckAll()
    ensures c.Total() >= 1
  {
    LimitPositive(c);
  }

  lemma CleanSuccess(c: Config, sched: nat -> nat) returns (s: State)
    requires c.Valid() && (c.AckAll() || c.n == 1) && forall k :: sched(k) < c.threads
    ensures OnPath(c, sched, true, s) && s.phase == Returned(0)
  {
    s := AfterSyn(c, sched);
    if c.n == 1 {
      s := JoinAlong(c, sched, s, 1);
      s := DrainRest(c, sched, true, s);
    } else {
      s := SendMiddle(c, sched, s, 1);
      s := JoinAlong(c, sched, s, c.n - 1);
      s := FinishLast(c, sched, s);
    }
  }

  /** As long as no receive fails, slmp_sendmsg can return 0 exactly when the window is not 0 or the message fits
      one packet, however the iterations are shared out: with the documented "unlimited" window 0 every longer
      message fails. */
  lemma CleanSuccessIff(c: Config, sched: nat -> nat)
    requires c.Valid() && forall k :: sched(k) < c.threads
    ensures (exists s :: OnPath(c, sched, true, s) && s.phase == Returned(0)) <==> c.AckAll() || c.n == 1
  {
    if s :| OnPath(c, sched, true, s) && s.phase == Returned(0) {
      var labels :| Path(c, sched, true, labels, s);
      forall l | l in labels
        ensures l != Syn(SynError)
      {
        assert Allowed(sched, true, l);
      }
      ReturnsZero(c, labels, s);
    }
    if c.AckAll() || c.n == 1 {
      var s := CleanSuccess(c, sched);
    }
  }

  // ---------------------------------------------------------------- the error that counts as success

  lemma SynFails(c: Config, sched: nat -> nat) returns (s: State)
    requires c.Valid()
    ensures OnPath(c, sched, false, s)
            && s == Init(c).(phase := Parallel, status := s.status, log := [0], inflight := 1, synOwed := 1)
    ensures s.status == Init(c).status[0 := Sent]
  {
    assert Path(c, sched, false, [], Init(c));
    s := Reach(c, sched, false, Init(c), Syn(SynSend));
    s := Reach(c, sched, false, s, Syn(SynError));
  }

  lemma SendSilently(c: Config, sched: nat -> nat) returns (s: State)
    requires c.Valid() && !c.AckAll() && c.n == 3 && sched(1) < c.threads
    ensures OnPath(c, sched, false, s) && JoinEnabled(s) && s.inflight == s.synOwed == s.silent == 1
    ensures s.acks == 0 && |s.log| == 2 && forall th | th in s.threads :: th.ret == 0
  {
    s := SynFails(c, sched);
    var t := sched(1);
    s := Reach(c, sched, false, s, Take(t, 1));
    s := Reach(c, sched, false, s, Work(t, CheckWindow));
    s := Reach(c, sched, false, s, Work(t, Send));
  }

  /** With window 0, a message of three packets whose SYN wait fails returns 0: the SYN's late ACK is taken for that of
      the packet that asked for none, so two ACKs stand for three packets. */
  lemma SynErrorPays(c: Config, sched: nat -> nat) returns (s: State)
    requires c.Valid() && !c.AckAll() && c.n == 3 && sched(1) < c.threads
    ensures OnPath(c, sched, false, s) && s.phase == Returned(0) && s.acks == 2 && |s.log| == 3
  {
    NoWindowNoLimit(c);
    s := SendSilently(c, sched);
    SumBounds(s.threads, RetOf, 0, 0);
    s := Reach(c, sched, false, s, Join);
    PathInv(c, sched, false, s);
    assert s.phase == LastCheck(-1);
    s := Reach(c, sched, false, s, Last(LastWindow));
    s := Reach(c, sched, false, s, Last(LastSend));
    s := DrainRest(c, sched, false, s);
  }

  /** slmp_sendmsg can return 0 exactly when the window is not 0, or the message is one packet, or it is three
      packets and the wait for the SYN's ACK ends in an error; again however the iterations are shared out. */
  lemma CanSucceedIff(c: Config, sched: nat -> nat)
    requires c.Valid() && forall k :: sched(k) < c.threads
    ensures (exists s :: OnPath(c, sched, false, s) && s.phase == Returned(0)) <==> c.AckAll() || c.n == 1 || c.n == 3
    ensures (exists s :: Reachable(c, s) && s.phase == Returned(0)) <==> c.AckAll() || c.n == 1 || c.n == 3
  {
    if s :| Reachable(c, s) && s.phase == Returned(0) {
      var labels :| Exec(c, Init(c), labels, s);
      ReturnsZero(c, labels, s);
    }
    if s :| OnPath(c, sched, false, s) && s.phase == Returned(0) {
      PathInv(c, sched, false, s);
    }
    if c.AckAll() || c.n == 1 {
      var s := CleanSuccess(c, sched);
      var labels :| Path(c, sched, true, labels, s);
      assert Path(c, sched, false, labels, s);
      PathInv(c, sched, false, s);
    } else if c.n == 3 {
      var s := SynErrorPays(c, sched);
      PathInv(c, sched, false, s);
    }
  }

  /** One packet sent in the loop, with a window of one. */
  lemma OneSent(c: Config, sched: nat -> nat) returns (s: State)
    requires c == Config(1, 1, 4) && sched(1) == 0
    ensures OnPath(c, sched, false, s) && s.phase == Parallel && !s.exit && s.threads == [Thread(0, Idle, 0)]
    ensures s.status == [Sent, Sent, Todo, Todo] && s.burnt == s.silent == s.synOwed == 0 && s.inflight == 1
  {
    s := AfterSyn(c, sched);
    assert s.threads == [Thread(1, Idle, 0)] && s.status == [Sent, Todo, Todo, Todo];
    s := Reach(c, sched, true, s, Take(0, 1));
    s := Reach(c, sched, true, s, Work(0, CheckWindow));
    s := Reach(c, sched, true, s, Work(0, Send));
    var labels :| Path(c, sched, true, labels, s);
    assert Path(c, sched, false, labels, s);
  }

  /** One failed receive turns a window of 0 into -1. */
  lemma OneFails(c: Config, sched: nat -> nat) returns (s: State)
    requires c == Config(1, 1, 4) && sched(1) == sched(2) == 0
    ensures OnPath(c, sched, false, s) && s.phase == Parallel && s.threads == [Thread(-1, Ready(2), 0)]
    ensures s.status == [Sent, Sent, Held(0), Todo] && s.burnt == 1 && s.silent == s.synOwed == 0 && s.inflight == 1
  {
    s := OneSent(c, sched);
    s := Reach(c, sched, false, s, Take(0, 2));
    s := Reach(c, sched, false, s, Work(0, CheckWindow));
    s := Reach(c, sched, false, s, Work(0, DrainError(1)));
  }

  /** An error value does break the law of conservation. */
  lemma ErrorBreaksConservation() returns (c: Config, labels: seq<Label>, s: State)
    ensures c.Valid() && Exec(c, Init(c), labels, s) && s.phase == Parallel
    ensures |s.threads| == 1 && s.threads[0].w == -1 && !Conserved(c, s)
  {
    c := Config(1, 1, 4);
    var sched := (k: nat) => 0;
    s := OneFails(c, sched);
    labels :| Path(c, sched, false, labels, s);
    PathInv(c, sched, false, s);
  }

  /** And the thread then sends without waiting: with a window of one packet, two are in flight. */
  lemma ErrorOverrunsWindow() returns (c: Config, labels: seq<Label>, s: State)
    ensures c.Valid() && Exec(c, Init(c), labels, s) && c.wnd == c.threads == 1 && s.synOwed == 0
    ensures s.inflight == 2 == c.wnd + c.threads
  {
    c := Config(1, 1, 4);
    var sched := (k: nat) => 0;
    s := OneFails(c, sched);
    s := Reach(c, sched, false, s, Work(0, Send));
    labels :| Path(c, sched, false, labels, s);
  }
}
