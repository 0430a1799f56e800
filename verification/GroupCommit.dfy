/** Group commit (`WritePipeline::submit`, `drain_and_process` and `process_batch_group` in
    `src/write_worker.rs`) as a state machine over the steps of any number of threads, in any
    interleaving.  A thread stands for one call of `submit` and is named after its
    submission. */
module GroupCommit {
  import opened Seqs

  type Id = nat

  /** Where a call of `submit` stands. */
  datatype Pc =
    | NotStarted
    | Enqueued                                          // pushed, has not tried the CAS
    | Draining                                          // leader, about to look at the queue
    | Working(group: seq<Id>, n: nat, logged: bool)     // n done; `logged`: group[n] is in the WAL
    | Signalling(group: seq<Id>, n: nat, ok: bool)      // n of the group's completions signalled
    | Exiting                                           // leader that has seen the queue empty
    | Waiting                                           // waiting for its completion
    | Returned(ok: bool)

  /** Shared state, and histories: `arrived` and `taken` record the order of pushes and of
      removals from the queue; `late` and `missed` those who pushed, and those who lost the
      CAS, while the leader was between its last empty check and its release; `failed` the
      members of the groups whose processing failed. */
  datatype State = State(
    pc: map<Id, Pc>, queue: seq<Id>, committing: bool,
    wal: seq<Id>, mem: seq<Id>, result: map<Id, bool>,
    arrived: seq<Id>, taken: seq<Id>, late: set<Id>, missed: set<Id>, failed: set<Id>)

  datatype Event =
    | Push(i: Id) | CasWin(i: Id) | CasLose(i: Id)
    | Take(i: Id) | SeeEmpty(i: Id)
    | LogNext(i: Id) | InsertNext(i: Id) | Fail(i: Id) | Finish(i: Id)
    | Signal(i: Id) | NextRound(i: Id) | Release(i: Id) | Return(i: Id)

  predicate Leads(p: Pc) {
    p.Draining? || p.Working? || p.Signalling? || p.Exiting?
  }

  predicate AnyExiting(s: State) {
    exists i :: i in s.pc && s.pc[i].Exiting?
  }

  predicate Enabled(s: State, ev: Event) {
    ev.i in s.pc
    && var p := s.pc[ev.i];
       match ev
       case Push(i) => p.NotStarted?
       case CasWin(i) => p.Enqueued? && !s.committing
       case CasLose(i) => p.Enqueued? && s.committing
       case Take(i) => p.Draining? && s.queue != []
       case SeeEmpty(i) => p.Draining? && s.queue == []
       case LogNext(i) => p.Working? && !p.logged && p.n < |p.group|
       case InsertNext(i) => p.Working? && p.logged && p.n < |p.group|
       case Fail(i) => p.Working? && !p.logged && p.n <= |p.group|
       case Finish(i) => p.Working? && !p.logged && p.n == |p.group|
       case Signal(i) => p.Signalling? && p.n < |p.group|
       case NextRound(i) => p.Signalling? && p.n == |p.group|
       case Release(i) => p.Exiting?
       case Return(i) => p.Waiting? && i in s.result
  }

  function Fire(s: State, ev: Event): State
    requires Enabled(s, ev)
  {
    var p := s.pc[ev.i];
    match ev
    case Push(i) =>
      s.(pc := s.pc[i := Enqueued], queue := s.queue + [i], arrived := s.arrived + [i],
         late := if AnyExiting(s) then s.late + {i} else s.late)
    case CasWin(i) => s.(pc := s.pc[i := Draining], committing := true)
    case CasLose(i) =>
      s.(pc := s.pc[i := Waiting], missed := if AnyExiting(s) then s.missed + {i} else s.missed)
    case Take(i) =>
      s.(pc := s.pc[i := Working(s.queue, 0, false)], queue := [], taken := s.taken + s.queue)
    case SeeEmpty(i) => s.(pc := s.pc[i := Exiting])
    case LogNext(i) => s.(pc := s.pc[i := p.(logged := true)], wal := s.wal + [p.group[p.n]])
    case InsertNext(i) =>
      s.(pc := s.pc[i := Working(p.group, p.n + 1, false)], mem := s.mem + [p.group[p.n]])
    case Fail(i) => s.(pc := s.pc[i := Signalling(p.group, 0, false)], failed := s.failed + (set x | x in p.group))
    case Finish(i) => s.(pc := s.pc[i := Signalling(p.group, 0, true)])
    case Signal(i) =>
      s.(pc := s.pc[i := p.(n := p.n + 1)], result := s.result[p.group[p.n] := p.ok])
    case NextRound(i) => s.(pc := s.pc[i := Draining])
    case Release(i) => s.(pc := s.pc[i := Waiting], committing := false)
    case Return(i) => s.(pc := s.pc[i := Returned(s.result[i])])
  }

  // ---------------------------------------------------------------- the invariant

  /** Taken from the queue and not yet signalled. */
  predicate InFlight(s: State, x: Id) {
    exists i :: i in s.pc && Holds(s.pc[i], x)
  }

  predicate Holds(p: Pc, x: Id) {
    (p.Working? && x in p.group) || (p.Signalling? && p.n <= |p.group| && x in p.group[p.n..])
  }

  /** At most one leader, and the flag tells whether there is one. */
  ghost predicate OneLeader(s: State) {
    && (forall i, j :: i in s.pc && j in s.pc && Leads(s.pc[i]) && Leads(s.pc[j]) ==> i == j)
    && (forall i :: i in s.pc && Leads(s.pc[i]) ==> s.committing)
    && (s.committing ==> exists i :: i in s.pc && Leads(s.pc[i]))
  }

  /** A submission that has been pushed is in exactly one of queued, in flight or done; one
      that has not is in none of them. */
  ghost predicate Placed(s: State, x: Id)
    requires x in s.pc
  {
    if s.pc[x].NotStarted? then x !in s.queue && !InFlight(s, x) && x !in s.result
    else
      (x in s.queue || InFlight(s, x) || x in s.result)
      && !(x in s.queue && InFlight(s, x)) && !(x in s.queue && x in s.result)
      && !(InFlight(s, x) && x in s.result)
  }

  ghost predicate ExactlyOne(s: State) {
    forall x :: x in s.pc ==> Placed(s, x)
  }

  ghost predicate KnownIds(s: State) {
    && Distinct(s.queue) && (forall x :: x in s.queue ==> x in s.pc)
    && (forall x :: x in s.result ==> x in s.pc)
    && (forall i :: i in s.pc && (s.pc[i].Working? || s.pc[i].Signalling?) ==> KnownGroup(s, s.pc[i]))
  }

  ghost predicate KnownGroup(s: State, p: Pc)
    requires p.Working? || p.Signalling?
  {
    Distinct(p.group) && (forall x :: x in p.group ==> x in s.pc) && p.n <= |p.group|
  }

  /** Queue order is arrival order; each submission is removed from the queue once. */
  ghost predicate QueueOrder(s: State) {
    && s.arrived == s.taken + s.queue && Distinct(s.arrived)
    && (forall x :: x in s.arrived ==> x in s.pc && !s.pc[x].NotStarted?)
  }

  function Among(wal: seq<Id>): Id -> bool {
    x => x in wal
  }

  /** The log is a subsequence of the queue order, and the memtable follows the log. */
  ghost predicate LogOrder(s: State) {
    && s.wal == Keep(s.taken, Among(s.wal)) && (forall x :: x in s.wal ==> x in s.taken)
    && (forall i :: i in s.pc && s.pc[i].Working? ==> WorkingOk(s, s.pc[i]))
    && ((forall i :: i in s.pc ==> !HalfDone(s.pc[i])) ==> s.mem == s.wal)
  }

  predicate HalfDone(p: Pc) {
    p.Working? && p.logged
  }

  /** The group being worked on is the last thing taken; its first n are in log and memtable,
      a logged one is in the log only, the rest in neither. */
  ghost predicate GroupOk(taken: seq<Id>, wal: seq<Id>, mem: seq<Id>, group: seq<Id>, n: nat, logged: bool) {
    && n <= |group| && |group| <= |taken| && taken[|taken| - |group|..] == group
    && (logged ==> n < |group| && wal != [] && wal[|wal| - 1] == group[n] && mem == wal[..|wal| - 1])
    && (!logged ==> mem == wal)
    && (forall k :: 0 <= k < n ==> group[k] in wal && group[k] in mem)
    && (forall k :: (if logged then n + 1 else n) <= k < |group| ==> group[k] !in wal)
  }

  ghost predicate WorkingOk(s: State, p: Pc)
    requires p.Working?
  {
    GroupOk(s.taken, s.wal, s.mem, p.group, p.n, p.logged)
  }

  /** Ok is signalled and returned only for what is in log and memtable. */
  ghost predicate OkMeansWritten(s: State) {
    DoneWritten(s) && SignalledWritten(s) && ReturnedDone(s)
  }

  ghost predicate DoneWritten(s: State) {
    forall x :: x in s.result && s.result[x] ==> x in s.wal && x in s.mem
  }

  ghost predicate SignalledWritten(s: State) {
    forall i :: i in s.pc && s.pc[i].Signalling? && s.pc[i].ok ==> AllWritten(s, s.pc[i].group)
  }

  ghost predicate AllWritten(s: State, group: seq<Id>) {
    forall x :: x in group ==> x in s.wal && x in s.mem
  }

  ghost predicate ReturnedDone(s: State) {
    forall i :: i in s.pc && s.pc[i].Returned? ==> i in s.result && s.result[i] == s.pc[i].ok
  }

  /** A leader that has seen the queue empty finds its own submission done. */
  ghost predicate LeaderDone(s: State) {
    forall i :: i in s.pc && s.pc[i].Exiting? ==> i in s.result
  }

  /** Who may sit in the queue while nobody is going to look at it again. */
  ghost predicate LeftBehind(s: State) {
    && (!s.committing || AnyExiting(s) ==>
          forall x :: x in s.queue ==>
            x in s.pc && (s.pc[x].Enqueued? || (s.pc[x].Waiting? && x in s.late && x in s.missed)))
    && (AnyExiting(s) ==> forall x :: x in s.queue ==> x in s.late)
    && (forall x :: x in s.queue ==> x in s.pc && !s.pc[x].Returned? && !s.pc[x].NotStarted?)
  }

  /** What is signalled: Ok to a group that was processed, an error to one that failed. */
  ghost predicate Verdicts(s: State) {
    && (forall x :: x in s.failed ==> x in s.taken)
    && (forall x :: x in s.result ==> (s.result[x] <==> x !in s.failed))
    && (forall i :: i in s.pc ==> VerdictOk(s.failed, s.pc[i]))
  }

  predicate VerdictOk(failed: set<Id>, p: Pc) {
    && (p.Working? ==> forall x :: x in p.group ==> x !in failed)
    && (p.Signalling? ==> forall x :: x in p.group ==> (p.ok <==> x !in failed))
  }

  ghost predicate Inv(s: State) {
    OneLeader(s) && KnownIds(s) && ExactlyOne(s) && QueueOrder(s) && LogOrder(s)
    && OkMeansWritten(s) && LeaderDone(s) && LeftBehind(s) && Verdicts(s)
  }

  ghost predicate Init(s: State) {
    (forall i :: i in s.pc ==> s.pc[i].NotStarted?)
    && s == State(s.pc, [], false, [], [], map[], [], [], {}, {}, {})
  }

  lemma InitInv(s: State)
    requires Init(s)
    ensures Inv(s)
  {}

  // ---------------------------------------------------------------- every step keeps it

  lemma KeepsOneLeader(s: State, ev: Event)
    requires OneLeader(s) && Enabled(s, ev)
    ensures OneLeader(Fire(s, ev))
  {
    var s' := Fire(s, ev);
    if s.committing && s'.committing {
      var l :| l in s.pc && Leads(s.pc[l]);
      assert Leads(s'.pc[l]);
    }
    if ev.CasWin? { assert Leads(s'.pc[ev.i]); }
  }

  lemma KeepsKnownIds(s: State, ev: Event)
    requires KnownIds(s) && ExactlyOne(s) && Enabled(s, ev)
    ensures KnownIds(Fire(s, ev))
  {
    hide InFlight, AnyExiting;
    var s' := Fire(s, ev);
    assert Distinct(s'.queue) && forall x :: x in s'.queue ==> x in s'.pc by {
      assert ev.Push? ==> Placed(s, ev.i);
    }
    hide ExactlyOne, Distinct;
    forall i | i in s'.pc && (s'.pc[i].Working? || s'.pc[i].Signalling?) ensures KnownGroup(s', s'.pc[i]) {
      if i == ev.i { OwnGroupKnown(s, ev); }
    }
  }

  lemma OwnGroupKnown(s: State, ev: Event)
    requires KnownIds(s) && Enabled(s, ev)
    ensures var p := Fire(s, ev).pc[ev.i];
            (p.Working? || p.Signalling?) ==> KnownGroup(Fire(s, ev), p)
  {
    hide AnyExiting, Distinct;
    var p := s.pc[ev.i];
    assert (p.Working? || p.Signalling?) ==> KnownGroup(s, p);
  }

  /** In flight means held by the leader. */
  lemma FlightOfLeader(s: State, l: Id, x: Id)
    requires OneLeader(s) && l in s.pc && Leads(s.pc[l])
    ensures InFlight(s, x) <==> Holds(s.pc[l], x)
  {}

  lemma NoLeaderNoFlight(s: State, x: Id)
    requires OneLeader(s) && !s.committing
    ensures !InFlight(s, x)
  {}

  /** What a step does to the set of submissions in flight. */
  lemma FlightStep(s: State, ev: Event, x: Id)
    requires OneLeader(s) && KnownIds(s) && Enabled(s, ev)
    ensures InFlight(Fire(s, ev), x) <==>
            match ev
            case Take(_) => x in s.queue
            case Signal(l) => InFlight(s, x) && x != s.pc[l].group[s.pc[l].n]
            case _ => InFlight(s, x)
    ensures ev.Take? ==> !InFlight(s, x)
  {
    var s', p := Fire(s, ev), s.pc[ev.i];
    assert ev.Signal? ==> KnownGroup(s, p);
    hide AnyExiting, KnownIds, OneLeader, InFlight;
    assert OneLeader(s') by { KeepsOneLeader(s, ev); }
    if Leads(p) {
      FlightOfLeader(s, ev.i, x);
      if Leads(s'.pc[ev.i]) { FlightOfLeader(s', ev.i, x); } else { NoLeaderNoFlight(s', x); }
      if ev.Signal? {
        assert p.group[p.n..] == [p.group[p.n]] + p.group[p.n + 1..];
      }
    } else {
      FlightOfOthers(s, s', ev.i, x);
    }
  }

  lemma FlightOfOthers(s: State, s': State, i: Id, x: Id)
    requires i in s.pc && i in s'.pc && s'.pc == s.pc[i := s'.pc[i]] && !Holds(s.pc[i], x) && !Holds(s'.pc[i], x)
    ensures InFlight(s', x) <==> InFlight(s, x)
  {
    hide Holds;
    if InFlight(s, x) {
      var j :| j in s.pc && Holds(s.pc[j], x);
      assert j in s'.pc && Holds(s'.pc[j], x);
    }
    if InFlight(s', x) {
      var j :| j in s'.pc && Holds(s'.pc[j], x);
      assert j in s.pc && Holds(s.pc[j], x);
    }
  }

  lemma KeepsExactlyOne(s: State, ev: Event)
    requires OneLeader(s) && KnownIds(s) && ExactlyOne(s) && Enabled(s, ev)
    ensures ExactlyOne(Fire(s, ev))
  {
    hide InFlight, OneLeader, KnownIds, AnyExiting;
    var s' := Fire(s, ev);
    forall x | x in s'.pc ensures Placed(s', x) {
      FlightStep(s, ev, x);
      assert Placed(s, x);
      if ev.Signal? { SignalHolds(s, ev.i); }
    }
  }

  /** The submission about to be signalled is in flight. */
  lemma SignalHolds(s: State, l: Id)
    requires Enabled(s, Signal(l))
    ensures s.pc[l].group[s.pc[l].n] in s.pc[l].group
    ensures InFlight(s, s.pc[l].group[s.pc[l].n])
  {
    var p := s.pc[l];
    assert p.group[p.n..][0] == p.group[p.n];
    assert Holds(p, p.group[p.n]);
  }

  lemma KeepsQueueOrder(s: State, ev: Event)
    requires QueueOrder(s) && Enabled(s, ev)
    ensures QueueOrder(Fire(s, ev))
  {
    hide AnyExiting;
    var s' := Fire(s, ev);
    if ev.Push? {
      assert ev.i !in s.arrived;
      assert s.arrived + [ev.i] == s.taken + (s.queue + [ev.i]);
    } else if ev.Take? {
      assert s.taken + s.queue + [] == s.arrived;
    }
  }

  /** Logging the next submission extends the log in queue order. */
  lemma LogNextOrder(taken: seq<Id>, wal: seq<Id>, m: nat)
    requires wal == Keep(taken, Among(wal)) && Distinct(taken) && m < |taken|
    requires forall k :: m <= k < |taken| ==> taken[k] !in wal
    ensures Keep(taken, Among(wal + [taken[m]])) == wal + [taken[m]]
  {
    hide Keep;
    var x, before, after := taken[m], taken[..m], taken[m + 1..];
    var f, g := Among(wal), Among(wal + [x]);
    assert taken == (before + [x]) + after;
    forall i | 0 <= i < |after| ensures !f(after[i]) && !g(after[i]) { assert after[i] == taken[m + 1 + i]; }
    forall i | 0 <= i < |before| ensures f(before[i]) == g(before[i]) { assert before[i] == taken[i]; }
    KeepAppend(before + [x], after, f);
    KeepAppend(before + [x], after, g);
    KeepNone(after, f);
    KeepNone(after, g);
    KeepSnoc(before, x, f);
    KeepSnoc(before, x, g);
    KeepCongruent(before, f, g);
  }

  lemma TakeKeepsLog(taken: seq<Id>, queue: seq<Id>, wal: seq<Id>)
    requires wal == Keep(taken, Among(wal)) && Distinct(taken + queue) && forall x :: x in wal ==> x in taken
    ensures Keep(taken + queue, Among(wal)) == wal
    ensures forall x :: x in queue ==> x !in wal
  {
    hide Keep;
    forall x | x in queue ensures x !in taken {
      var j :| 0 <= j < |queue| && queue[j] == x;
      assert (taken + queue)[|taken| + j] == x;
      assert forall i :: 0 <= i < |taken| ==> (taken + queue)[i] == taken[i];
    }
    assert forall j :: 0 <= j < |queue| ==> queue[j] in queue;
    KeepAppend(taken, queue, Among(wal));
    KeepNone(queue, Among(wal));
  }

  /** Nobody else leads. */
  ghost predicate SoleLeader(s: State, l: Id) {
    l in s.pc && forall i :: i in s.pc && i != l ==> !Leads(s.pc[i])
  }

  /** The log order, seen from the only thread that can be working. */
  ghost predicate LogOrderAt(s: State, l: Id)
    requires l in s.pc
  {
    && s.wal == Keep(s.taken, Among(s.wal)) && (forall x :: x in s.wal ==> x in s.taken)
    && (s.pc[l].Working? ==> WorkingOk(s, s.pc[l]))
    && (!HalfDone(s.pc[l]) ==> s.mem == s.wal)
  }

  lemma LogOrderLocal(s: State, l: Id)
    requires SoleLeader(s, l)
    ensures LogOrder(s) <==> LogOrderAt(s, l)
  {
    hide Keep, WorkingOk;
  }

  /** A thread before and after the step that nobody else leads beside; a step of a thread
      that does not lead leaves its work alone. */
  lemma FindLeader(s: State, ev: Event) returns (l: Id, l': Id)
    requires OneLeader(s) && Enabled(s, ev)
    ensures l in s.pc && l' in s.pc && SoleLeader(s, l) && SoleLeader(Fire(s, ev), l')
    ensures Leads(s.pc[ev.i]) ==> l == l' == ev.i
    ensures !Leads(s.pc[ev.i]) && Fire(s, ev).pc[l'].Working? ==> l == l' && Fire(s, ev).pc[l] == s.pc[l]
    ensures !Leads(s.pc[ev.i]) && s.pc[l].Working? ==> l == l' && Fire(s, ev).pc[l] == s.pc[l]
  {
    hide AnyExiting;
    if s.committing {
      l :| l in s.pc && Leads(s.pc[l]);
      l' := l;
    } else {
      l, l' := ev.i, ev.i;
    }
  }

  lemma KeepsLogOrder(s: State, ev: Event)
    requires OneLeader(s) && QueueOrder(s) && LogOrder(s) && Enabled(s, ev)
    ensures LogOrder(Fire(s, ev))
  {
    hide AnyExiting, Keep, WorkingOk, LogOrder, QueueOrder, OneLeader, SoleLeader;
    var l, l' := FindLeader(s, ev);
    var s' := Fire(s, ev);
    LogOrderLocal(s, l);
    if Leads(s.pc[ev.i]) {
      LeaderKeepsLogOrder(s, ev);
    } else {
      assert s'.wal == s.wal && s'.mem == s.mem && s'.taken == s.taken;
      if s.pc[l].Working? { WorkingStable(s, s', s.pc[l]); }
    }
    LogOrderLocal(s', l');
  }

  lemma WorkingStable(s: State, s': State, p: Pc)
    requires p.Working? && WorkingOk(s, p) && s'.wal == s.wal && s'.mem == s.mem && s'.taken == s.taken
    ensures WorkingOk(s', p)
  {}

  lemma LeaderKeepsLogOrder(s: State, ev: Event)
    requires QueueOrder(s) && Enabled(s, ev) && Leads(s.pc[ev.i]) && LogOrderAt(s, ev.i)
    ensures LogOrderAt(Fire(s, ev), ev.i)
  {
    hide AnyExiting, Keep, QueueOrder;
    match ev {
      case Take(i) => TakeKeeps(s, i);
      case LogNext(i) => LogNextKeeps(s, i);
      case InsertNext(i) => InsertNextKeeps(s, i);
      case _ => hide WorkingOk;
    }
  }

  lemma TakeKeeps(s: State, l: Id)
    requires QueueOrder(s) && Enabled(s, Take(l)) && LogOrderAt(s, l)
    ensures LogOrderAt(Fire(s, Take(l)), l)
  {
    hide Keep;
    var s' := Fire(s, Take(l));
    TakeKeepsLog(s.taken, s.queue, s.wal);
    assert s'.taken[|s'.taken| - |s.queue|..] == s.queue;
    assert forall k :: 0 <= k < |s.queue| ==> s.queue[k] in s.queue;
  }

  lemma InsertNextKeeps(s: State, l: Id)
    requires Enabled(s, InsertNext(l)) && LogOrderAt(s, l)
    ensures LogOrderAt(Fire(s, InsertNext(l)), l)
  {
    hide Keep;
    var s' := Fire(s, InsertNext(l));
    assert s'.mem == s.wal[..|s.wal| - 1] + [s.wal[|s.wal| - 1]] == s.wal;
  }

  lemma LogNextKeeps(s: State, l: Id)
    requires QueueOrder(s) && Enabled(s, LogNext(l)) && LogOrderAt(s, l)
    ensures LogOrderAt(Fire(s, LogNext(l)), l)
  {
    hide Keep, GroupOk;
    var p := s.pc[l];
    assert Distinct(s.taken) by {
      assert forall k :: 0 <= k < |s.taken| ==> s.taken[k] == s.arrived[k];
    }
    LogNextGroup(s.taken, s.wal, s.mem, p.group, p.n);
  }

  lemma LogNextGroup(taken: seq<Id>, wal: seq<Id>, mem: seq<Id>, group: seq<Id>, n: nat)
    requires GroupOk(taken, wal, mem, group, n, false) && n < |group| && Distinct(taken)
    requires wal == Keep(taken, Among(wal)) && forall x :: x in wal ==> x in taken
    ensures GroupOk(taken, wal + [group[n]], mem, group, n, true)
    ensures wal + [group[n]] == Keep(taken, Among(wal + [group[n]]))
    ensures forall x :: x in wal + [group[n]] ==> x in taken
  {
    hide Keep;
    var m := |taken| - |group| + n;
    LastGroup(taken, group);
    LogNextOrder(taken, wal, m);
    assert group[n] == taken[m] && taken[m] in taken;
    assert (wal + [group[n]])[..|wal|] == wal;
    forall k | n + 1 <= k < |group| ensures group[k] !in wal + [group[n]] {
      assert taken[|taken| - |group| + k] != taken[m];
    }
  }

  /** The group sits at the end of what has been taken. */
  lemma LastGroup(taken: seq<Id>, group: seq<Id>)
    requires |group| <= |taken| && taken[|taken| - |group|..] == group
    ensures forall k :: |taken| - |group| <= k < |taken| ==> taken[k] == group[k - (|taken| - |group|)]
    ensures forall k :: 0 <= k < |group| ==> taken[|taken| - |group| + k] == group[k]
  {
    var base := |taken| - |group|;
    assert forall k :: base <= k < |taken| ==> taken[k] == taken[base..][k - base];
  }

  lemma KeepsOkMeansWritten(s: State, ev: Event)
    requires KnownIds(s) && ExactlyOne(s) && LogOrder(s) && OkMeansWritten(s) && Enabled(s, ev)
    ensures OkMeansWritten(Fire(s, ev))
  {
    hide AnyExiting, LogOrder, ExactlyOne, KnownIds, DoneWritten, SignalledWritten, ReturnedDone;
    KeepsDoneWritten(s, ev);
    KeepsSignalledWritten(s, ev);
    KeepsReturnedDone(s, ev);
  }

  lemma KeepsDoneWritten(s: State, ev: Event)
    requires DoneWritten(s) && SignalledWritten(s) && Enabled(s, ev)
    ensures DoneWritten(Fire(s, ev))
  {
    hide AnyExiting;
    var s', p := Fire(s, ev), s.pc[ev.i];
    if ev.Signal? && p.ok {
      assert AllWritten(s, p.group) && p.group[p.n] in p.group;
    }
  }

  lemma KeepsSignalledWritten(s: State, ev: Event)
    requires LogOrder(s) && SignalledWritten(s) && Enabled(s, ev)
    ensures SignalledWritten(Fire(s, ev))
  {
    hide AnyExiting, LogOrder, AllWritten;
    var s' := Fire(s, ev);
    forall i | i in s'.pc && s'.pc[i].Signalling? && s'.pc[i].ok ensures AllWritten(s', s'.pc[i].group) {
      if ev == Finish(i) {
        FinishedWritten(s, i);
      } else {
        assert s.pc[i].Signalling? && s'.pc[i].group == s.pc[i].group;
      }
      WrittenStays(s, ev, s'.pc[i].group);
    }
  }

  lemma WrittenStays(s: State, ev: Event, group: seq<Id>)
    requires Enabled(s, ev) && AllWritten(s, group)
    ensures AllWritten(Fire(s, ev), group)
  {
    hide AnyExiting;
  }

  lemma KeepsReturnedDone(s: State, ev: Event)
    requires KnownIds(s) && ExactlyOne(s) && ReturnedDone(s) && Enabled(s, ev)
    ensures ReturnedDone(Fire(s, ev))
  {
    hide AnyExiting, InFlight, ExactlyOne, KnownIds;
    if ev.Signal? { SignalledOnce(s, ev.i); }
  }

  /** The submission about to be signalled is not done yet. */
  lemma SignalledOnce(s: State, l: Id)
    requires KnownIds(s) && ExactlyOne(s) && Enabled(s, Signal(l))
    ensures s.pc[l].group[s.pc[l].n] !in s.result
  {
    hide InFlight;
    SignalHolds(s, l);
    assert KnownGroup(s, s.pc[l]);
    assert Placed(s, s.pc[l].group[s.pc[l].n]);
  }

  lemma FinishedWritten(s: State, l: Id)
    requires LogOrder(s) && Enabled(s, Finish(l))
    ensures AllWritten(s, s.pc[l].group)
  {
    hide Keep;
    var p := s.pc[l];
    assert WorkingOk(s, p);
    forall x | x in p.group ensures x in s.wal && x in s.mem {
      var k :| 0 <= k < |p.group| && p.group[k] == x;
    }
  }

  lemma KeepsLeaderDone(s: State, ev: Event)
    requires OneLeader(s) && ExactlyOne(s) && LeaderDone(s) && Enabled(s, ev)
    ensures LeaderDone(Fire(s, ev))
  {
    if ev.SeeEmpty? {
      FlightOfLeader(s, ev.i, ev.i);
      assert Placed(s, ev.i);
    }
  }

  lemma KeepsLeftBehind(s: State, ev: Event)
    requires OneLeader(s) && KnownIds(s) && ExactlyOne(s) && LeftBehind(s) && Enabled(s, ev)
    ensures LeftBehind(Fire(s, ev))
  {
    ExitingStep(s, ev);
    hide AnyExiting, InFlight, KnownIds, OneLeader;
    var s' := Fire(s, ev);
    assert ev.Return? ==> Placed(s, ev.i);
    hide ExactlyOne;
    forall x | x in s'.queue ensures x in s'.pc && !s'.pc[x].Returned? && !s'.pc[x].NotStarted? {}
    if AnyExiting(s') { forall x | x in s'.queue ensures x in s'.late {} }
    if !s'.committing || AnyExiting(s') {
      forall x | x in s'.queue
        ensures s'.pc[x].Enqueued? || (s'.pc[x].Waiting? && x in s'.late && x in s'.missed) {}
    }
  }

  lemma ExitingStep(s: State, ev: Event)
    requires OneLeader(s) && Enabled(s, ev)
    ensures AnyExiting(s) ==> s.committing && !ev.CasWin? && (Leads(s.pc[ev.i]) ==> ev.Release?)
    ensures AnyExiting(Fire(s, ev)) <==> ev.SeeEmpty? || (AnyExiting(s) && !ev.Release?)
  {
    var s' := Fire(s, ev);
    if AnyExiting(s) {
      var l :| l in s.pc && s.pc[l].Exiting?;
      assert Leads(s.pc[l]);
      assert l != ev.i ==> s'.pc[l].Exiting?;
    }
    if ev.SeeEmpty? { assert s'.pc[ev.i].Exiting?; }
  }

  lemma KeepsVerdicts(s: State, ev: Event)
    requires OneLeader(s) && KnownIds(s) && ExactlyOne(s) && QueueOrder(s) && LogOrder(s) && Verdicts(s)
    requires Enabled(s, ev)
    ensures Verdicts(Fire(s, ev))
  {
    hide AnyExiting, InFlight, OneLeader, KnownIds, ExactlyOne, QueueOrder, LogOrder;
    var s' := Fire(s, ev);
    if ev.Take? {
      NewlyTaken(s, ev.i);
    } else if ev.Fail? {
      FailKeepsVerdicts(s, ev.i);
    } else if ev.Signal? {
      assert s.pc[ev.i].group[s.pc[ev.i].n] in s.pc[ev.i].group;
    }
  }

  /** What is in the queue has not been taken before. */
  lemma NewlyTaken(s: State, l: Id)
    requires QueueOrder(s) && Verdicts(s) && Enabled(s, Take(l))
    ensures forall x :: x in s.queue ==> x !in s.failed
  {
    hide VerdictOk;
    forall x | x in s.queue ensures x !in s.taken {
      var j :| 0 <= j < |s.queue| && s.queue[j] == x;
      assert s.arrived[|s.taken| + j] == x;
      assert forall i :: 0 <= i < |s.taken| ==> s.arrived[i] == s.taken[i];
    }
  }

  lemma GroupTaken(taken: seq<Id>, group: seq<Id>)
    requires |group| <= |taken| && taken[|taken| - |group|..] == group
    ensures forall x :: x in group ==> x in taken
  {
    assert taken == taken[..|taken| - |group|] + group;
  }

  lemma FailKeepsVerdicts(s: State, l: Id)
    requires OneLeader(s) && KnownIds(s) && ExactlyOne(s) && LogOrder(s) && Verdicts(s) && Enabled(s, Fail(l))
    ensures Verdicts(Fire(s, Fail(l)))
  {
    hide AnyExiting, Keep;
    var s', p := Fire(s, Fail(l)), s.pc[l];
    assert KnownGroup(s, p) && WorkingOk(s, p);
    hide LogOrder, KnownIds;
    GroupTaken(s.taken, p.group);
    forall x | x in p.group ensures x !in s.result {
      assert Holds(p, x) && InFlight(s, x) && x in s.pc && Placed(s, x);
    }
    forall i | i in s'.pc ensures VerdictOk(s'.failed, s'.pc[i]) {
      if i != l { assert !Leads(s.pc[i]); }
    }
  }

  /** Every step of every thread keeps the whole invariant. */
  lemma StepKeeps(s: State, ev: Event)
    requires Inv(s) && Enabled(s, ev)
    ensures Inv(Fire(s, ev))
  {
    hide OneLeader, KnownIds, ExactlyOne, QueueOrder, LogOrder, OkMeansWritten, LeaderDone, LeftBehind, Verdicts,
         Enabled, Fire;
    KeepsOneLeader(s, ev);
    KeepsKnownIds(s, ev);
    KeepsExactlyOne(s, ev);
    KeepsQueueOrder(s, ev);
    KeepsLogOrder(s, ev);
    KeepsOkMeansWritten(s, ev);
    KeepsLeaderDone(s, ev);
    KeepsLeftBehind(s, ev);
    KeepsVerdicts(s, ev);
  }

  // ---------------------------------------------------------------- whole runs

  /** The events happen one after the other from s. */
  ghost predicate IsRun(s: State, evs: seq<Event>)
    decreases |evs|
  {
    evs == [] || (Enabled(s, evs[0]) && IsRun(Fire(s, evs[0]), evs[1..]))
  }

  ghost function After(s: State, evs: seq<Event>): State
    requires IsRun(s, evs)
    decreases |evs|
  {
    if evs == [] then s else After(Fire(s, evs[0]), evs[1..])
  }

  lemma {:induction false} RunKeeps(s: State, evs: seq<Event>)
    requires Inv(s) && IsRun(s, evs)
    ensures Inv(After(s, evs))
    decreases |evs|
  {
    hide Inv, Fire, Enabled;
    if evs != [] {
      StepKeeps(s, evs[0]);
      RunKeeps(Fire(s, evs[0]), evs[1..]);
    }
  }

  /** Group commit is safe for any number of threads and any interleaving of their steps:
      one leader at most; each pushed submission in exactly one of queued, in flight and done;
      Ok returned only for what is in log and memtable, and to everybody whose group did not
      fail; log order follows queue order, and the
      memtable is the log, except for the one entry that a leader is between logging and
      inserting; a leader that has drained the queue finds its own submission done. */
  lemma SafeOverRuns(init: State, evs: seq<Event>)
    requires Init(init) && IsRun(init, evs)
    ensures var s := After(init, evs);
            && (forall i, j :: i in s.pc && j in s.pc && Leads(s.pc[i]) && Leads(s.pc[j]) ==> i == j)
            && (forall x :: x in s.pc ==> Placed(s, x))
            && (forall i :: i in s.pc && s.pc[i] == Returned(true) ==> i in s.wal && i in s.mem)
            && (forall x :: x in s.result ==> (s.result[x] <==> x !in s.failed))
            && s.arrived == s.taken + s.queue && Distinct(s.arrived)
            && s.wal == Keep(s.taken, Among(s.wal))
            && (s.mem == s.wal || (s.wal != [] && s.mem == s.wal[..|s.wal| - 1]))
            && (forall i :: i in s.pc && s.pc[i].Exiting? ==> i in s.result)
  {
    hide Keep, AnyExiting, InFlight;
    InitInv(init);
    RunKeeps(init, evs);
    var s := After(init, evs);
    if i :| i in s.pc && HalfDone(s.pc[i]) {
      assert WorkingOk(s, s.pc[i]);
    }
  }

  /** A call returns Ok exactly when the group it was processed in did not fail; and so, while no
      group has failed, every call that returns returns Ok. */
  lemma OkExactly(init: State, evs: seq<Event>, x: Id)
    requires Init(init) && IsRun(init, evs)
    ensures var s := After(init, evs);
            && (x in s.result ==> (s.result[x] <==> x !in s.failed))
            && (x in s.pc && s.pc[x].Returned? ==> (s.pc[x].ok <==> x !in s.failed))
            && ((forall i :: Fail(i) !in evs) ==> s.failed == {})
  {
    hide OneLeader, KnownIds, ExactlyOne, QueueOrder, LogOrder, LeaderDone, LeftBehind, DoneWritten, SignalledWritten,
         Enabled, Fire;
    InitInv(init);
    RunKeeps(init, evs);
    if forall i :: Fail(i) !in evs { NoneFailed(init, evs); }
  }

  lemma {:induction false} NoneFailed(s: State, evs: seq<Event>)
    requires IsRun(s, evs) && forall i :: Fail(i) !in evs
    ensures After(s, evs).failed == s.failed
    decreases |evs|
  {
    hide Enabled, AnyExiting;
    if evs != [] {
      assert evs[0] in evs && forall i :: Fail(i) !in evs[1..];
      NoneFailed(Fire(s, evs[0]), evs[1..]);
    }
  }

  /** A leader takes everything that is queued, in the order of arrival, in one group. */
  lemma TakesAll(s: State, i: Id)
    requires QueueOrder(s) && Enabled(s, Take(i))
    ensures Fire(s, Take(i)).queue == [] && Fire(s, Take(i)).taken == s.arrived
    ensures Fire(s, Take(i)).pc[i].Working? && s.taken + Fire(s, Take(i)).pc[i].group == s.arrived
  {}

  /** A failure fails exactly the group that was being processed. */
  lemma FailsItsGroup(s: State, i: Id)
    requires Enabled(s, Fail(i))
    ensures forall x :: x in Fire(s, Fail(i)).failed <==> x in s.failed || x in s.pc[i].group
  {}

  /** Each submission is logged at most once and inserted at most once. */
  lemma ProcessedOnce(init: State, evs: seq<Event>)
    requires Init(init) && IsRun(init, evs)
    ensures Distinct(After(init, evs).wal) && Distinct(After(init, evs).mem)
  {
    hide Keep, AnyExiting, InFlight, Placed;
    SafeOverRuns(init, evs);
    var s := After(init, evs);
    assert Distinct(s.taken) by {
      assert forall k :: 0 <= k < |s.taken| ==> s.taken[k] == s.arrived[k];
    }
    KeepDistinct(s.taken, Among(s.wal));
  }

  lemma {:induction false} KeepDistinct(s: seq<Id>, test: Id -> bool)
    requires Distinct(s)
    ensures Distinct(Keep(s, test))
  {
    if s != [] {
      var n := |s| - 1;
      KeepDistinct(s[..n], test);
      KeepMembers(s[..n], test);
    }
  }

  // ---------------------------------------------------------------- who can be left behind

  /** With no leader, a queued submission has an owner that has not tried the CAS yet, or that
      pushed after the leader's last empty check and lost the CAS before the release. */
  lemma StrandedOnlyInWindow(init: State, evs: seq<Event>, x: Id)
    requires Init(init) && IsRun(init, evs)
    requires x in After(init, evs).queue && !After(init, evs).committing
    ensures var s := After(init, evs);
            x in s.pc && (s.pc[x].Enqueued? || (s.pc[x].Waiting? && x in s.late && x in s.missed))
  {
    InitInv(init);
    RunKeeps(init, evs);
  }

  /** Nothing can happen any more in a reachable state exactly when every call has returned or
      is one of those: started calls that wait are then all queued, and were all pushed and
      turned away inside the window. */
  lemma StuckExactly(init: State, evs: seq<Event>)
    requires Init(init) && IsRun(init, evs)
    ensures var s := After(init, evs);
            (forall ev :: !Enabled(s, ev)) <==>
            !s.committing && forall i :: i in s.pc ==>
              s.pc[i].Returned? || (s.pc[i].Waiting? && i in s.queue && i in s.late && i in s.missed)
  {
    hide AnyExiting, LogOrder, OkMeansWritten, QueueOrder, InFlight;
    InitInv(init);
    RunKeeps(init, evs);
    var s := After(init, evs);
    if forall ev :: !Enabled(s, ev) {
      NobodyLeads(s);
      forall i | i in s.pc
        ensures s.pc[i].Returned? || (s.pc[i].Waiting? && i in s.queue && i in s.late && i in s.missed)
      {
        assert !Enabled(s, Push(i)) && !Enabled(s, CasWin(i)) && !Enabled(s, Return(i));
        assert Placed(s, i);
        NoLeaderNoFlight(s, i);
      }
    } else {
      var ev :| Enabled(s, ev);
      if !s.committing { assert Placed(s, ev.i); }
    }
  }

  /** A leader can always move. */
  lemma LeaderMoves(s: State, l: Id) returns (ev: Event)
    requires KnownIds(s) && LogOrder(s) && l in s.pc && Leads(s.pc[l])
    ensures Enabled(s, ev)
  {
    hide Keep, AnyExiting, Distinct;
    match s.pc[l] {
      case Draining => ev := if s.queue == [] then SeeEmpty(l) else Take(l);
      case Working(group, n, logged) =>
        assert WorkingOk(s, s.pc[l]);
        ev := if logged then InsertNext(l) else Fail(l);
      case Signalling(group, n, ok) =>
        assert KnownGroup(s, s.pc[l]);
        ev := if n < |group| then Signal(l) else NextRound(l);
      case Exiting => ev := Release(l);
    }
  }

  lemma NobodyLeads(s: State)
    requires OneLeader(s) && KnownIds(s) && LogOrder(s) && forall ev :: !Enabled(s, ev)
    ensures !s.committing
  {
    hide KnownIds, LogOrder, Enabled;
    if s.committing {
      var l :| l in s.pc && Leads(s.pc[l]);
      var ev := LeaderMoves(s, l);
    }
  }

  /** Such a state is reachable with two threads, so progress does not hold: the second call
      waits for ever on a submission that nobody will take. */
  lemma LostWakeup()
    ensures exists init, evs ::
              Init(init) && IsRun(init, evs)
              && (forall ev :: !Enabled(After(init, evs), ev))
              && 2 in After(init, evs).pc && After(init, evs).pc[2].Waiting?
  {
    hide Enabled, Fire;
    var s0 := State(map[1 := NotStarted, 2 := NotStarted], [], false, [], [], map[], [], [], {}, {}, {});
    var a, s1 := FirstRound(s0);
    var b, s2 := SecondHalf(s1);
    var c, s3 := TurnedAway(s2);
    Concat(s0, a, b);
    Concat(s0, a + b, c);
    assert Init(s0) && After(s0, a + b + c) == s3;
  }

  /** The first thread leads and works on its own submission. */
  lemma FirstRound(s: State) returns (evs: seq<Event>, s': State)
    requires s == State(map[1 := NotStarted, 2 := NotStarted], [], false, [], [], map[], [], [], {}, {}, {})
    ensures IsRun(s, evs) && s' == After(s, evs)
    ensures s' == State(map[1 := Working([1], 1, false), 2 := NotStarted],
                        [], true, [1], [1], map[], [1], [1], {}, {}, {})
  {
    var first, c := TakeOwn(s);
    var d := Fire(c, LogNext(1));
    s' := Fire(d, InsertNext(1));
    assert s'.pc == map[1 := Working([1], 1, false), 2 := NotStarted];
    assert s'.wal == [1] && s'.mem == [1];
    hide Fire, Enabled;
    evs := [InsertNext(1)];
    evs := Prepend(c, LogNext(1), evs);
    Concat(s, first, evs);
    evs := first + evs;
  }

  lemma TakeOwn(s: State) returns (evs: seq<Event>, s': State)
    requires s == State(map[1 := NotStarted, 2 := NotStarted], [], false, [], [], map[], [], [], {}, {}, {})
    ensures IsRun(s, evs) && s' == After(s, evs)
    ensures s' == State(map[1 := Working([1], 0, false), 2 := NotStarted],
                        [], true, [], [], map[], [1], [1], {}, {}, {})
  {
    assert !AnyExiting(s);
    var a := Fire(s, Push(1));
    assert a.queue == [1] && a.arrived == [1] && a.late == {};
    var b := Fire(a, CasWin(1));
    s' := Fire(b, Take(1));
    assert s'.pc == map[1 := Working([1], 0, false), 2 := NotStarted] && s'.taken == [1];
    hide Fire, Enabled;
    evs := [Take(1)];
    evs := Prepend(a, CasWin(1), evs);
    evs := Prepend(s, Push(1), evs);
  }

  /** It signals itself and sees the queue empty. */
  lemma SecondHalf(s: State) returns (evs: seq<Event>, s': State)
    requires s == State(map[1 := Working([1], 1, false), 2 := NotStarted],
                        [], true, [1], [1], map[], [1], [1], {}, {}, {})
    ensures IsRun(s, evs) && s' == After(s, evs)
    ensures s' == State(map[1 := Exiting, 2 := NotStarted], [], true, [1], [1], map[1 := true], [1], [1], {}, {}, {})
  {
    var a := Fire(s, Finish(1));
    var b := Fire(a, Signal(1));
    var c := Fire(b, NextRound(1));
    s' := Fire(c, SeeEmpty(1));
    hide Fire, Enabled;
    evs := [SeeEmpty(1)];
    evs := Prepend(b, NextRound(1), evs);
    evs := Prepend(a, Signal(1), evs);
    evs := Prepend(s, Finish(1), evs);
  }

  /** The second thread pushes and is turned away before the release. */
  lemma TurnedAway(s: State) returns (evs: seq<Event>, s': State)
    requires s == State(map[1 := Exiting, 2 := NotStarted], [], true, [1], [1], map[1 := true], [1], [1], {}, {}, {})
    ensures IsRun(s, evs) && s' == After(s, evs)
    ensures 2 in s'.pc && s'.pc[2].Waiting? && forall ev :: !Enabled(s', ev)
  {
    assert 1 in s.pc && s.pc[1].Exiting? && AnyExiting(s);
    var a := Fire(s, Push(2));
    var b := Fire(a, CasLose(2));
    var c := Fire(b, Release(1));
    s' := Fire(c, Return(1));
    assert s'.pc == map[1 := Returned(true), 2 := Waiting] && s'.result == map[1 := true];
    assert forall ev :: !Enabled(s', ev);
    hide Fire, Enabled;
    evs := [Return(1)];
    evs := Prepend(b, Release(1), evs);
    evs := Prepend(a, CasLose(2), evs);
    evs := Prepend(s, Push(2), evs);
  }

  lemma Prepend(s: State, ev: Event, evs: seq<Event>) returns (all: seq<Event>)
    requires Enabled(s, ev) && IsRun(Fire(s, ev), evs)
    ensures IsRun(s, all) && After(s, all) == After(Fire(s, ev), evs)
  {
    hide Fire, Enabled;
    all := [ev] + evs;
    assert all[1..] == evs;
  }

  lemma {:induction false} Concat(s: State, a: seq<Event>, b: seq<Event>)
    requires IsRun(s, a) && IsRun(After(s, a), b)
    ensures IsRun(s, a + b) && After(s, a + b) == After(After(s, a), b)
    decreases |a|
  {
    hide Enabled, Fire;
    if a == [] {
      assert a + b == b;
    } else {
      assert (a + b)[0] == a[0] && (a + b)[1..] == a[1..] + b;
      Concat(Fire(s, a[0]), a[1..], b);
    }
  }
}
