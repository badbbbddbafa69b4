/**
  The process queue and the life of a process (stuos/src/scheduling.rs,
  stuos/src/processes.rs, stuos/src/syscall_handlers.rs) as a state machine: what the
  running process asks for, and one round of the scheduling loop at a time.
 */
module Scheduling {
  import opened Options

  type Pid = int

  datatype ChildType = WithPgrp(pgrp: Pid) | Any | PgrpIsMyPgrp | WithPid(pid: Pid)

  /** `wait`'s reading of its argument. */
  function FromPid(pid: Pid): ChildType {
    if pid == -1 then Any else if pid == 0 then PgrpIsMyPgrp else if pid > 0 then WithPid(pid) else WithPgrp(-pid)
  }

  /** Which children a wait accepts. For a process group the source compares the child's own pid. */
  predicate IsValid(t: ChildType, myPgrp: Pid, candidate: Pid, candidatePgrp: Pid) {
    match t
    case WithPgrp(x) => x == candidate
    case Any => true
    case PgrpIsMyPgrp => myPgrp == candidatePgrp
    case WithPid(x) => x == candidate
  }

  datatype WaitingState =
    | WaitingRead(fd: nat, numBytes: nat)
    | WaitingChild(childType: ChildType, statusPtr: nat)
    | AmZombie(exitCode: nat)

  /** What an ELF file or a fork gives a process to start from. */
  datatype LoadedProgram = LoadedProgram(heapStart: nat, pageTableRoot: nat, initialState: nat)

  datatype Process = Process(heapStart: nat, pageTableRoot: nat, pgrp: Pid, ppid: Pid, paused: nat,
                             waiting: Option<WaitingState>)

  function Create(p: LoadedProgram): Process {
    Process(p.heapStart, p.pageTableRoot, 1, 0, p.initialState, None)
  }

  function CreateWithParent(p: LoadedProgram, parent: Process, parentPid: Pid): Process {
    Process(p.heapStart, p.pageTableRoot, parent.pgrp, parentPid, p.initialState, None)
  }

  function ReplacedBy(was: Process, p: LoadedProgram): Process {
    Process(p.heapStart, p.pageTableRoot, was.pgrp, was.ppid, p.initialState, None)
  }

  /** What polling a process comes to. */
  datatype Outcome = Idle | StartUserland(state: nat) | GotInput | Reaped(child: Pid, exitCode: nat)

  /** The queue and the processes; `running` while the front process executes in userland. */
  datatype Sched = Sched(processes: map<Pid, Process>, order: seq<Pid>, nextFreePid: Pid, running: bool) {

    ghost predicate Ok() {
      && (forall i :: 0 <= i < |order| ==> order[i] in processes)
      && (forall p :: p in processes ==> p in order)
      && (forall i, j :: 0 <= i < j < |order| ==> order[i] != order[j])
      && 1 <= nextFreePid
      && (forall p :: p in processes ==> 1 <= p < nextFreePid && processes[p].ppid < p)
      && (running ==> order != [] && processes[order[0]].waiting.None?)
    }

    /** A zombie child that process `me`, waiting for `t`, may take. */
    predicate Takes(me: Pid, t: ChildType, child: Pid) {
      && me in processes && child in processes && processes[child].ppid == me
      && IsValid(t, processes[me].pgrp, child, processes[child].pgrp)
      && processes[child].waiting.Some? && processes[child].waiting.value.AmZombie?
    }

    /** What polling `me` can come to; whether input is there is up to the device. */
    ghost predicate Polls(me: Pid, o: Outcome) {
      && me in processes
      && match processes[me].waiting
         case None => o == StartUserland(processes[me].paused)
         case Some(WaitingRead(_, _)) => o == Idle || o == GotInput
         case Some(WaitingChild(t, _)) =>
           if o.Reaped? then Takes(me, t, o.child) && processes[o.child].waiting.value == AmZombie(o.exitCode)
           else o == Idle && forall c :: !Takes(me, t, c)
         case Some(AmZombie(_)) => o == Idle
    }

    function SetWaiting(p: Pid, w: Option<WaitingState>): map<Pid, Process>
      requires p in processes
    {
      processes[p := processes[p].(waiting := w)]
    }
  }

  function Rotated(order: seq<Pid>): seq<Pid>
    requires order != []
  {
    order[1..] + [order[0]]
  }

  /** Element `i` goes; the last one takes its place. */
  function SwapRemoveBack(order: seq<Pid>, i: nat): seq<Pid>
    requires i < |order|
  {
    order[i := order[|order| - 1]][..|order| - 1]
  }

  function IndexOf(order: seq<Pid>, p: Pid): (i: nat)
    requires p in order
    ensures i < |order| && order[i] == p && forall j :: 0 <= j < i ==> order[j] != p
  {
    if order[0] == p then 0 else 1 + IndexOf(order[1..], p)
  }

  datatype Event =
    | Added(program: LoadedProgram)
    | Halted(exitCode: nat)
    | Waited(childType: ChildType, statusPtr: nat, state: nat)
    | AskedToRead(fd: nat, numBytes: nat, state: nat)
    | Interrupted(state: nat)
    | Replaced(program: LoadedProgram)
    | Round(me: Pid, outcome: Outcome)

  ghost predicate Enabled(s: Sched, e: Event) {
    match e
    case Added(_) => s.running || s.order == []
    case Round(me, o) => !s.running && s.order != [] && me == Rotated(s.order)[0] && s.Polls(me, o)
    case _ => s.running
  }

  function Next(s: Sched, e: Event): Sched
    requires s.Ok() && Enabled(s, e)
  {
    match e
    case Added(p) =>
      var added := if s.order == [] then Create(p) else CreateWithParent(p, s.processes[s.order[0]], s.order[0]);
      Sched(s.processes[s.nextFreePid := added], s.order + [s.nextFreePid], s.nextFreePid + 1, s.running)
    case Halted(code) =>
      s.(processes := s.SetWaiting(s.order[0], Some(AmZombie(code))), running := false)
    case Waited(t, ptr, state) => Suspended(s, state, Some(WaitingChild(t, ptr)))
    case AskedToRead(fd, n, state) => Suspended(s, state, Some(WaitingRead(fd, n)))
    case Interrupted(state) => Suspended(s, state, None)
    case Replaced(p) =>
      s.(processes := s.processes[s.order[0] := ReplacedBy(s.processes[s.order[0]], p)], running := false)
    case Round(me, o) => AfterRound(s, me, o)
  }

  /** The running process saves its registers and leaves userland. */
  function Suspended(s: Sched, state: nat, w: Option<WaitingState>): Sched
    requires s.Ok() && s.running
  {
    var me := s.order[0];
    s.(processes := s.processes[me := s.processes[me].(paused := state, waiting := w)], running := false)
  }

  function AfterRound(s: Sched, me: Pid, o: Outcome): Sched
    requires s.Ok() && s.order != [] && me == Rotated(s.order)[0] && s.Polls(me, o)
  {
    var order := Rotated(s.order);
    match o
    case Idle => s.(order := order)
    case StartUserland(_) => s.(order := order, running := true)
    case GotInput => s.(order := order, processes := s.SetWaiting(me, None))
    case Reaped(child, _) =>
      assert child in order by { InRotated(s.order, child); }
      s.(order := SwapRemoveBack(order, IndexOf(order, child)), processes := s.SetWaiting(me, None) - {child})
  }

  lemma InRotated(order: seq<Pid>, p: Pid)
    requires order != []
    ensures p in order <==> p in Rotated(order)
  {
    if p in order {
      var i :| 0 <= i < |order| && order[i] == p;
      assert Rotated(order)[if i == 0 then |order| - 1 else i - 1] == p;
    }
  }

  // --- The invariant ---

  /** Both lists of live processes agree, each pid is listed once, and the running process waits for nothing. */
  lemma NextOk(s: Sched, e: Event)
    requires s.Ok() && Enabled(s, e)
    ensures Next(s, e).Ok()
  {
    match e
    case Added(_) =>
    case Halted(_) => CurrentChanged(s, s.processes[s.order[0]].(waiting := Some(AmZombie(e.exitCode))));
    case Waited(t, ptr, state) =>
      CurrentChanged(s, s.processes[s.order[0]].(paused := state, waiting := Some(WaitingChild(t, ptr))));
    case AskedToRead(fd, n, state) =>
      CurrentChanged(s, s.processes[s.order[0]].(paused := state, waiting := Some(WaitingRead(fd, n))));
    case Interrupted(state) => CurrentChanged(s, s.processes[s.order[0]].(paused := state, waiting := None));
    case Replaced(p) => CurrentChanged(s, ReplacedBy(s.processes[s.order[0]], p));
    case Round(me, o) => RoundOk(s, me, o);
  }

  lemma CurrentChanged(s: Sched, p: Process)
    requires s.Ok() && s.order != [] && p.ppid == s.processes[s.order[0]].ppid
    ensures s.(processes := s.processes[s.order[0] := p], running := false).Ok()
  {
  }

  lemma RotatedOk(s: Sched)
    requires s.Ok() && s.order != [] && !s.running
    ensures s.(order := Rotated(s.order)).Ok()
  {
    forall p | p in s.processes
      ensures p in Rotated(s.order)
    {
      InRotated(s.order, p);
    }
  }

  lemma RoundOk(s: Sched, me: Pid, o: Outcome)
    requires s.Ok() && !s.running && s.order != [] && me == Rotated(s.order)[0] && s.Polls(me, o)
    ensures AfterRound(s, me, o).Ok()
  {
    RotatedOk(s);
    if o.Reaped? {
      InRotated(s.order, o.child);
      ReapOk(s.(order := Rotated(s.order)), me, o.child);
    }
  }

  /** What a swap-remove leaves, and where. */
  lemma SwapRemoved(order: seq<Pid>, i: nat)
    requires i < |order| && forall a, b :: 0 <= a < b < |order| ==> order[a] != order[b]
    ensures var r := SwapRemoveBack(order, i);
            && |r| == |order| - 1
            && (forall k :: 0 <= k < |r| ==> r[k] == if k == i then order[|order| - 1] else order[k])
            && (forall p :: p in r <==> p in order && p != order[i])
            && (forall a, b :: 0 <= a < b < |r| ==> r[a] != r[b])
  {
    var r, last := SwapRemoveBack(order, i), |order| - 1;
    assert forall k :: 0 <= k < last ==> r[k] == if k == i then order[last] else order[k];
    forall p | p in order && p != order[i]
      ensures p in r
    {
      var k :| 0 <= k < |order| && order[k] == p;
      assert r[if k == last then i else k] == p;
    }
  }

  lemma ReapOk(s: Sched, me: Pid, child: Pid)
    requires s.Ok() && !s.running && s.order != [] && me == s.order[0] && child in s.processes
             && s.processes[child].ppid == me
    ensures child in s.order && child != me
    ensures Sched(s.SetWaiting(me, None) - {child}, SwapRemoveBack(s.order, IndexOf(s.order, child)),
                  s.nextFreePid, false).Ok()
  {
    hide SwapRemoveBack, IndexOf;
    SwapRemoved(s.order, IndexOf(s.order, child));
  }

  // --- Whole runs ---

  ghost predicate Trace(s: Sched, evs: seq<Event>)
    decreases |evs|
  {
    s.Ok() && (evs == [] || (Enabled(s, evs[0]) && Trace(Next(s, evs[0]), evs[1..])))
  }

  function End(s: Sched, evs: seq<Event>): Sched
    requires Trace(s, evs)
    decreases |evs|
  {
    if evs == [] then s else End(Next(s, evs[0]), evs[1..])
  }

  lemma {:induction false} TraceThen(s: Sched, evs: seq<Event>, e: Event)
    requires Trace(s, evs) && Enabled(End(s, evs), e)
    ensures End(s, evs).Ok()
    ensures Trace(s, evs + [e]) && End(s, evs + [e]) == Next(End(s, evs), e)
    decreases |evs|
  {
    hide Sched.Ok, Enabled, Next;
    if evs == [] {
      NextOk(s, e);
      assert evs + [e] == [e] && [e][1..] == [];
    } else {
      TraceThen(Next(s, evs[0]), evs[1..], e);
      assert (evs + [e])[0] == evs[0] && (evs + [e])[1..] == evs[1..] + [e];
    }
  }

  /** The invariant holds at the end of every run. */
  lemma {:induction false} EndOk(s: Sched, evs: seq<Event>)
    requires Trace(s, evs)
    ensures End(s, evs).Ok() && s.nextFreePid <= End(s, evs).nextFreePid
    decreases |evs|
  {
    hide Sched.Ok, Enabled;
    if evs != [] {
      EndOk(Next(s, evs[0]), evs[1..]);
    }
  }

  // --- Pids ---

  /** One step gives no pid back that was already handed out. */
  lemma StepPids(s: Sched, e: Event, p: Pid)
    requires s.Ok() && Enabled(s, e) && p < s.nextFreePid
    ensures p !in s.processes ==> p !in Next(s, e).processes
    ensures p < Next(s, e).nextFreePid
  {
  }

  /** A pid that is gone never comes back. */
  lemma {:induction false} PidNeverReused(s: Sched, evs: seq<Event>, p: Pid)
    requires Trace(s, evs) && p < s.nextFreePid && p !in s.processes
    ensures p !in End(s, evs).processes && p !in End(s, evs).order
    decreases |evs|
  {
    hide Enabled, Next;
    if evs != [] {
      StepPids(s, evs[0], p);
      PidNeverReused(Next(s, evs[0]), evs[1..], p);
    }
  }

  // --- Fairness ---

  function Rounds(evs: seq<Event>): nat
    decreases |evs|
  {
    if evs == [] then 0 else (if evs[0].Round? then 1 else 0) + Rounds(evs[1..])
  }

  /** Within its first `k` rounds the run polls `p`, unless it reaps it. */
  ghost predicate PolledWithin(evs: seq<Event>, p: Pid, k: nat)
    decreases |evs|
  {
    && evs != []
    && match evs[0]
       case Round(me, o) => k > 0 && (me == p || (o.Reaped? && o.child == p) || PolledWithin(evs[1..], p, k - 1))
       case _ => PolledWithin(evs[1..], p, k)
  }

  lemma IndexIs(order: seq<Pid>, i: nat)
    requires i < |order| && forall a, b :: 0 <= a < b < |order| ==> order[a] != order[b]
    ensures IndexOf(order, order[i]) == i
  {
    var j := IndexOf(order, order[i]);
    assert order[j] == order[i];
  }

  lemma RoundPosition(s: Sched, me: Pid, o: Outcome, p: Pid)
    requires s.Ok() && !s.running && s.order != [] && me == Rotated(s.order)[0] && s.Polls(me, o)
    requires p in s.order && 0 < IndexOf(s.order, p) && !(o.Reaped? && o.child == p)
    ensures var order := AfterRound(s, me, o).order; p in order && IndexOf(order, p) == IndexOf(s.order, p) - 1
  {
    hide IndexOf, SwapRemoveBack, Sched.SetWaiting;
    var k, order := IndexOf(s.order, p), Rotated(s.order);
    RotatedOk(s);
    assert order[k - 1] == p;
    if o.Reaped? {
      InRotated(s.order, o.child);
      SwapRemoved(order, IndexOf(order, o.child));
      IndexIs(SwapRemoveBack(order, IndexOf(order, o.child)), k - 1);
    } else {
      IndexIs(order, k - 1);
    }
  }

  /** A round brings every process behind the front exactly one place forward; nothing else moves anyone. */
  lemma StepPosition(s: Sched, e: Event, p: Pid)
    requires s.Ok() && Enabled(s, e) && p in s.order && (e.Round? ==> 0 < IndexOf(s.order, p))
    requires !(e.Round? && e.outcome.Reaped? && e.outcome.child == p)
    ensures p in Next(s, e).order
    ensures IndexOf(Next(s, e).order, p) == if e.Round? then IndexOf(s.order, p) - 1 else IndexOf(s.order, p)
  {
    hide IndexOf, SwapRemoveBack, AfterRound;
    if e.Round? {
      RoundPosition(s, e.me, e.outcome, p);
    } else {
      NextOk(s, e);
      assert Next(s, e).order[IndexOf(s.order, p)] == p;
      IndexIs(Next(s, e).order, IndexOf(s.order, p));
    }
  }

  lemma FrontAfterRound(s: Sched, e: Event, p: Pid)
    requires s.Ok() && Enabled(s, e) && e.Round? && p in s.order && IndexOf(s.order, p) == 1
    ensures e.me == p
  {
  }

  /** A process at position `k` is polled within `k` rounds, whatever forks and reaps happen in between. */
  lemma {:induction false} PolledInTurn(s: Sched, evs: seq<Event>, p: Pid)
    requires Trace(s, evs) && p in s.order && 0 < IndexOf(s.order, p) <= Rounds(evs)
    ensures PolledWithin(evs, p, IndexOf(s.order, p))
    decreases |evs|
  {
    hide IndexOf, Enabled, Next, Sched.Ok;
    var k, e := IndexOf(s.order, p), evs[0];
    if e.Round? && (e.me == p || (e.outcome.Reaped? && e.outcome.child == p)) {
    } else {
      if e.Round? && k == 1 {
        FrontAfterRound(s, e, p);
      }
      StepPosition(s, e, p);
      PolledInTurn(Next(s, e), evs[1..], p);
    }
  }

  /** How many processes are added before the first round. */
  function EarlyForks(evs: seq<Event>): nat
    decreases |evs|
  {
    if evs == [] || evs[0].Round? then 0 else (if evs[0].Added? then 1 else 0) + EarlyForks(evs[1..])
  }

  lemma {:induction false} PolledSooner(evs: seq<Event>, p: Pid, j: nat, k: nat)
    requires PolledWithin(evs, p, j) && j <= k
    ensures PolledWithin(evs, p, k)
    decreases |evs|
  {
    match evs[0]
    case Round(me, o) =>
      if me != p && !(o.Reaped? && o.child == p) {
        PolledSooner(evs[1..], p, j - 1, k - 1);
      }
    case _ => PolledSooner(evs[1..], p, j, k);
  }

  /** The first round puts the front process behind others, but never back to the front. */
  lemma FrontGoesBack(s: Sched, me: Pid, o: Outcome, p: Pid)
    requires s.Ok() && !s.running && s.order != [] && me == Rotated(s.order)[0] && s.Polls(me, o)
    requires p == s.order[0] && me != p && !(o.Reaped? && o.child == p)
    ensures var order := AfterRound(s, me, o).order; p in order && 0 < IndexOf(order, p) < |s.order|
  {
    hide IndexOf, SwapRemoveBack, Sched.SetWaiting;
    var order := Rotated(s.order);
    RotatedOk(s);
    assert order[|order| - 1] == p;
    if o.Reaped? {
      InRotated(s.order, o.child);
      var i := IndexOf(order, o.child);
      SwapRemoved(order, i);
      IndexIs(SwapRemoveBack(order, i), i);
    } else {
      IndexIs(order, |order| - 1);
    }
  }

  /** Whatever is not a round leaves everyone's place, and makes the queue longer by a process added. */
  lemma StepQueue(s: Sched, e: Event, p: Pid)
    requires s.Ok() && Enabled(s, e) && !e.Round? && p in s.order
    ensures p in Next(s, e).order && |Next(s, e).order| == |s.order| + if e.Added? then 1 else 0
  {
  }

  /**
    No live process starves, the running one included: it is polled or reaped within as many
    rounds as there are processes once the first round starts.
   */
  lemma {:induction false} EveryonePolled(s: Sched, evs: seq<Event>, p: Pid)
    requires Trace(s, evs) && p in s.processes && |s.order| + EarlyForks(evs) <= Rounds(evs)
    ensures PolledWithin(evs, p, |s.order| + EarlyForks(evs))
    decreases |evs|
  {
    hide IndexOf, Enabled, Next, SwapRemoveBack, AfterRound;
    var e := evs[0];
    if !e.Round? {
      StepQueue(s, e, p);
      NextOk(s, e);
      EveryonePolled(Next(s, e), evs[1..], p);
    } else if 0 < IndexOf(s.order, p) {
      PolledInTurn(s, evs, p);
      PolledSooner(evs, p, IndexOf(s.order, p), |s.order|);
    } else if e.me != p && !(e.outcome.Reaped? && e.outcome.child == p) {
      RoundIs(s, e);
      FrontGoesBack(s, e.me, e.outcome, p);
      PolledInTurn(Next(s, e), evs[1..], p);
      PolledSooner(evs[1..], p, IndexOf(Next(s, e).order, p), |s.order| - 1);
    }
  }

  lemma RoundIs(s: Sched, e: Event)
    requires s.Ok() && Enabled(s, e) && e.Round?
    ensures !s.running && s.order != [] && e.me == Rotated(s.order)[0] && s.Polls(e.me, e.outcome)
    ensures Next(s, e) == AfterRound(s, e.me, e.outcome)
  {
  }

  /** Processes that the running one adds before it leaves the front do count: here one round is not enough. */
  lemma ForksPushBack(s: Sched, program: LoadedProgram)
    requires s.Ok() && s.running && |s.order| == 1
    ensures var evs := ForkThenYield(program, s.nextFreePid);
            Trace(s, evs) && Rounds(evs) == |s.order| && !PolledWithin(evs, s.order[0], |s.order|)
  {
    var a, b, c := Added(program), Interrupted(0), Round(s.nextFreePid, StartUserland(program.initialState));
    var s1 := Next(s, a);
    NextOk(s, a);
    var s2 := Next(s1, b);
    NextOk(s1, b);
    assert s2.order == [s.order[0], s.nextFreePid] && Rotated(s2.order) == [s.nextFreePid, s.order[0]];
    NextOk(s2, c);
    OneMore(s2, c, []);
    OneMore(s1, b, [c]);
    OneMore(s, a, [b, c]);
    assert [] + [c] == [c] && [a] + [b, c] == [a, b, c] && [b] + [c] == [b, c];
    NotPolledYet(program, s.nextFreePid, s.order[0]);
  }

  function ForkThenYield(program: LoadedProgram, child: Pid): seq<Event> {
    [Added(program), Interrupted(0), Round(child, StartUserland(program.initialState))]
  }

  lemma OneMore(s: Sched, e: Event, evs: seq<Event>)
    requires s.Ok() && Enabled(s, e) && Trace(Next(s, e), evs)
    ensures Trace(s, [e] + evs)
  {
    assert ([e] + evs)[1..] == evs;
  }

  lemma NotPolledYet(program: LoadedProgram, child: Pid, me: Pid)
    requires me != child
    ensures var evs := ForkThenYield(program, child); Rounds(evs) == 1 && !PolledWithin(evs, me, 1)
  {
    var evs := ForkThenYield(program, child);
    assert evs[1..][1..][1..] == [];
    assert Rounds(evs[1..][1..]) == 1 && !PolledWithin(evs[1..][1..], me, 1);
    assert Rounds(evs[1..]) == 1 && !PolledWithin(evs[1..], me, 1);
  }

  // --- Zombies ---

  ghost predicate IsZombie(s: Sched, p: Pid, parent: Pid, code: nat) {
    p in s.processes && s.processes[p].waiting == Some(AmZombie(code)) && s.processes[p].ppid == parent
  }

  /**
    Zombie `p` is never started; it is reaped at most once, by `parent`, which gets `code`.
    Once reaped it is not even polled.
   */
  ghost predicate Buried(evs: seq<Event>, p: Pid, parent: Pid, code: nat, gone: bool)
    decreases |evs|
  {
    evs == [] ||
    match evs[0]
    case Round(me, o) =>
      var reaped := o.Reaped? && o.child == p;
      && (me == p ==> !gone && o == Idle)
      && (reaped ==> !gone && me == parent && o.exitCode == code)
      && Buried(evs[1..], p, parent, code, gone || reaped)
    case _ => Buried(evs[1..], p, parent, code, gone)
  }

  lemma StepZombie(s: Sched, e: Event, p: Pid, parent: Pid, code: nat)
    requires s.Ok() && Enabled(s, e) && IsZombie(s, p, parent, code)
    ensures e.Round? && e.me == p ==> e.outcome == Idle
    ensures e.Round? && e.outcome.Reaped? && e.outcome.child == p ==>
              && e.me == parent && e.outcome.exitCode == code && p !in Next(s, e).processes
              && s.processes[parent].waiting.Some? && s.processes[parent].waiting.value.WaitingChild?
    ensures !(e.Round? && e.outcome.Reaped? && e.outcome.child == p) ==> IsZombie(Next(s, e), p, parent, code)
  {
    hide IndexOf, SwapRemoveBack;
  }

  lemma StepGone(s: Sched, e: Event, p: Pid)
    requires s.Ok() && Enabled(s, e) && p !in s.processes
    ensures e.Round? ==> e.me != p && !(e.outcome.Reaped? && e.outcome.child == p)
  {
    if e.Round? {
      InRotated(s.order, e.me);
    }
  }

  /** What becomes of a zombie over any run. */
  lemma {:induction false} ZombieFate(s: Sched, evs: seq<Event>, p: Pid, parent: Pid, code: nat, gone: bool)
    requires Trace(s, evs) && p < s.nextFreePid
    requires if gone then p !in s.processes else IsZombie(s, p, parent, code)
    ensures Buried(evs, p, parent, code, gone)
    ensures p in End(s, evs).processes ==> !gone && IsZombie(End(s, evs), p, parent, code)
    decreases |evs|
  {
    hide Enabled, Next, Sched.Ok, IsZombie;
    if evs != [] {
      var e := evs[0];
      var reaped := e.Round? && e.outcome.Reaped? && e.outcome.child == p;
      StepPids(s, e, p);
      if gone {
        StepGone(s, e, p);
      } else {
        StepZombie(s, e, p, parent, code);
      }
      ZombieFate(Next(s, e), evs[1..], p, parent, code, gone || reaped);
    }
  }

  /** A process that exits is from then on a zombie with its own code, for the parent it had. */
  lemma ExitDelivered(s: Sched, code: nat, evs: seq<Event>)
    requires s.Ok() && s.running && Trace(Next(s, Halted(code)), evs)
    ensures Buried(evs, s.order[0], s.processes[s.order[0]].ppid, code, false)
  {
    var me := s.order[0];
    ZombieFate(Next(s, Halted(code)), evs, me, s.processes[me].ppid, code, false);
  }

  // --- What a wait accepts ---

  /** The children that `waitpid` with argument `pid` may report to `me`, as numbers. */
  ghost predicate Reportable(s: Sched, me: Pid, pid: Pid, child: Pid) {
    && me in s.processes && child in s.processes && s.processes[child].ppid == me
    && (exists code :: s.processes[child].waiting == Some(AmZombie(code)))
    && (|| pid == -1
        || (pid > 0 && child == pid)
        || (pid == 0 && s.processes[child].pgrp == s.processes[me].pgrp)
        || (pid < -1 && child == -pid))
  }

  /** The argument of a wait means what it should; for a process group the child's own pid counts. */
  lemma WaitMeans(s: Sched, me: Pid, pid: Pid, child: Pid)
    ensures s.Takes(me, FromPid(pid), child) <==> Reportable(s, me, pid, child)
  {
    if s.Takes(me, FromPid(pid), child) {
      assert s.processes[child].waiting == Some(AmZombie(s.processes[child].waiting.value.exitCode));
    }
  }

  /**
    `me` goes on waiting until it is given a child it waits for with argument `pid`, and that
    child's own code; it goes on waiting only while there is none.
   */
  ghost predicate WaitAnswered(s: Sched, evs: seq<Event>, me: Pid, pid: Pid)
    requires Trace(s, evs)
    decreases |evs|
  {
    evs == [] ||
    match evs[0]
    case Round(m, o) =>
      if m != me then WaitAnswered(Next(s, evs[0]), evs[1..], me, pid)
      else if o.Reaped? then
        && Reportable(s, me, pid, o.child)
        && s.processes[o.child].waiting == Some(AmZombie(o.exitCode))
      else
        && o == Idle && (forall c :: !Reportable(s, me, pid, c))
        && WaitAnswered(Next(s, evs[0]), evs[1..], me, pid)
    case _ => WaitAnswered(Next(s, evs[0]), evs[1..], me, pid)
  }

  ghost predicate IsWaiting(s: Sched, me: Pid, pid: Pid) {
    && me in s.processes && s.processes[me].waiting.Some? && s.processes[me].waiting.value.WaitingChild?
    && s.processes[me].waiting.value.childType == FromPid(pid)
  }

  lemma StepWaiting(s: Sched, e: Event, me: Pid, pid: Pid)
    requires s.Ok() && Enabled(s, e) && IsWaiting(s, me, pid)
    ensures e.Round? && e.me == me ==>
              && (e.outcome.Reaped? ==>
                    && Reportable(s, me, pid, e.outcome.child)
                    && s.processes[e.outcome.child].waiting == Some(AmZombie(e.outcome.exitCode)))
              && (!e.outcome.Reaped? ==> e.outcome == Idle && forall c :: !Reportable(s, me, pid, c))
    ensures !(e.Round? && e.me == me && e.outcome.Reaped?) ==> IsWaiting(Next(s, e), me, pid)
  {
    hide IndexOf, SwapRemoveBack, FromPid, IsValid, Reportable;
    if e.Round? && e.me == me {
      forall c
        ensures s.Takes(me, FromPid(pid), c) <==> Reportable(s, me, pid, c)
      {
        WaitMeans(s, me, pid, c);
      }
    }
  }

  /** Over any run a waiting process is answered as it asked. */
  lemma {:induction false} WaitsForThose(s: Sched, evs: seq<Event>, me: Pid, pid: Pid)
    requires Trace(s, evs) && IsWaiting(s, me, pid)
    ensures WaitAnswered(s, evs, me, pid)
    decreases |evs|
  {
    hide Enabled, Next, IsWaiting, Reportable, Sched.Ok;
    if evs != [] {
      StepWaiting(s, evs[0], me, pid);
      if !(evs[0].Round? && evs[0].me == me && evs[0].outcome.Reaped?) {
        WaitsForThose(Next(s, evs[0]), evs[1..], me, pid);
      }
    }
  }

  /** The child whose end the first round that reaps one for `me` reports. */
  function FirstReaped(evs: seq<Event>, me: Pid): Option<Pid> {
    if evs == [] then None
    else if evs[0].Round? && evs[0].me == me && evs[0].outcome.Reaped? then Some(evs[0].outcome.child)
    else FirstReaped(evs[1..], me)
  }

  /** Who waits for one process is told of that process. */
  lemma {:induction false} ToldOfThatChild(s: Sched, evs: seq<Event>, me: Pid, pid: Pid)
    requires Trace(s, evs) && IsWaiting(s, me, pid) && pid > 0 && FirstReaped(evs, me).Some?
    ensures FirstReaped(evs, me).value == pid
    decreases |evs|
  {
    hide Enabled, Next, IsWaiting, Sched.Ok;
    StepWaiting(s, evs[0], me, pid);
    if !(evs[0].Round? && evs[0].me == me && evs[0].outcome.Reaped?) {
      ToldOfThatChild(Next(s, evs[0]), evs[1..], me, pid);
    }
  }

  lemma NowWaiting(s: Sched, pid: Pid, statusPtr: nat, state: nat)
    requires s.Ok() && s.running
    ensures IsWaiting(Next(s, Waited(FromPid(pid), statusPtr, state)), s.order[0], pid)
  {
    hide FromPid;
  }

  // --- Registers ---

  /**
    Whenever `p` is started it has the registers it was left with: `regs` at first, and from
    then on those saved last, or those a program put in its place starts from.
   */
  ghost predicate ResumesAsLeft(s: Sched, evs: seq<Event>, p: Pid, regs: nat)
    requires Trace(s, evs)
    decreases |evs|
  {
    evs == [] || p !in s.processes ||
    var next := if !evs[0].Round? && s.order != [] && s.order[0] == p then SavedBy(evs[0], regs) else regs;
    && (evs[0].Round? && evs[0].me == p && evs[0].outcome.StartUserland? ==> evs[0].outcome.state == regs)
    && ResumesAsLeft(Next(s, evs[0]), evs[1..], p, next)
  }

  function SavedBy(e: Event, regs: nat): nat {
    match e
    case Waited(_, _, state) => state
    case AskedToRead(_, _, state) => state
    case Interrupted(state) => state
    case Replaced(program) => program.initialState
    case _ => regs
  }

  lemma StepSaves(s: Sched, e: Event, p: Pid)
    requires s.Ok() && Enabled(s, e) && p in s.processes && p in Next(s, e).processes
    ensures e.Round? ==> Next(s, e).processes[p].paused == s.processes[p].paused
    ensures !e.Round? && s.order != [] && s.order[0] == p ==>
              Next(s, e).processes[p].paused == SavedBy(e, s.processes[p].paused)
    ensures !e.Round? && s.order != [] && s.order[0] != p ==>
              Next(s, e).processes[p].paused == s.processes[p].paused
    ensures e.Round? && e.me == p && e.outcome.StartUserland? ==> e.outcome.state == s.processes[p].paused
  {
    hide IndexOf, SwapRemoveBack;
  }

  /** Over any run every process is resumed just as it was left. */
  lemma {:induction false} Resumed(s: Sched, evs: seq<Event>, p: Pid)
    requires Trace(s, evs) && p in s.processes
    ensures ResumesAsLeft(s, evs, p, s.processes[p].paused)
    decreases |evs|
  {
    hide Enabled, Next, SavedBy;
    if evs != [] {
      if p in Next(s, evs[0]).processes {
        StepSaves(s, evs[0], p);
        Resumed(Next(s, evs[0]), evs[1..], p);
      } else {
        RoundStarts(s, evs[0], p);
        GoneIsLeft(Next(s, evs[0]), evs[1..], p);
      }
    }
  }

  lemma RoundStarts(s: Sched, e: Event, p: Pid)
    requires s.Ok() && Enabled(s, e) && p in s.processes
    ensures e.Round? && e.me == p && e.outcome.StartUserland? ==> e.outcome.state == s.processes[p].paused
  {
  }

  lemma GoneIsLeft(s: Sched, evs: seq<Event>, p: Pid)
    requires Trace(s, evs) && p !in s.processes
    ensures forall regs :: ResumesAsLeft(s, evs, p, regs)
  {
  }

  // --- The queue itself ---

  /** A process as it is before it runs. */
  predicate IsNew(p: Process, program: LoadedProgram) {
    && p.heapStart == program.heapStart && p.pageTableRoot == program.pageTableRoot
    && p.paused == program.initialState && p.waiting.None?
  }

  class ProcessQueue {
    var processes: map<Pid, Process>
    var order: seq<Pid>
    var nextFreePid: Pid
    /** The processor is in userland, in the front process. */
    ghost var running: bool

    ghost function View(): Sched
      reads this
    {
      Sched(processes, order, nextFreePid, running)
    }

    constructor ()
      ensures View() == Sched(map[], [], 1, false) && View().Ok()
    {
      processes, order, nextFreePid, running := map[], [], 1, false;
    }

    method AllocatePid() returns (pid: Pid)
      modifies this`nextFreePid
      ensures pid == old(nextFreePid) && nextFreePid == pid + 1
    {
      pid := nextFreePid;
      nextFreePid := nextFreePid + 1;
    }

    /** Panics if the pid is taken. */
    method Push(program: LoadedProgram) returns (pid: Pid)
      requires View().Ok() && (running || order == [])
      modifies this
      ensures pid !in old(processes) && pid == old(nextFreePid)
      ensures View() == Next(old(View()), Added(program)) && View().Ok()
      ensures order == old(order) + [pid] && pid in processes && IsNew(processes[pid], program)
      ensures old(order) != [] ==>
                processes[pid].ppid == old(order[0]) && processes[pid].pgrp == old(processes[order[0]].pgrp)
    {
      NextOk(View(), Added(program));
      var newProc := if order == [] then Create(program) else CreateWithParent(program, processes[order[0]], order[0]);
      pid := AllocatePid();
      assert pid !in processes;
      processes := processes[pid := newProc];
      order := order + [pid];
    }

    /** The child starts from its parent's registers; it is told 0, the parent the child's pid. */
    method SyscallFork(childPageTable: nat, parentState: nat) returns (toldChild: Pid, toldParent: Pid,
                       ghost p: LoadedProgram)
      requires View().Ok() && running
      modifies this
      ensures p.initialState == parentState && p.pageTableRoot == childPageTable
      ensures View() == Next(old(View()), Added(p)) && View().Ok()
      ensures toldChild == 0 && toldParent == old(nextFreePid) != 0
      ensures toldParent in processes && processes[toldParent].ppid == order[0] == old(order[0])
      ensures processes[toldParent].pgrp == old(processes[order[0]].pgrp) && IsNew(processes[toldParent], p)
      ensures p.heapStart == old(processes[order[0]].heapStart)
    {
      var child := LoadedProgram(processes[order[0]].heapStart, childPageTable, parentState);
      p := child;
      toldParent := Push(child);
      toldChild := 0;
    }

    method SetCurrentAsZombie(exitCode: nat)
      requires View().Ok() && running
      modifies this`processes, this`running
      ensures View() == Next(old(View()), Halted(exitCode)) && View().Ok()
      ensures order == old(order) != [] && !running
    {
      NextOk(View(), Halted(exitCode));
      var current := order[0];
      processes := processes[current := processes[current].(waiting := Some(AmZombie(exitCode)))];
      running := false;
    }

    /** `exec`: another program in the same process. */
    method ReplaceCurrent(program: LoadedProgram)
      requires View().Ok() && running
      modifies this`processes, this`running
      ensures View() == Next(old(View()), Replaced(program)) && View().Ok()
      ensures order == old(order) != [] && !running
      ensures var was, now := old(processes[order[0]]), processes[order[0]];
              && now.pgrp == was.pgrp && now.ppid == was.ppid && now.waiting.None?
              && now.paused == program.initialState && now.pageTableRoot == program.pageTableRoot
              && now.heapStart == program.heapStart
    {
      NextOk(View(), Replaced(program));
      var current := order[0];
      processes := processes[current := ReplacedBy(processes[current], program)];
      running := false;
    }

    /** `wait` and `read` first note what is waited for; a process that waits already would panic. */
    method SetCurrentWaiting(w: Option<WaitingState>)
      requires View().Ok() && running
      modifies this`processes
      ensures processes == old(View()).SetWaiting(order[0], w)
    {
      assert processes[order[0]].waiting.None?;
      processes := processes[order[0] := processes[order[0]].(waiting := w)];
    }

    /** Look for a zombie among the children; what is delivered is its exit code. */
    method PollChildren(me: Pid, t: ChildType, statusPtr: nat)
      returns (found: bool, child: Pid, outputPid: Option<nat>, status: Option<nat>)
      requires me in processes
      ensures found ==> View().Takes(me, t, child) && outputPid == Some(processes[child].waiting.value.exitCode)
      ensures found ==> status == if statusPtr != 0 then Some(processes[child].waiting.value.exitCode) else None
      ensures !found ==> outputPid.None? && status.None? && forall c :: !View().Takes(me, t, c)
    {
      var children := set pid | pid in processes && processes[pid].ppid == me;
      var rest := children;
      while rest != {}
        invariant rest <= children
        invariant forall c :: c in children && c !in rest ==> !View().Takes(me, t, c)
        decreases |rest|
      {
        SomeElement(rest);
        var childPid :| childPid in rest;
        rest := rest - {childPid};
        var proc := processes[childPid];
        if IsValid(t, processes[me].pgrp, childPid, proc.pgrp) {
          if proc.waiting.Some? && proc.waiting.value.AmZombie? {
            var exitCode := proc.waiting.value.exitCode;
            return true, childPid, Some(exitCode), if statusPtr != 0 then Some(exitCode) else None;
          }
        }
      }
      found, child, outputPid, status := false, 0, None, None;
    }

    /** `inputReady` is what the file's read says. */
    method Poll(me: Pid, inputReady: bool) returns (o: Outcome)
      requires me in processes
      ensures View().Polls(me, o)
      ensures processes[me].waiting.Some? && processes[me].waiting.value.WaitingRead? ==>
                o == if inputReady then GotInput else Idle
    {
      match processes[me].waiting
      case None => o := StartUserland(processes[me].paused);
      case Some(WaitingRead(_, _)) => o := if inputReady then GotInput else Idle;
      case Some(WaitingChild(t, statusPtr)) =>
        var found, child, outputPid, status := PollChildren(me, t, statusPtr);
        o := if found then Reaped(child, outputPid.value) else Idle;
      case Some(AmZombie(_)) => o := Idle;
    }

    /** Position of a pid, which must be there. */
    method FindInOrder(pid: Pid) returns (index: nat)
      requires pid in order
      ensures index < |order| && index == IndexOf(order, pid)
    {
      index := 0;
      while order[index] != pid
        invariant index < |order| && pid in order[index..]
        invariant IndexOf(order, pid) == index + IndexOf(order[index..], pid)
        decreases |order| - index
      {
        assert order[index..][1..] == order[index + 1..];
        index := index + 1;
      }
    }

    /** One round of the scheduling loop. No `unwrap` in it can fail. */
    method RunOnce(inputReady: bool) returns (started: bool, ghost e: Event)
      requires View().Ok() && !running && order != []
      modifies this
      ensures Enabled(old(View()), e) && e.Round? && View() == Next(old(View()), e) && View().Ok() && order != []
      ensures started <==> running
      ensures e.outcome == GotInput ==> inputReady
      ensures var p := old(processes)[e.me];
              p.waiting.Some? && p.waiting.value.WaitingRead? && inputReady ==> e.outcome == GotInput
      ensures started ==> e.outcome == StartUserland(processes[order[0]].paused)
    {
      hide IndexOf, SwapRemoveBack;
      ghost var s := View();
      var prev := order[0];
      order := order[1..];
      order := order + [prev];
      RotatedOk(s);
      var currPid := order[0];
      var result := Poll(currPid, inputReady);
      e := Round(currPid, result);
      PollsAlike(View(), s, currPid, result);
      NextOk(s, e);
      started := false;
      match result
      case Idle =>
      case StartUserland(_) =>
        started, running := true, true;
      case GotInput =>
        processes := processes[currPid := processes[currPid].(waiting := None)];
      case Reaped(pid, _) =>
        processes := processes[currPid := processes[currPid].(waiting := None)];
        assert pid in processes;
        processes := processes - {pid};
        assert pid in order;
        var index := FindInOrder(pid);
        order := SwapRemoveBack(order, index);
        assert currPid in processes;
    }

    /**
      Schedule until some process can run. `interrupted` are the registers to save, if the
      current process was interrupted; the loop is cut off after `rounds` rounds, with
      input ready as `inputs` says.
     */
    method RunNextTask(interrupted: Option<nat>, rounds: nat, inputs: seq<bool>)
      returns (started: bool, ghost s: Sched, ghost evs: seq<Event>)
      requires order != [] && order[0] in processes && |inputs| == rounds && !running
      requires var p := processes[order[0]];
               Sched(processes[order[0] := if interrupted.Some? then p.(paused := interrupted.value) else p],
                     order, nextFreePid, false).Ok()
      modifies this
      ensures var p := old(processes[order[0]]);
              s == Sched(old(processes)[old(order[0]) := if interrupted.Some? then p.(paused := interrupted.value)
                                                         else p],
                         old(order), old(nextFreePid), false)
      ensures Trace(s, evs) && View() == End(s, evs) && View().Ok()
      ensures started == running
      ensures if started then 0 < |evs| <= rounds && evs[|evs| - 1].Round? else |evs| == rounds
    {
      hide Sched.Ok, Enabled, Next;
      assert processes[order[0] := processes[order[0]]] == processes;
      if interrupted.Some? {
        processes := processes[order[0] := processes[order[0]].(paused := interrupted.value)];
      }
      s := View();
      evs := [];
      var n := 0;
      while n < rounds
        invariant 0 <= n <= rounds && |evs| == n && !running && order != []
        invariant Trace(s, evs) && View() == End(s, evs) && View().Ok()
      {
        ghost var e;
        started, e := RunOnce(inputs[n]);
        TraceThen(s, evs, e);
        evs := evs + [e];
        n := n + 1;
        if started {
          return;
        }
      }
      started := false;
    }

    /** The process is over; it stays as a zombie until its parent waits for it. */
    method SyscallHalt(exitCode: nat, rounds: nat, inputs: seq<bool>) returns (started: bool, ghost evs: seq<Event>)
      requires View().Ok() && running && |inputs| == rounds
      modifies this
      ensures Trace(old(View()), [Halted(exitCode)] + evs) && View() == End(old(View()), [Halted(exitCode)] + evs)
      ensures started == running && (!started ==> |evs| == rounds)
    {
      hide Enabled, Next;
      ghost var s0 := View();
      SetCurrentAsZombie(exitCode);
      ghost var s1 := View();
      SameFront(s1);
      ghost var s;
      started, s, evs := RunNextTask(None, rounds, inputs);
      FirstThen(s0, Halted(exitCode), evs);
    }

    method SyscallWait(pid: Pid, statusPtr: nat, state: nat, rounds: nat, inputs: seq<bool>)
      returns (started: bool, ghost evs: seq<Event>)
      requires View().Ok() && running && |inputs| == rounds
      modifies this
      ensures var e := Waited(FromPid(pid), statusPtr, state);
              Trace(old(View()), [e] + evs) && View() == End(old(View()), [e] + evs)
      ensures var s := Next(old(View()), Waited(FromPid(pid), statusPtr, state));
              Trace(s, evs) && WaitAnswered(s, evs, old(order[0]), pid)
      ensures started == running && (!started ==> |evs| == rounds)
    {
      hide Enabled;
      ghost var s0, e := View(), Waited(FromPid(pid), statusPtr, state);
      NextOk(s0, e);
      SuspendedInTwo(s0, state, Some(WaitingChild(FromPid(pid), statusPtr)));
      SetCurrentWaiting(Some(WaitingChild(FromPid(pid), statusPtr)));
      running := false;
      ghost var s;
      started, s, evs := RunNextTask(Some(state), rounds, inputs);
      FirstThen(s0, e, evs);
      NowWaiting(s0, pid, statusPtr, state);
      WaitsForThose(Next(s0, e), evs, s0.order[0], pid);
    }

    method SyscallReadFd(fd: nat, numBytes: nat, state: nat, rounds: nat, inputs: seq<bool>)
      returns (started: bool, ghost evs: seq<Event>)
      requires View().Ok() && running && |inputs| == rounds
      modifies this
      ensures var e := AskedToRead(fd, numBytes, state);
              Trace(old(View()), [e] + evs) && View() == End(old(View()), [e] + evs)
      ensures started == running && (!started ==> |evs| == rounds)
    {
      hide Enabled;
      ghost var s0, e := View(), AskedToRead(fd, numBytes, state);
      NextOk(s0, e);
      SuspendedInTwo(s0, state, Some(WaitingRead(fd, numBytes)));
      SetCurrentWaiting(Some(WaitingRead(fd, numBytes)));
      running := false;
      ghost var s;
      started, s, evs := RunNextTask(Some(state), rounds, inputs);
      FirstThen(s0, e, evs);
    }

    /** A timer interrupt, or the process yields. */
    method Interrupt(state: nat, rounds: nat, inputs: seq<bool>) returns (started: bool, ghost evs: seq<Event>)
      requires View().Ok() && running && |inputs| == rounds
      modifies this
      ensures Trace(old(View()), [Interrupted(state)] + evs) && View() == End(old(View()), [Interrupted(state)] + evs)
      ensures started == running && (!started ==> |evs| == rounds)
    {
      hide Enabled;
      ghost var s0 := View();
      NextOk(s0, Interrupted(state));
      running := false;
      ghost var s;
      started, s, evs := RunNextTask(Some(state), rounds, inputs);
      FirstThen(s0, Interrupted(state), evs);
    }
  }

  lemma SomeElement(s: set<Pid>)
    requires s != {}
    ensures exists p :: p in s
  {
    assert (forall p :: p !in s) ==> s == {};
  }

  lemma SameFront(s: Sched)
    requires s.Ok() && s.order != []
    ensures s.order[0] in s.processes && s.processes[s.order[0] := s.processes[s.order[0]]] == s.processes
  {
  }

  /** Polling does not depend on the queue's order. */
  lemma PollsAlike(s: Sched, s': Sched, me: Pid, o: Outcome)
    requires s.processes == s'.processes && s.Polls(me, o)
    ensures s'.Polls(me, o)
  {
    if s.processes[me].waiting.Some? && s.processes[me].waiting.value.WaitingChild? {
      var t := s.processes[me].waiting.value.childType;
      assert forall c :: s'.Takes(me, t, c) == s.Takes(me, t, c);
    }
  }

  /** First the waiting state is noted, then the registers are saved. */
  lemma SuspendedInTwo(s: Sched, state: nat, w: Option<WaitingState>)
    requires s.Ok() && s.running
    ensures var m := s.SetWaiting(s.order[0], w);
            && s.order[0] in m
            && Sched(m[s.order[0] := m[s.order[0]].(paused := state)], s.order, s.nextFreePid, false)
               == Suspended(s, state, w)
  {
  }

  lemma FirstThen(s: Sched, e: Event, evs: seq<Event>)
    requires s.Ok() && Enabled(s, e) && Trace(Next(s, e), evs)
    ensures Trace(s, [e] + evs) && End(s, [e] + evs) == End(Next(s, e), evs)
  {
    assert ([e] + evs)[0] == e && ([e] + evs)[1..] == evs;
  }
}
