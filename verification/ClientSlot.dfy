/** RemoteCtrlService.c: the single client slot. The accept loop tests _pid, forks and stores the child's pid
    in separate steps, while a child may exit and the SIGCHLD handler may run between any two of them. */
module ClientSlot {

  // ---- the transition system ----

  /** Where the loop stands: in select; with an accepted connection, before the test of _pid; after a test
      that found the slot free; after fork, with the child's pid not yet stored; about to refuse. */
  datatype Phase = Waiting | Accepted | Free | Forked(child: int) | Refusing

  /** slot is _pid. The unreaped children are those still running and those that have exited; pending says
      that a SIGCHLD has not been handled yet. */
  datatype State = State(phase: Phase, slot: int, running: set<int>, exited: set<int>, pending: bool) {
    function Unreaped(): set<int> { running + exited }
    predicate AtHead() { phase == Waiting }
  }

  datatype Event =
    | Accept | TestFree | TestOccupied | Refuse
    | ForkDone(child: int) | ForkFailed | Store
    | Exit(child: int) | Handler
  {
    /** Not a step of the loop. */
    predicate IsSignal() { Exit? || Handler? }
  }

  const INITIAL := State(Waiting, -1, {}, {}, false)

  /** What one run of process_get_status does. It reaps until it meets the child in the slot, and frees the
      slot then; otherwise it reaps every exited child. */
  ghost predicate Reaps(slot: int, exited: set<int>, slot': int, exited': set<int>) {
    if slot in exited then slot' == -1 && exited' <= exited - {slot}
    else slot' == slot && exited' == {}
  }

  ghost predicate Step(e: Event, s: State, s': State) {
    match e
    case Accept => s.phase == Waiting && s' == s.(phase := Accepted)
    case TestFree => s.phase == Accepted && s.slot == -1 && s' == s.(phase := Free)
    case TestOccupied => s.phase == Accepted && s.slot != -1 && s' == s.(phase := Refusing)
    case Refuse => s.phase == Refusing && s' == s.(phase := Waiting)
    case ForkDone(c) =>
      s.phase == Free && c > 0 && c !in s.Unreaped() && s' == s.(phase := Forked(c), running := s.running + {c})
    case ForkFailed => s.phase == Free && s' == s.(phase := Waiting)
    case Store => s.phase.Forked? && s' == s.(phase := Waiting, slot := s.phase.child)
    case Exit(c) => c in s.running && s' == s.(running := s.running - {c}, exited := s.exited + {c}, pending := true)
    case Handler =>
      && s' == s.(slot := s'.slot, exited := s'.exited, pending := false)
      && Reaps(s.slot, s.exited, s'.slot, s'.exited)
  }

  /** A run of the server: any interleaving of the loop, the children and the handler. */
  ghost predicate IsRun(states: seq<State>, events: seq<Event>) {
    && |states| == |events| + 1 && states[0] == INITIAL
    && forall i :: 0 <= i < |events| ==> Step(events[i], states[i], states[i + 1])
  }

  // ---- mutual exclusion ----

  ghost predicate Inv(s: State) {
    && s.running !! s.exited
    && (forall p :: p in s.Unreaped() ==> p > 0)
    && (s.slot == -1 || s.slot > 0)
    && (s.exited != {} ==> s.pending)
    && match s.phase
       case Free => s.slot == -1 && s.Unreaped() == {}
       case Forked(c) => s.slot == -1 && c > 0 && s.Unreaped() <= {c}
       case _ => s.Unreaped() <= {s.slot}
  }

  lemma StepKeepsInv(e: Event, s: State, s': State)
    requires Inv(s) && Step(e, s, s')
    ensures Inv(s')
  {
  }

  lemma {:induction false} RunKeepsInv(states: seq<State>, events: seq<Event>, i: nat)
    requires IsRun(states, events) && i < |states|
    ensures Inv(states[i])
  {
    if i > 0 {
      RunKeepsInv(states, events, i - 1);
      StepKeepsInv(events[i - 1], states[i - 1], states[i]);
    }
  }

  lemma AtMostOne(s: set<int>, p: int)
    requires s <= {p}
    ensures |s| <= 1
  {
    if p in s {
      assert s == {p};
    } else {
      assert s == {};
    }
  }

  /** In every state of every run at most one client child is unreaped, and at the loop head it is the one
      in the slot. A child that has exited is never left without a signal still to be handled. */
  lemma MutualExclusion(states: seq<State>, events: seq<Event>, i: nat)
    requires IsRun(states, events) && i < |states|
    ensures |states[i].Unreaped()| <= 1
    ensures states[i].AtHead() ==> states[i].Unreaped() <= {states[i].slot}
    ensures states[i].exited != {} ==> states[i].pending
  {
    RunKeepsInv(states, events, i);
    var s := states[i];
    match s.phase
    case Free =>
    case Forked(c) => AtMostOne(s.Unreaped(), c);
    case _ => AtMostOne(s.Unreaped(), s.slot);
  }

  // ---- when the slot recovers ----

  /** Event i is a handler run that reaps the new child before its pid has been stored. */
  ghost predicate EarlyReap(states: seq<State>, events: seq<Event>, i: nat)
    requires IsRun(states, events)
  {
    i < |events| && events[i] == Handler && states[i].phase.Forked? && states[i].phase.child in states[i].exited
  }

  ghost predicate EarlyReapBefore(states: seq<State>, events: seq<Event>, n: nat)
    requires IsRun(states, events)
  {
    exists i: nat :: i < n && EarlyReap(states, events, i)
  }

  ghost predicate SomeEarlyReap(states: seq<State>, events: seq<Event>)
    requires IsRun(states, events)
  {
    EarlyReapBefore(states, events, |events|)
  }

  /** The slot, or the fork under way, stands for an unreaped child. */
  ghost predicate Accounted(s: State) {
    match s.phase
    case Free => true
    case Forked(c) => c in s.Unreaped()
    case _ => s.slot == -1 || s.slot in s.Unreaped()
  }

  /** The slot is taken, or about to be, by a child that is gone. */
  ghost predicate Stuck(s: State) {
    && s.Unreaped() == {}
    && match s.phase
       case Free => false
       case Forked(c) => c > 0
       case _ => s.slot > 0
  }

  lemma StepAccounts(e: Event, s: State, s': State)
    requires Inv(s) && Accounted(s) && Step(e, s, s')
    ensures if e == Handler && s.phase.Forked? && s.phase.child in s.exited then Stuck(s') else Accounted(s')
  {
  }

  lemma StuckStays(e: Event, s: State, s': State)
    requires Stuck(s) && Step(e, s, s')
    ensures Stuck(s') && e != TestFree && !e.ForkDone?
  {
  }

  /** Without an early reap every state is accounted for; after one every state is stuck. */
  lemma {:induction false} AccountedUntilEarlyReap(states: seq<State>, events: seq<Event>, n: nat)
    requires IsRun(states, events) && n < |states|
    ensures if EarlyReapBefore(states, events, n) then Stuck(states[n]) else Accounted(states[n])
  {
    if n > 0 {
      var e, s, s' := events[n - 1], states[n - 1], states[n];
      AccountedUntilEarlyReap(states, events, n - 1);
      RunKeepsInv(states, events, n - 1);
      assert EarlyReapBefore(states, events, n) <==>
             EarlyReapBefore(states, events, n - 1) || EarlyReap(states, events, n - 1);
      if EarlyReapBefore(states, events, n - 1) {
        StuckStays(e, s, s');
      } else {
        StepAccounts(e, s, s');
      }
    }
  }

  /** At the loop head the slot is taken exactly when an unreaped child exists, if and only if no child of
      the run was reaped between fork and the storing of its pid. */
  lemma SlotRecovery(states: seq<State>, events: seq<Event>)
    requires IsRun(states, events) && states[|events|].AtHead()
    ensures (states[|events|].slot != -1 <==> states[|events|].Unreaped() != {}) <==> !SomeEarlyReap(states, events)
  {
    RunKeepsInv(states, events, |events|);
    AccountedUntilEarlyReap(states, events, |events|);
    var s := states[|events|];
    if s.Unreaped() != {} {
      var p :| p in s.Unreaped();
      assert p == s.slot;
    }
  }

  /** So, without such a reap, once the signals are handled the next connection is served exactly when no
      client is running. */
  lemma NextConnectionServed(states: seq<State>, events: seq<Event>)
    requires IsRun(states, events) && !SomeEarlyReap(states, events)
    requires states[|events|].phase == Accepted && !states[|events|].pending
    ensures states[|events|].slot == -1 <==> states[|events|].running == {}
  {
    RunKeepsInv(states, events, |events|);
    AccountedUntilEarlyReap(states, events, |events|);
    var s := states[|events|];
    if s.running != {} {
      var p :| p in s.running;
      assert p in s.Unreaped() && p == s.slot;
    }
  }

  /** After an early reap no connection is ever served again. */
  lemma {:induction false} EarlyReapIsForever(states: seq<State>, events: seq<Event>, i: nat, j: nat)
    requires IsRun(states, events) && EarlyReap(states, events, i) && i < j < |events|
    ensures events[j] != TestFree && !events[j].ForkDone?
  {
    AccountedUntilEarlyReap(states, events, j);
    assert EarlyReapBefore(states, events, j);
    StuckStays(events[j], states[j], states[j + 1]);
  }

  /** Such a run exists: the child exits and is reaped before the parent stores its pid. */
  lemma EarlyReapHappens(c: int) returns (states: seq<State>, events: seq<Event>)
    requires c > 0
    ensures IsRun(states, events) && SomeEarlyReap(states, events)
    ensures states[|events|] == State(Waiting, c, {}, {}, false)
  {
    var s1 := INITIAL.(phase := Accepted);
    var s2 := s1.(phase := Free);
    var s3 := s2.(phase := Forked(c), running := {c});
    var s4 := s3.(running := {}, exited := {c}, pending := true);
    var s5 := s4.(exited := {}, pending := false);
    var s6 := s5.(phase := Waiting, slot := c);
    states := [INITIAL, s1, s2, s3, s4, s5, s6];
    events := [Accept, TestFree, ForkDone(c), Exit(c), Handler, Store];
    assert {} + {c} == {c} && {c} - {c} == {} && s2.running + {c} == s3.running;
    assert EarlyReap(states, events, 4);
  }

  /** An early reap stays one in every continuation of the run. */
  lemma EarlyReapStays(states: seq<State>, events: seq<Event>, states': seq<State>, events': seq<Event>)
    requires IsRun(states, events) && IsRun(states', events') && states <= states' && events <= events'
    requires SomeEarlyReap(states, events)
    ensures forall j :: |events| <= j < |events'| ==> !events'[j].ForkDone?
  {
    var i: nat :| i < |events| && EarlyReap(states, events, i);
    assert EarlyReap(states', events', i);
    forall j | |events| <= j < |events'|
      ensures !events'[j].ForkDone?
    {
      EarlyReapIsForever(states', events', i, j);
    }
  }

  // ---- what the loop itself did ----

  /** The events without the signals. */
  function LoopEvents(es: seq<Event>): seq<Event> {
    if es == [] then []
    else
      var e := es[|es| - 1];
      LoopEvents(es[..|es| - 1]) + if e.IsSignal() then [] else [e]
  }

  /** One pass of the accept branch: a refusal, a failed fork, or a client served. */
  function Pass(test: Event, served: bool, child: int): seq<Event> {
    [Accept, test] +
    if test == TestOccupied then [Refuse]
    else if served then [ForkDone(child), Store]
    else [ForkFailed]
  }

  ghost predicate IsPass(es: seq<Event>) {
    exists test: Event, served: bool, child: int ::
      (test == TestFree || test == TestOccupied) && es == Pass(test, served, child)
  }

  /** n passes, one after the other. */
  ghost predicate ArePasses(es: seq<Event>, n: nat)
    decreases n
  {
    if n == 0 then es == [] else exists k: nat :: k <= |es| && ArePasses(es[..k], n - 1) && IsPass(es[k..])
  }

  function Accepts(es: seq<Event>): nat {
    if es == [] then 0 else Accepts(es[..|es| - 1]) + if es[|es| - 1] == Accept then 1 else 0
  }

  function FailedForks(es: seq<Event>): nat { multiset(es)[ForkFailed] }

  lemma LoopEventsNext(es: seq<Event>, e: Event)
    ensures LoopEvents(es + [e]) == LoopEvents(es) + if e.IsSignal() then [] else [e]
  {
    assert (es + [e])[..|es|] == es;
  }

  lemma {:induction false} LoopEventsJoin(a: seq<Event>, b: seq<Event>)
    ensures LoopEvents(a + b) == LoopEvents(a) + LoopEvents(b)
  {
    if b == [] {
      assert a + b == a;
    } else {
      var n := |b| - 1;
      assert (a + b)[..|a + b| - 1] == a + b[..n];
      LoopEventsJoin(a, b[..n]);
    }
  }

  lemma LoopEventsSince(before: seq<Event>, now: seq<Event>, added: seq<Event>)
    requires before <= now && LoopEvents(now) == LoopEvents(before) + added
    ensures LoopEvents(now[|before|..]) == added
  {
    assert now == before + now[|before|..];
    LoopEventsJoin(before, now[|before|..]);
    var s := LoopEvents(now[|before|..]);
    assert s == (LoopEvents(before) + s)[|LoopEvents(before)|..] == added;
  }

  lemma {:induction false} LoopEventsMembers(es: seq<Event>, e: Event)
    ensures e in LoopEvents(es) <==> e in es && !e.IsSignal()
  {
    if es != [] {
      var n := |es| - 1;
      LoopEventsMembers(es[..n], e);
      assert es == es[..n] + [es[n]];
    }
  }

  lemma {:induction false} AcceptsOfLoopEvents(es: seq<Event>)
    ensures Accepts(LoopEvents(es)) == Accepts(es)
  {
    if es != [] {
      var n := |es| - 1;
      AcceptsOfLoopEvents(es[..n]);
      var before, e := LoopEvents(es[..n]), es[n];
      if !e.IsSignal() {
        assert LoopEvents(es)[..|before|] == before;
      } else {
        assert LoopEvents(es) == before;
      }
    }
  }

  lemma {:induction false} AcceptsJoin(a: seq<Event>, b: seq<Event>)
    ensures Accepts(a + b) == Accepts(a) + Accepts(b)
  {
    if b == [] {
      assert a + b == a;
    } else {
      assert (a + b)[..|a + b| - 1] == a + b[..|b| - 1];
      AcceptsJoin(a, b[..|b| - 1]);
    }
  }

  lemma PassAccepts(es: seq<Event>)
    requires IsPass(es)
    ensures Accepts(es) == 1
  {
    var test, served, child :| (test == TestFree || test == TestOccupied) && es == Pass(test, served, child);
    var end := Pass(test, served, child)[2..];
    assert Pass(test, served, child) == [Accept] + [test] + end;
    AcceptsJoin([Accept] + [test], end);
    AcceptsJoin([Accept], [test]);
    assert [Accept][..0] == [] && [test][..0] == [];
    if test == TestFree && served {
      assert end == [ForkDone(child)] + [Store];
      AcceptsJoin([ForkDone(child)], [Store]);
    }
  }

  /** As many passes, as many connections accepted. */
  lemma {:induction false} PassesAccept(es: seq<Event>, n: nat)
    requires ArePasses(es, n)
    ensures Accepts(es) == n
    decreases n
  {
    hide Accepts, IsPass;
    if n > 0 {
      var k: nat :| k <= |es| && ArePasses(es[..k], n - 1) && IsPass(es[k..]);
      PassesAccept(es[..k], n - 1);
      PassAccepts(es[k..]);
      AcceptsJoin(es[..k], es[k..]);
      assert es == es[..k] + es[k..];
    } else {
      NoAccepts();
    }
  }

  lemma NoAccepts()
    ensures Accepts([]) == 0
  {
  }

  /** A pass forks exactly when it serves. */
  lemma ForkOfPass(es: seq<Event>, test: Event, served: bool, child: int)
    requires LoopEvents(es) == Pass(test, served, child)
    requires test == TestFree || (test == TestOccupied && !served)
    ensures served <==> exists c :: ForkDone(c) in es
  {
    if served {
      LoopEventsMembers(es, ForkDone(child));
      assert Pass(test, served, child)[2] == ForkDone(child);
    } else if c :| ForkDone(c) in es {
      LoopEventsMembers(es, ForkDone(c));
    }
  }

  /** The events since a point make up a pass when the loop's events grew by one. */
  lemma PassSince(before: seq<Event>, now: seq<Event>, test: Event, served: bool, child: int)
    requires before <= now && (test == TestFree || (test == TestOccupied && !served))
    requires LoopEvents(now) == LoopEvents(before) + [Accept] + [test] + Pass(test, served, child)[2..]
    ensures LoopEvents(now[|before|..]) == Pass(test, served, child)
    ensures served <==> exists c :: ForkDone(c) in now[|before|..]
  {
    hide LoopEvents;
    var pass := Pass(test, served, child);
    assert pass == [Accept] + [test] + pass[2..];
    assert LoopEvents(now) == LoopEvents(before) + pass;
    LoopEventsSince(before, now, pass);
    ForkOfPass(now[|before|..], test, served, child);
  }

  lemma OneMorePass(es: seq<Event>, n: nat, test: Event, served: bool, child: int)
    requires ArePasses(es, n) && (test == TestFree || test == TestOccupied)
    ensures ArePasses(es + Pass(test, served, child), n + 1)
  {
    var all := es + Pass(test, served, child);
    assert all[..|es|] == es && all[|es|..] == Pass(test, served, child);
    assert IsPass(all[|es|..]);
  }

  lemma NoPasses(es: seq<Event>)
    ensures ArePasses(LoopEvents(es[|es|..]), 0) && FailedForks(LoopEvents(es[|es|..])) == 0
  {
  }

  lemma FailedForksOfPass(es: seq<Event>, test: Event, served: bool, child: int)
    requires test == TestFree || test == TestOccupied
    ensures FailedForks(es + Pass(test, served, child))
         == FailedForks(es) + if test == TestFree && !served then 1 else 0
  {
  }

  lemma PassesGrow(before: seq<Event>, mark: seq<Event>, now: seq<Event>, n: nat, test: Event, served: bool, child: int)
    requires before <= mark <= now && ArePasses(LoopEvents(mark[|before|..]), n)
    requires (test == TestFree || test == TestOccupied) && LoopEvents(now[|mark|..]) == Pass(test, served, child)
    ensures ArePasses(LoopEvents(now[|before|..]), n + 1)
    ensures FailedForks(LoopEvents(now[|before|..]))
         == FailedForks(LoopEvents(mark[|before|..])) + if test == TestFree && !served then 1 else 0
  {
    hide LoopEvents, ArePasses, Pass, FailedForks;
    assert now[|before|..] == mark[|before|..] + now[|mark|..];
    LoopEventsJoin(mark[|before|..], now[|mark|..]);
    OneMorePass(LoopEvents(mark[|before|..]), n, test, served, child);
    FailedForksOfPass(LoopEvents(mark[|before|..]), test, served, child);
  }
}
