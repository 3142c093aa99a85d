/** RemoteCtrlService.c: the procedures that share _pid, each of whose steps is a step of the transition
    system. */
module ClientServer {
  import opened ClientSlot

  datatype Errno = NoError | EINTR | ECHILD

  /** Which exited child waitpid reports is the kernel's choice. */
  method AnyOf(s: set<int>) returns (p: int)
    requires s != {}
    ensures p in s
  {
    EmptyOrInhabited(s);
    p :| p in s;
  }

  lemma EmptyOrInhabited(s: set<int>)
    ensures s == {} || exists p :: p in s
  {
    if forall p :: p !in s {
      assert s == {};
    }
  }

  /** The server process: _pid, and what the kernel knows of its children. */
  class Server {
    var pid: int
    var running: set<int>
    var exited: set<int>
    var pending: bool
    /** How many more calls of waitpid will be interrupted. */
    var interruptions: nat
    /** How many more calls of fork will fail. */
    var forkFailures: nat

    ghost var phase: Phase
    ghost var states: seq<State>
    ghost var events: seq<Event>

    ghost function Now(): State
      reads this
    {
      State(phase, pid, running, exited, pending)
    }

    /** All that has happened is a run of the transition system. */
    ghost predicate Valid()
      reads this
    {
      IsRun(states, events) && states[|events|] == Now()
    }

    constructor (interruptions: nat, forkFailures: nat)
      ensures Valid() && events == [] && phase == Waiting
      ensures this.interruptions == interruptions && this.forkFailures == forkFailures
    {
      pid, running, exited, pending := -1, {}, {}, false;
      this.interruptions, this.forkFailures := interruptions, forkFailures;
      phase, states, events := Waiting, [INITIAL], [];
    }

    ghost method Record(e: Event)
      requires IsRun(states, events) && Step(e, states[|events|], Now())
      modifies this`states, this`events
      ensures Valid() && events == old(events) + [e] && old(states) <= states
      ensures LoopEvents(events) == LoopEvents(old(events)) + if e.IsSignal() then [] else [e]
    {
      LoopEventsNext(events, e);
      states, events := states + [Now()], events + [e];
    }

    /** A step of the loop that changes nothing but where it stands. */
    ghost method Enter(e: Event, to: Phase)
      requires Valid() && Step(e, Now(), Now().(phase := to))
      modifies this`phase, this`states, this`events
      ensures Valid() && phase == to && old(states) <= states && events == old(events) + [e]
      ensures LoopEvents(events) == LoopEvents(old(events)) + if e.IsSignal() then [] else [e]
    {
      phase := to;
      Record(e);
    }

    /** waitpid for any child, without blocking. */
    method WaitPid() returns (r: int, errno: Errno)
      requires forall p :: p in exited ==> p > 0
      modifies this`exited, this`interruptions
      ensures r == 0 ==> exited == old(exited) == {} && running != {} && interruptions == old(interruptions)
      ensures r > 0 ==> r in old(exited) && exited == old(exited) - {r} && interruptions == old(interruptions)
      ensures r < 0 ==> r == -1 && exited == old(exited)
      ensures r == -1 && errno == EINTR ==> interruptions == old(interruptions) - 1
      ensures r == -1 && errno != EINTR ==>
        errno == ECHILD && running == exited == {} && interruptions == old(interruptions)
    {
      errno := NoError;
      var interrupted: bool := *;
      if interruptions > 0 && interrupted {
        interruptions := interruptions - 1;
        return -1, EINTR;
      }
      if exited != {} {
        r := AnyOf(exited);
        exited := exited - {r};
      } else if running != {} {
        r := 0;
      } else {
        r, errno := -1, ECHILD;
      }
    }

    /** process_get_status: ends from every state, whatever is interrupted. */
    method ProcessGetStatus()
      requires forall p :: p in exited ==> p > 0
      modifies this`pid, this`exited, this`interruptions
      ensures exited <= old(exited) && Reaps(old(pid), old(exited), pid, exited)
    {
      var one := 0;
      while true
        invariant 0 <= one <= 1 && pid == old(pid) && exited <= old(exited)
        invariant pid !in old(exited) - exited && forall p :: p in exited ==> p > 0
        decreases interruptions, |exited|, 1 - one
      {
        var p, errno := WaitPid();
        if p == 0 {
          return;
        }
        if p == -1 {
          if errno == EINTR {
            continue;
          }
          if errno == ECHILD && one == 1 {
            return;
          }
        }
        one := 1;
        if p == pid {
          pid := -1;
          break;
        }
      }
    }

    /** SIGCHLD is delivered: acthandler. */
    method Deliver()
      requires Valid()
      modifies this
      ensures Valid() && old(states) <= states && events == old(events) + [Handler]
      ensures LoopEvents(events) == LoopEvents(old(events))
      ensures !pending && phase == old(phase) && running == old(running) && forkFailures == old(forkFailures)
      ensures Reaps(old(pid), old(exited), pid, exited)
    {
      ChildrenArePids();
      pending := false;
      assert forall p :: p in exited ==> p in Now().Unreaped();
      ProcessGetStatus();
      Record(Handler);
    }

    method ChildExits(child: int)
      requires Valid() && child in running
      modifies this
      ensures Valid() && old(states) <= states && events == old(events) + [Exit(child)]
      ensures LoopEvents(events) == LoopEvents(old(events))
      ensures pending && phase == old(phase) && pid == old(pid) && forkFailures == old(forkFailures)
      ensures running == old(running) - {child} && exited == old(exited) + {child}
    {
      running, exited, pending := running - {child}, exited + {child}, true;
      Record(Exit(child));
    }

    lemma ChildrenArePids()
      requires Valid()
      ensures Inv(Now())
    {
      RunKeepsInv(states, events, |events|);
    }

    /** What may happen between two steps of the loop: any number of exits and deliveries. */
    method Signals()
      requires Valid()
      modifies this
      ensures Valid() && phase == old(phase) && forkFailures == old(forkFailures)
      ensures old(states) <= states && old(events) <= events && LoopEvents(events) == LoopEvents(old(events))
    {
      var n: nat := *;
      while n > 0
        invariant Valid() && phase == old(phase) && forkFailures == old(forkFailures)
        invariant old(states) <= states && old(events) <= events && LoopEvents(events) == LoopEvents(old(events))
      {
        var exits: bool := *;
        var child: int := *;
        if exits && child in running {
          ChildExits(child);
        } else {
          Deliver();
        }
        n := n - 1;
      }
    }

    /** fork, which the kernel may let fail with -1, or else gives an unused pid; the child's side is not part
        of this state. */
    method Fork() returns (r: int)
      requires Valid() && phase == Free
      modifies this
      ensures Valid() && old(states) <= states && pid == old(pid)
      ensures forkFailures == old(forkFailures) - if r == -1 then 1 else 0
      ensures if r == -1 then phase == Waiting && events == old(events) + [ForkFailed]
              else r > 0 && phase == Forked(r) && events == old(events) + [ForkDone(r)]
      ensures LoopEvents(events) == LoopEvents(old(events)) + if r == -1 then [ForkFailed] else [ForkDone(r)]
    {
      var fails: bool := *;
      if forkFailures > 0 && fails {
        forkFailures := forkFailures - 1;
        r := -1;
        Enter(ForkFailed, Waiting);
        return;
      }
      ChildrenArePids();
      r := *;
      if r <= 0 {
        r := 1;
      }
      running := running + {r};
      phase := Forked(r);
      Record(ForkDone(r));
    }

    /** CreateClientProcess, as the parent runs it. Between the fork and the storing of the pid there are
        only signals. */
    method CreateClientProcess() returns (r: int)
      requires Valid() && phase == Free
      modifies this
      ensures Valid() && phase == Waiting && old(states) <= states && old(events) <= events
      ensures r == -1 ==> events == old(events) + [ForkFailed] && pid == old(pid)
      ensures r != -1 ==>
        && r > 0 && pid == r
        && events[|old(events)|..][..1] == [ForkDone(r)] && events[|events| - 1] == Store
        && LoopEvents(events[|old(events)|..]) == [ForkDone(r), Store]
      ensures LoopEvents(events) == LoopEvents(old(events)) + if r == -1 then [ForkFailed] else [ForkDone(r), Store]
      ensures forkFailures == old(forkFailures) - if r == -1 then 1 else 0
    {
      hide LoopEvents;
      ghost var before := events;
      r := Fork();
      if r > 0 {
        Signals();
        pid := r;
        phase := Waiting;
        Record(Store);
        LoopEventsSince(before, events, [ForkDone(r), Store]);
      }
    }

    /** The accepted connection finds the slot free. */
    method Serve() returns (served: bool, ghost child: int)
      requires Valid() && phase == Accepted && pid == -1
      modifies this
      ensures Valid() && phase == Waiting && old(states) <= states && old(events) + [TestFree] <= events
      ensures LoopEvents(events) == LoopEvents(old(events)) + [TestFree] + Pass(TestFree, served, child)[2..]
      ensures forkFailures == old(forkFailures) - if served then 0 else 1
    {
      hide LoopEvents;
      Enter(TestFree, Free);
      Signals();
      var r := CreateClientProcess();
      served, child := r > 0, r;
    }

    /** The accepted connection finds the slot taken. */
    method SendAway()
      requires Valid() && phase == Accepted && pid != -1
      modifies this
      ensures Valid() && phase == Waiting && old(states) <= states && old(events) + [TestOccupied] <= events
      ensures LoopEvents(events) == LoopEvents(old(events)) + [TestOccupied] + Pass(TestOccupied, false, 0)[2..]
      ensures forkFailures == old(forkFailures)
    {
      hide LoopEvents;
      Enter(TestOccupied, Refusing);
      Signals();
      Enter(Refuse, Waiting);
    }

    /** One pass of the accept branch of LoopSocket. Event t is the test of _pid, and served tells whether
        the connection got a child. */
    method AcceptClient() returns (served: bool, ghost t: nat, ghost child: int)
      requires Valid() && phase == Waiting
      modifies this
      ensures Valid() && phase == Waiting && old(states) <= states && old(events) <= events
      ensures |old(events)| <= t < |events|
      ensures events[t] == if states[t].slot == -1 then TestFree else TestOccupied
      ensures LoopEvents(events[|old(events)|..]) == Pass(events[t], served, child)
      ensures served <==> exists c :: ForkDone(c) in events[|old(events)|..]
      ensures forkFailures == old(forkFailures) - if events[t] == TestFree && !served then 1 else 0
      ensures |Now().Unreaped()| <= 1 && Now().Unreaped() <= {pid}
    {
      hide LoopEvents, IsRun, Step, Pass;
      served, child := false, 0;
      ghost var before := events;
      Signals();
      AcceptIsNext();
      Enter(Accept, Accepted);
      Signals();
      t := |events|;
      ghost var test := if pid == -1 then TestFree else TestOccupied;
      LastState();
      if pid == -1 {
        served, child := Serve();
      } else {
        SendAway();
      }
      Signals();
      PassSince(before, events, test, served, child);
      AtMostOneChild();
    }

    lemma AtMostOneChild()
      requires Valid() && phase == Waiting
      ensures |Now().Unreaped()| <= 1 && Now().Unreaped() <= {pid}
    {
      MutualExclusion(states, events, |events|);
    }

    lemma AcceptIsNext()
      requires phase == Waiting
      ensures Step(Accept, Now(), Now().(phase := Accepted))
    {
    }

    lemma LastState()
      requires Valid()
      ensures |states| == |events| + 1 && states[|events|] == Now()
    {
    }

    /** LoopSocket for a number of connections. */
    method LoopSocket(connections: nat)
      requires Valid() && phase == Waiting
      modifies this
      ensures Valid() && phase == Waiting && old(states) <= states && old(events) <= events
      ensures ArePasses(LoopEvents(events[|old(events)|..]), connections)
      ensures Accepts(events[|old(events)|..]) == connections
      ensures FailedForks(LoopEvents(events[|old(events)|..])) == old(forkFailures) - forkFailures
      ensures old(SomeEarlyReap(states, events)) ==>
        forall j :: |old(events)| <= j < |events| ==> !events[j].ForkDone?
      ensures (pid != -1 <==> running + exited != {}) <==> !SomeEarlyReap(states, events)
    {
      hide ArePasses, LoopEvents, Accepts, FailedForks, IsRun, Pass;
      ghost var before, states0 := events, states;
      NoPasses(before);
      for i := 0 to connections
        invariant Valid() && phase == Waiting && states0 <= states && before <= events
        invariant ArePasses(LoopEvents(events[|before|..]), i)
        invariant FailedForks(LoopEvents(events[|before|..])) == old(forkFailures) - forkFailures
      {
        ghost var mark := events;
        var served;
        ghost var t, child;
        served, t, child := AcceptClient();
        PassesGrow(before, mark, events, i, events[t], served, child);
      }
      AcceptsOfLoopEvents(events[|before|..]);
      PassesAccept(LoopEvents(events[|before|..]), connections);
      if SomeEarlyReap(states0, before) {
        EarlyReapStays(states0, before, states, events);
      }
      SlotRecovery(states, events);
    }
  }
}
