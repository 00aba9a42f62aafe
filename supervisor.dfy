/**
 * The supervisor's bookkeeping: the shared slot `sharedBg`, the registry
 * `watcherMap` of reaper threads, and the operations that update them
 * (`startProcess`, `startWatcherThread`, the reaper's slot-clearing step,
 * `stopProcess`, `joinAllWatchers`) together with the poll loop of `main`.
 *
 * Everything the operating system decides is an input: the value `fork`
 * returns, whether `pthread_create` succeeds and the handle it yields, the
 * readings of the monotonic clock and the results of the non-blocking
 * `waitpid` polls in `stopProcess`, whether the trigger file exists on a tick,
 * and whether the current child dies on its own before a tick. The reaper
 * thread's work after its child exits is one atomic event, ReaperExit.
 */
module Supervisor {
  import opened Options

  /** `BgProc`: a process handle; pid 0 stands for "no process". */
  datatype BgProc = BgProc(pid: int)

  /** A `pthread_t` handle of a reaper thread. */
  type Thread = nat

  datatype Signal = SIGTERM | SIGKILL

  /** `stopProcess` polls while fewer than 3000 ms have elapsed ... */
  const GraceMs: nat := 3000
  /** ... and sleeps 100 ms after every poll that did not see the child exit ... */
  const PollIntervalMs: nat := 100
  /** ... so it polls at most GraceMs / PollIntervalMs times. */
  const MaxPolls: nat := 30

  /**
   * What the operating system does during one `stopProcess` grace window:
   * `clock[k]` is the elapsed time read by the k-th test of the loop
   * condition, `polls[k]` what the k-th `waitpid(pid, WNOHANG)` returns.
   */
  datatype Grace = Grace(clock: seq<int>, polls: seq<int>)

  /** Clock readings start at or after the mark and grow by at least the 100 ms sleep. */
  predicate GraceOk(g: Grace)
  {
    && |g.clock| > MaxPolls
    && |g.polls| >= MaxPolls
    && 0 <= g.clock[0]
    && forall k :: 0 < k < |g.clock| ==> g.clock[k - 1] + PollIntervalMs <= g.clock[k]
  }

  lemma {:induction false} ClockGrows(g: Grace, i: nat, j: nat)
    requires GraceOk(g) && i <= j < |g.clock|
    ensures g.clock[i] + (j - i) * PollIntervalMs <= g.clock[j]
    decreases j
  {
    if i < j {
      ClockGrows(g, i, j - 1);
    }
  }

  /** After j polls at least j * 100 ms have elapsed. */
  lemma ClockFloor(g: Grace, j: nat)
    requires GraceOk(g) && j < |g.clock|
    ensures j * PollIntervalMs <= g.clock[j]
  {
    ClockGrows(g, 0, j);
  }

  /** Some poll made before 3000 ms had elapsed saw the child exit. */
  ghost predicate SeenExit(pid: int, g: Grace)
  {
    exists j :: 0 <= j < |g.polls| && j < |g.clock| && g.clock[j] < GraceMs && g.polls[j] == pid
  }

  /**
   * The polling loop of `stopProcess`: poll with WNOHANG while fewer than
   * 3000 ms have elapsed, stopping at the first poll that returns the pid.
   * `n` is the number of polls made.
   */
  method GracePoll(pid: int, g: Grace) returns (exited: bool, n: nat)
    requires GraceOk(g)
    ensures n <= MaxPolls
    ensures forall j :: 0 <= j < n ==> g.clock[j] < GraceMs
    ensures exited <==> SeenExit(pid, g)
    ensures exited ==> 0 < n && g.polls[n - 1] == pid
    ensures forall j :: 0 <= j < n - (if exited then 1 else 0) ==> g.polls[j] != pid
    ensures !exited ==> GraceMs <= g.clock[n]
  {
    exited := false;
    n := 0;
    while g.clock[n] < GraceMs
      invariant n <= MaxPolls
      invariant forall j :: 0 <= j < n ==> g.clock[j] < GraceMs && g.polls[j] != pid
      decreases MaxPolls - n
    {
      ClockFloor(g, n);
      var w := g.polls[n];
      n := n + 1;
      if w == pid {
        exited := true;
        break;
      }
    }
    if !exited {
      forall j | 0 <= j < |g.polls| && j < |g.clock| && g.clock[j] < GraceMs
        ensures g.polls[j] != pid
      {
        if n <= j {
          ClockGrows(g, n, j);
        }
      }
    }
  }

  /** The positive pid a handle names, if any: the ones `stopProcess` acts on. */
  function Pids(proc: Option<BgProc>): (s: set<int>)
    ensures forall p :: p in s ==> p > 0
    ensures s == {} || (proc.Some? && s == {proc.value.pid})
    ensures proc.Some? && proc.value.pid > 0 ==> proc.value.pid in s
  {
    if proc.Some? && proc.value.pid > 0 then {proc.value.pid} else {}
  }

  /** The reaper's step after its child exits: clear the slot if it still holds that child. */
  function ClearIfOwned(slot: Option<BgProc>, child: int): (r: Option<BgProc>)
    ensures r == None || r == slot
    ensures r == None <==> slot == None || slot.value.pid == child
  {
    if slot.Some? && slot.value.pid == child then None else slot
  }

  /** Two reapers finishing in either order leave the same slot. */
  lemma ReapersCommute(slot: Option<BgProc>, p: int, q: int)
    ensures ClearIfOwned(ClearIfOwned(slot, p), q) == ClearIfOwned(ClearIfOwned(slot, q), p)
  {
  }

  /** The inputs of one tick of the poll loop. */
  datatype TickInput = TickInput(
    childExits: bool,       // the current child dies on its own before this tick
    trigger: bool,          // the trigger file exists when the tick tests it
    grace: Grace,           // the grace window of the stop inside a replace
    forkResult: int,        // what `fork` returns in the parent during a replace
    threadCreated: bool,    // whether `pthread_create` succeeds for the new reaper
    thread: Thread,         // the handle it yields
    exitsAtOnce: bool,      // the new child dies, and its reaper runs, before its handle is stored
    shutdownGrace: Grace)   // the grace window of the stop at shutdown

  predicate TickOk(t: TickInput)
  {
    GraceOk(t.grace) && GraceOk(t.shutdownGrace) && t.forkResult != 0
  }

  /** The loop's exit test, made after the tick counter is incremented. */
  predicate Done(cycles: int, tick: int)
  {
    cycles >= 0 && tick >= cycles
  }

  /**
   * The number of ticks the loop runs with `cycles >= 0`: the tick counter
   * is incremented before it is compared with `cycles`, so it is the first
   * positive counter value that reaches `cycles`.
   */
  function TickCount(cycles: int): (n: nat)
    requires cycles >= 0
    ensures 1 <= n && Done(cycles, n)
    ensures forall t :: 1 <= t < n ==> !Done(cycles, t)
  {
    if cycles == 0 then 1 else cycles
  }

  lemma NonEmpty(s: set<int>)
    requires s != {}
    ensures exists x :: x in s
  {
    if forall x :: x !in s {
      assert false;
    }
  }

  /**
   * `watcherMap.values.toList()`: one entry per registered reaper, in some
   * order; `pids[i]` is the pid whose thread is `list[i]`.
   */
  method ThreadList(threads: map<int, Thread>) returns (pids: seq<int>, list: seq<Thread>)
    ensures |pids| == |list| == |threads|
    ensures forall i, j :: 0 <= i < j < |pids| ==> pids[i] != pids[j]
    ensures forall i :: 0 <= i < |pids| ==> pids[i] in threads && list[i] == threads[pids[i]]
    ensures forall p :: p in threads ==> p in pids
  {
    pids, list := [], [];
    var pending := threads.Keys;
    while pending != {}
      invariant pending <= threads.Keys
      invariant |pids| == |list| && |pids| + |pending| == |threads|
      invariant forall i, j :: 0 <= i < j < |pids| ==> pids[i] != pids[j]
      invariant forall i :: 0 <= i < |pids| ==> pids[i] in threads && pids[i] !in pending
      invariant forall i :: 0 <= i < |pids| ==> list[i] == threads[pids[i]]
      invariant forall p :: p in threads && p !in pending ==> p in pids
      decreases |pending|
    {
      NonEmpty(pending);
      var p :| p in pending;
      pids, list := pids + [p], list + [threads[p]];
      pending := pending - {p};
    }
  }

  class Supervisor {
    /** `sharedBg`: the handle of the current background process. */
    var slot: Option<BgProc>
    /** `watcherMap`: reaper threads not yet joined, by the pid they wait for. */
    var watchers: map<int, Thread>
    /** Children forked and not yet reaped, with the command line each runs. */
    ghost var children: map<int, string>
    /**
     * Not a variable of the program but the state of its threads: the
     * registered reapers that have run to completion, so that joining them
     * returns at once.
     */
    var doneReapers: set<int>

    ghost predicate Valid()
      reads this
    {
      && (forall p :: p in watchers ==> p > 0)
      && (forall p :: p in children ==> p > 0)
      && doneReapers <= watchers.Keys
      && (forall p :: p in watchers && p !in doneReapers ==> p in children)
    }

    /** At most one child is alive, and it is the one the slot holds. */
    ghost predicate AtMostOne()
      reads this
    {
      forall p :: p in children ==> slot == Some(BgProc(p))
    }

    constructor ()
      ensures Valid() && AtMostOne()
      ensures slot == None && watchers == map[] && children == map[] && doneReapers == {}
    {
      slot := None;
      watchers := map[];
      children := map[];
      doneReapers := {};
    }

    /** Between ticks there is at most one child, and every other registered reaper has finished. */
    lemma Settled()
      requires Valid() && AtMostOne()
      ensures |children| <= 1
      ensures children.Keys <= Pids(slot)
      ensures watchers.Keys - Pids(slot) <= doneReapers
    {
      forall p | p in children ensures p in Pids(slot) {
        assert slot == Some(BgProc(p));
      }
      forall p | p in watchers && p !in doneReapers ensures p in Pids(slot) {
        assert p in children;
      }
      if Pids(slot) == {} {
        assert children.Keys == {};
      } else if slot.value.pid in children {
        assert children.Keys == {slot.value.pid};
      } else {
        assert children.Keys == {};
      }
    }

    /** `startWatcherThread`: register the reaper for `pid` only when its thread exists. */
    method StartWatcher(pid: int, created: bool, thread: Thread)
      requires Valid() && pid in children
      modifies this
      ensures Valid()
      ensures watchers == if created then old(watchers)[pid := thread] else old(watchers)
      ensures doneReapers == if created then old(doneReapers) - {pid} else old(doneReapers)
      ensures slot == old(slot) && children == old(children)
    {
      if created {
        watchers := watchers[pid := thread];
        doneReapers := doneReapers - {pid};
      }
    }

    /**
     * `startProcess`: fork a child running `sh -c cmdLine`, start its reaper
     * and store its handle in the slot. When `fork` fails, return the pid-0
     * handle and change nothing.
     */
    method Start(cmdLine: string, forkResult: int, threadCreated: bool, thread: Thread)
      returns (proc: BgProc)
      requires Valid()
      requires forkResult != 0           // 0 is returned only inside the child, which never returns here
      requires forkResult !in children   // the kernel never reuses the pid of an unreaped child
      modifies this
      ensures Valid()
      ensures forkResult < 0 ==>
        && proc == BgProc(0)
        && slot == old(slot) && watchers == old(watchers)
        && children == old(children) && doneReapers == old(doneReapers)
      ensures forkResult > 0 ==>
        && proc == BgProc(forkResult)
        && slot == Some(proc)
        && children == old(children)[forkResult := cmdLine]
        && watchers == (if threadCreated then old(watchers)[forkResult := thread] else old(watchers))
        && doneReapers == (if threadCreated then old(doneReapers) - {forkResult} else old(doneReapers))
    {
      if forkResult < 0 {
        return BgProc(0);
      }
      children := children[forkResult := cmdLine];
      StartWatcher(forkResult, threadCreated, thread);
      proc := BgProc(forkResult);
      slot := Some(proc);
    }

    /**
     * The reaper thread for `child`, once its blocking `waitpid` returns:
     * clear the slot if it still holds that child. The registry is left alone;
     * the thread stays there until it is joined.
     */
    method ReaperExit(child: int)
      requires Valid()
      requires child in watchers && child !in doneReapers
      modifies this
      ensures Valid()
      ensures old(AtMostOne()) ==> AtMostOne()
      ensures slot == ClearIfOwned(old(slot), child)
      ensures watchers == old(watchers)
      ensures children == old(children) - {child}
      ensures doneReapers == old(doneReapers) + {child}
    {
      children := children - {child};
      doneReapers := doneReapers + {child};
      if slot.Some? && slot.value.pid == child {
        slot := None;
      }
    }

    /**
     * `stopProcess`: nothing for a missing handle or a pid <= 0; otherwise
     * SIGTERM, the polling window, SIGKILL and a blocking wait only if no poll
     * saw the child exit, and finally removal and join of its reaper.
     */
    method Stop(proc: Option<BgProc>, g: Grace) returns (sent: seq<Signal>, joined: Option<Thread>)
      requires Valid() && GraceOk(g)
      modifies this
      ensures Valid()
      ensures slot == old(slot)
      ensures sent == if Pids(proc) == {} then []
                      else if SeenExit(proc.value.pid, g) then [SIGTERM]
                      else [SIGTERM, SIGKILL]
      ensures joined == if Pids(proc) != {} && proc.value.pid in old(watchers)
                        then Some(old(watchers)[proc.value.pid]) else None
      ensures watchers == old(watchers) - Pids(proc)
      ensures children == old(children) - Pids(proc)
      ensures doneReapers == old(doneReapers) - Pids(proc)
    {
      if proc.None? {
        return [], None;
      }
      var pid := proc.value.pid;
      if pid <= 0 {
        return [], None;
      }
      sent := [SIGTERM];
      var exited, _ := GracePoll(pid, g);
      if !exited {
        sent := sent + [SIGKILL];
      }
      // Reaped, by a poll or by the blocking wait after SIGKILL.
      children := children - {pid};
      joined := if pid in watchers then Some(watchers[pid]) else None;
      watchers := watchers - {pid};
      doneReapers := doneReapers - {pid};
    }

    /**
     * `joinAllWatchers`: take every registered thread, empty the registry and
     * join them all. A join returns only once its reaper's blocking `waitpid`
     * has returned, so every reaper still waiting has reaped its child, and
     * cleared the slot if it held that child, before JoinAll returns.
     */
    method JoinAll() returns (pids: seq<int>, joined: seq<Thread>)
      requires Valid()
      modifies this
      ensures Valid()
      ensures old(AtMostOne()) ==> AtMostOne()
      ensures watchers == map[] && doneReapers == {}
      ensures |pids| == |joined| == |old(watchers)|
      ensures forall i, j :: 0 <= i < j < |pids| ==> pids[i] != pids[j]
      ensures forall i :: 0 <= i < |pids| ==> pids[i] in old(watchers) && joined[i] == old(watchers)[pids[i]]
      ensures forall p :: p in old(watchers) ==> p in pids
      ensures children == old(children) - (old(watchers).Keys - old(doneReapers))
      ensures slot == if old(slot).Some? && old(slot).value.pid in old(watchers).Keys - old(doneReapers)
                      then None else old(slot)
    {
      var waiting := watchers.Keys - doneReapers;
      pids, joined := ThreadList(watchers);
      children := children - waiting;
      if slot.Some? && slot.value.pid in waiting {
        slot := None;
      }
      watchers := map[];
      doneReapers := {};
    }

    /**
     * The trigger branch of the poll loop: take the handle out of the slot,
     * stop it, start a new child and store its handle in the slot. When
     * `exitsAtOnce` holds, the new child dies at once (as when `execvp` fails
     * and it calls `_exit(127)`) and its reaper runs before the handle is
     * stored again: the slot then names a child that is already reaped.
     */
    method Replace(cmdLine: string, g: Grace, forkResult: int, threadCreated: bool, thread: Thread,
                   exitsAtOnce: bool)
      returns (sent: seq<Signal>)
      requires Valid() && AtMostOne()
      requires GraceOk(g) && forkResult != 0
      modifies this
      ensures Valid() && AtMostOne()
      ensures sent == if Pids(old(slot)) == {} then []
                      else if SeenExit(old(slot).value.pid, g) then [SIGTERM]
                      else [SIGTERM, SIGKILL]
      ensures slot == Some(BgProc(if forkResult > 0 then forkResult else 0))
      ensures children == if forkResult > 0 && !(exitsAtOnce && threadCreated)
                          then map[forkResult := cmdLine] else map[]
      ensures watchers == (if forkResult > 0 && threadCreated
                           then (old(watchers) - Pids(old(slot)))[forkResult := thread]
                           else old(watchers) - Pids(old(slot)))
      ensures doneReapers == if forkResult > 0 && threadCreated
                             then (old(doneReapers) - Pids(old(slot)) - {forkResult})
                                  + (if exitsAtOnce then {forkResult} else {})
                             else old(doneReapers) - Pids(old(slot))
    {
      Settled();
      var toStop := slot;
      slot := None;
      var joined;
      sent, joined := Stop(toStop, g);
      assert children == map[];
      var newBg := Start(cmdLine, forkResult, threadCreated, thread);
      if exitsAtOnce && forkResult > 0 && threadCreated {
        ReaperExit(forkResult);
      }
      slot := Some(newBg);
    }

    /**
     * The terminal branch of the poll loop: take the handle out of the slot,
     * stop it and join every remaining reaper, all of which have finished.
     */
    method Shutdown(g: Grace) returns (joined: seq<Thread>)
      requires Valid() && AtMostOne() && GraceOk(g)
      modifies this
      ensures Valid() && AtMostOne()
      ensures slot == None && watchers == map[] && children == map[] && doneReapers == {}
      ensures |joined| == |old(watchers) - Pids(old(slot))|
    {
      Settled();
      ghost var live := children.Keys;
      var toStop := slot;
      slot := None;
      var _, _ := Stop(toStop, g);
      assert children.Keys == live - Pids(toStop) == {};
      assert watchers.Keys <= doneReapers;
      var pids;
      pids, joined := JoinAll();
    }

    /**
     * The poll loop of `main`, run over the inputs of successive ticks. With
     * `cycles >= 0` it ends after TickCount(cycles) ticks with no child and no
     * reaper left; with a negative `cycles` it never ends, so it runs every
     * tick it is given.
     */
    method Run(cmdLine: string, cycles: int, ticks: seq<TickInput>) returns (tick: nat, finished: bool)
      requires Valid() && AtMostOne()
      requires forall k :: 0 <= k < |ticks| ==> TickOk(ticks[k])
      modifies this
      ensures Valid() && AtMostOne()
      ensures finished <==> cycles >= 0 && TickCount(cycles) <= |ticks|
      ensures finished ==> tick == TickCount(cycles)
      ensures finished ==> slot == None && watchers == map[] && children == map[]
      ensures !finished ==> tick == |ticks|
    {
      tick := 0;
      finished := false;
      while tick < |ticks| && !finished
        invariant Valid() && AtMostOne()
        invariant tick <= |ticks|
        invariant finished ==> cycles >= 0 && tick == TickCount(cycles)
        invariant finished ==> slot == None && watchers == map[] && children == map[]
        invariant !finished ==> cycles < 0 || tick < TickCount(cycles)
        decreases |ticks| - tick
      {
        var t := ticks[tick];
        if t.childExits && slot.Some? && slot.value.pid in watchers && slot.value.pid !in doneReapers {
          ReaperExit(slot.value.pid);
        }
        if t.trigger {
          var _ := Replace(cmdLine, t.grace, t.forkResult, t.threadCreated, t.thread, t.exitsAtOnce);
        }
        tick := tick + 1;
        if Done(cycles, tick) {
          var _ := Shutdown(t.shutdownGrace);
          finished := true;
        }
      }
    }
  }
}
