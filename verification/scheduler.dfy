/** The scheduler: one call scans the thread table from the running thread's successor. */
module Schedulers {
  import opened Options
  import opened LinearMaps
  import opened Scheduling

  /** Kept: the interrupted stack goes on; Switched: another one does; Fatal: the kernel halts. */
  datatype Outcome = Kept | Switched | Fatal

  datatype Visited = Passes | Wakes | Dies | Halted

  class Scheduler {
    const threads: LinearMap<nat, Thread>
    var current: Option<nat>
    var now: nat

    ghost predicate Valid()
      reads this, threads
    {
      && threads.Valid()
      && Named(threads.data)
      && (current.Some? ==> Ready(threads.data) && Position() < |threads.data|)
    }

    /** Where the running thread stands in the table. */
    ghost function Position(): nat
      reads this, threads
      requires current.Some?
    {
      IndexOf(threads.data, current.value)
    }

    constructor ()
      ensures Valid() && fresh(threads) && threads.data == [] && current == None
    {
      threads := new LinearMap();
      current := None;
      now := 0;
    }

    /** The time since boot; it never runs backwards. */
    method ReadClock() returns (time: nat)
      modifies this`now
      ensures time == now >= old(now)
    {
      var ticks := Ticks();
      now := now + ticks;
      time := now;
    }

    method Ticks() returns (ticks: nat) {
      ticks := *;
    }

    /** The position after a handle's, or the front when it is the last one or unknown. */
    method GetNext(handle: nat) returns (it: nat)
      ensures var k := IndexOf(threads.data, handle);
        it == if k + 1 < |threads.data| then k + 1 else 0
    {
      var k := threads.Get(handle);
      if k == |threads.data| || k + 1 == |threads.data| {
        return 0;
      }
      return k + 1;
    }

    method SetState(it: nat, state: ThreadState)
      requires threads.Valid() && it < |threads.data|
      modifies threads
      ensures threads.Valid()
      ensures threads.data == old(threads.data)[it := WithState(old(threads.data)[it], state)]
    {
      var thread := threads.data[it].value;
      threads.SetValue(it, thread.(state := state));
    }

    /** Wakes a sleeper once its deadline has come. */
    method HandleSleeping(it: nat) returns (awake: bool)
      requires threads.Valid() && it < |threads.data|
      modifies this`now, threads
      ensures threads.Valid() && now >= old(now)
      ensures awake <==> old(threads.data)[it].value.sleepUntil <= now
      ensures threads.data == if awake then old(threads.data)[it := WithState(old(threads.data)[it], Running)]
        else old(threads.data)
    {
      var time := ReadClock();
      if threads.data[it].value.sleepUntil <= time {
        SetState(it, Running);
        return true;
      }
      return false;
    }

    /** Frees a stopped thread and takes it out of the table; a critical one halts the kernel. */
    method HandleStopping(it: nat) returns (fatal: bool)
      requires threads.Valid() && it < |threads.data|
      modifies threads
      ensures threads.Valid() && fatal == old(threads.data)[it].value.isCritical
      ensures threads.data == if fatal then old(threads.data) else Without(old(threads.data), it)
    {
      if threads.data[it].value.isCritical {
        return true;
      }
      IndexUnique(threads.data, it);
      var removed := threads.Remove(threads.data[it].key);
      return false;
    }

    /** Appends a runnable thread, unless its handle is taken. */
    method Add(handle: nat, thread: Thread) returns (ok: bool)
      requires Valid() && handle != INVALID
      modifies threads
      ensures Valid() && (ok <==> IndexOf(old(threads.data), handle) == |old(threads.data)|)
      ensures threads.data == if ok then old(threads.data) + [Pair(handle, thread.(state := Running))]
        else old(threads.data)
    {
      ghost var t := threads.data;
      ok := threads.Insert(handle, thread.(state := Running));
      if current.Some? {
        IndexUnique(threads.data, IndexOf(t, current.value));
      }
    }

    /** Makes the boot context the main thread, first in the table. */
    method StartMain(thread: Thread) returns (handle: nat)
      requires Valid() && (current == None ==> threads.data == [])
      modifies this`current, threads
      ensures Valid() && handle == MAIN && current.Some?
      ensures old(current) == None ==>
        current == Some(MAIN) && threads.data == [Pair(MAIN, thread.(state := Running, isCritical := true))]
      ensures old(current).Some? ==> current == old(current) && threads.data == old(threads.data)
    {
      if current.Some? {
        return 0;
      }
      var ok := Add(MAIN, thread.(isCritical := true));
      current := Some(MAIN);
      IndexUnique(threads.data, 0);
      return MAIN;
    }

    /** Asks a thread to stop; it stays in the table until a later call reaps it. */
    method Terminate(handle: nat)
      requires Valid() && handle != MAIN
      modifies threads
      ensures Valid() && current == old(current)
      ensures var k := IndexOf(old(threads.data), handle);
        threads.data == if k == |old(threads.data)| then old(threads.data)
          else old(threads.data)[k := WithState(old(threads.data)[k], Stopping)]
    {
      ghost var t := threads.data;
      var k := threads.Get(handle);
      if k == |threads.data| {
        return;
      }
      SetState(k, Stopping);
      if current.Some? {
        IndexSame(t, threads.data, current.value);
      }
    }

    /** What the scan does with a thread that does not run. */
    method Visit(it: nat) returns (visit: Visited)
      requires threads.Valid() && it < |threads.data| && threads.data[it].value.state != Running
      modifies this`now, threads
      ensures threads.Valid() && now >= old(now)
      ensures visit == Dies || visit == Halted <==> old(threads.data)[it].value.state == Stopping
      ensures visit == Dies ==>
        !old(threads.data)[it].value.isCritical && threads.data == Without(old(threads.data), it)
      ensures visit == Halted ==> old(threads.data)[it].value.isCritical && threads.data == old(threads.data)
      ensures visit == Wakes || visit == Passes ==>
        |threads.data| == |old(threads.data)| && threads.data == old(threads.data)[it := threads.data[it]]
      ensures visit == Wakes ==> var p := old(threads.data)[it];
        p.value.state == Sleeping && p.value.sleepUntil <= now && threads.data[it] == WithState(p, Running)
      ensures visit == Passes ==> Passed(old(threads.data)[it], threads.data[it], old(now))
    {
      match threads.data[it].value.state
      case Starting =>
        SetState(it, Running);
        visit := Passes;
      case Sleeping =>
        var awake := HandleSleeping(it);
        visit := if awake then Wakes else Passes;
      case Stopping =>
        var fatal := HandleStopping(it);
        visit := if fatal then Halted else Dies;
      case _ =>
        visit := Passes;
    }

    /** Goes round from the running thread's successor; the halted kernel has no next thread. */
    method Scan() returns (next: nat, halted: bool, ghost reaped: Option<nat>)
      requires Valid() && current.Some?
      modifies this`now, threads
      ensures threads.Valid() && now >= old(now)
      ensures Ends(old(threads.data), old(Position()), next, threads.data, old(now), now, halted, reaped)
    {
      ghost var t, c, start := threads.data, Position(), now;
      ScanStarts(t, c, start);
      next := GetNext(current.value);
      reaped := None;
      halted := false;
      hide Scanning, Ready, Named, KeysDistinct, Reaps, IndexOf, Passed, Ends;
      while next < |threads.data| && threads.data[next].value.state != Running
        invariant threads.Valid() && now >= start && next < |threads.data|
        invariant if reaped == None then Scanning(t, c, next, threads.data, start)
                  else next == 0 && Reaps(t, c, reaped.value, threads.data, start) && Returned(threads.data)
        decreases if reaped.Some? || next == 0 then 0 else |threads.data| - next
      {
        ghost var u := threads.data;
        var handle := threads.data[next].key;
        var visit := Visit(next);
        match visit {
        case Passes =>
          ScanAdvances(t, c, next, u, threads.data, start);
        case Wakes =>
          SelectsEnds(t, c, next, u, threads.data, start, now);
          return;
        case Dies =>
          handle := INVALID;
          reaped := Some(next);
          ScanReaps(t, c, next, u, start);
        case Halted =>
          HaltsEnds(t, c, next, u, start, now);
          halted := true;
          return;
        }
        next := GetNext(handle);
      }
      if reaped == None {
        SelectsEnds(t, c, next, threads.data, threads.data, start, now);
      } else {
        ReapsEnds(t, c, threads.data, start, now, reaped.value);
      }
    }

    /**
     * The timer interrupt. It selects a thread or reaps one and goes back to the main thread; the
     * interrupted thread itself is never reaped. It stops at a critical thread that wants to stop.
     */
    method Schedule() returns (outcome: Outcome)
      requires Valid()
      modifies this`current, this`now, threads
      ensures now >= old(now) && (outcome != Fatal ==> Valid())
      ensures outcome == Kept <==> old(current) == None || |old(threads.data)| <= 1
      ensures outcome == Kept ==> threads.data == old(threads.data) && current == old(current)
      ensures outcome == Switched ==> current.Some? && threads.data[Position()].value.state == Running
      ensures outcome == Switched ==>
        (|| Selects(old(threads.data), old(Position()), Position(), threads.data, old(now), now)
         || (Position() == 0 && exists r ::
               Reaps(old(threads.data), old(Position()), r, threads.data, old(now))))
      ensures outcome == Fatal ==> exists r ::
        Halts(old(threads.data), old(Position()), r, threads.data, old(now))
    {
      hide Ready, Named, KeysDistinct, Reaps, Selects, IndexOf, Halts;
      if current == None {
        return Kept;
      }
      if |threads.data| <= 1 {
        return Kept;
      }
      ghost var reaped;
      var next, halted;
      next, halted, reaped := Scan();
      if halted {
        return Fatal;
      }
      current := Some(threads.data[next].key);
      return Switched;
    }

    /** Puts the running thread to sleep and gives the processor away. */
    method Sleep(time: nat) returns (outcome: Outcome)
      requires Valid() && current.Some? && current.value != MAIN
      modifies this`current, this`now, threads
      ensures outcome != Kept
      ensures outcome == Switched ==> Valid() && current.Some? && current != old(current)
      ensures outcome == Switched ==> old(Position()) < |threads.data|
      ensures outcome == Switched ==> var p := threads.data[old(Position())];
        && p.key == old(current).value && p.value.state == Sleeping
        && old(now) + time <= p.value.sleepUntil <= now + time
    {
      var clock := ReadClock();
      ghost var t := threads.data;
      var it := threads.Get(current.value);
      var thread := threads.data[it].value;
      threads.SetValue(it, thread.(sleepUntil := clock + time, state := Sleeping));
      IndexSame(t, threads.data, current.value);
      ghost var u, c, start := threads.data, Position(), now;
      assert c == IndexOf(t, old(current.value));
      outcome := Schedule();
      if outcome == Switched && !Selects(u, c, Position(), threads.data, start, now) {
        var r :| Reaps(u, c, r, threads.data, start);
        ReapsKeeps(u, c, r, threads.data, start);
        assert threads.data[c] == u[c];
      }
    }
  }
}
