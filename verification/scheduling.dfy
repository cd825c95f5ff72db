/** What one scheduler call may do to the thread table, and what follows over many calls. */
module Scheduling {
  import opened Options
  import opened LinearMaps

  datatype ThreadState = Unknown | Starting | Running | Sleeping | Stopping

  datatype Thread = Thread(state: ThreadState, sleepUntil: nat, isCritical: bool)

  type Table = seq<Pair<nat, Thread>>

  const MAIN: nat := 0

  function WithState(p: Pair<nat, Thread>, s: ThreadState): Pair<nat, Thread> {
    Pair(p.key, p.value.(state := s))
  }

  /** The main thread stands first and runs; handles are distinct. */
  ghost predicate Ready(t: Table) {
    && KeysDistinct(t) && |t| > 0 && t[0].key == MAIN && t[0].value.state == Running
  }

  /** What the scan leaves of a thread it passes over at or after the given time. */
  ghost predicate Passed(before: Pair<nat, Thread>, after: Pair<nat, Thread>, time: nat) {
    match before.value.state
    case Starting => after == WithState(before, Running)
    case Sleeping => after == before && before.value.sleepUntil > time
    case Unknown => after == before
    case _ => false
  }

  /** Threads behind c and before k (before the end if k is 0) were passed over, the others kept. */
  ghost predicate Scanned(t: Table, c: nat, k: nat, u: Table, time: nat) {
    && |u| == |t|
    && (forall j :: 0 <= j < |t| && c < j && (k == 0 || j < k) ==> Passed(t[j], u[j], time))
    && (forall j :: 0 <= j < |t| && !(c < j && (k == 0 || j < k)) && j != k ==> u[j] == t[j])
  }

  /** The scan from c selects position k: a running thread, or a sleeper whose deadline has come. */
  ghost predicate Selects(t: Table, c: nat, k: nat, u: Table, start: nat, end: nat) {
    && c < |t| && k < |t| && (c < k || k == 0) && Scanned(t, c, k, u, start)
    && (|| (t[k].value.state == Running && u[k] == t[k])
        || (t[k].value.state == Sleeping && t[k].value.sleepUntil <= end && u[k] == WithState(t[k], Running)))
  }

  /** The scan from c removes the stopping thread at r and starts over at the front. */
  ghost predicate Reaps(t: Table, c: nat, r: nat, u: Table, start: nat) {
    && c < r < |t| && t[r].value.state == Stopping && !t[r].value.isCritical
    && exists v: Table :: Scanned(t, c, r, v, start) && v[r] == t[r] && u == Without(v, r)
  }

  /** The scan from c comes to a critical thread at r that wants to stop. */
  ghost predicate Halts(t: Table, c: nat, r: nat, u: Table, start: nat) {
    c < r < |t| && t[r].value.state == Stopping && t[r].value.isCritical && Scanned(t, c, r, u, start) && u[r] == t[r]
  }

  /** The position after k, or the front. */
  function Next(t: Table, k: nat): nat {
    if k + 1 < |t| then k + 1 else 0
  }

  const INVALID: nat := 0xFFFF_FFFF_FFFF_FFFF

  /** No thread bears the invalid handle. */
  ghost predicate Named(t: Table) {
    forall j :: 0 <= j < |t| ==> t[j].key != INVALID
  }

  /** The scan from c has come to k, which it has not touched. */
  ghost predicate Scanning(t: Table, c: nat, k: nat, u: Table, start: nat) {
    && c < |t| && k < |t| && (c < k || k == 0) && Scanned(t, c, k, u, start) && u[k] == t[k]
    && KeysDistinct(u) && Named(u)
  }

  lemma ScanStarts(t: Table, c: nat, start: nat)
    requires c < |t| && KeysDistinct(t) && Named(t)
    ensures Scanning(t, c, Next(t, c), t, start)
  {
  }

  /** Passing over the thread at k takes the scan one position on. */
  lemma ScanAdvances(t: Table, c: nat, k: nat, u: Table, w: Table, start: nat)
    requires Ready(t) && Scanning(t, c, k, u, start) && u[k].value.state != Running
    requires |w| == |u| && w == u[k := w[k]] && Passed(u[k], w[k], start)
    ensures 0 < k && Scanning(t, c, Next(u, k), w, start) && IndexOf(w, u[k].key) == k
  {
    assert w[k].key == u[k].key;
    assert KeysDistinct(w);
    IndexUnique(w, k);
  }

  lemma ScanSelects(t: Table, c: nat, k: nat, u: Table, w: Table, start: nat, end: nat)
    requires Ready(t) && Scanning(t, c, k, u, start)
    requires |w| == |u| && w == u[k := w[k]]
    requires || (u[k].value.state == Running && w[k] == u[k])
             || (u[k].value.state == Sleeping && u[k].value.sleepUntil <= end && w[k] == WithState(u[k], Running))
    ensures Selects(t, c, k, w, start, end) && Running == w[k].value.state
    ensures Ready(w) && Named(w) && IndexOf(w, w[k].key) == k
  {
    SelectsKeeps(t, c, k, w, start, end);
    IndexUnique(w, k);
  }

  lemma ScanReaps(t: Table, c: nat, r: nat, u: Table, start: nat)
    requires Ready(t) && Scanning(t, c, r, u, start)
    requires u[r].value.state == Stopping && !u[r].value.isCritical
    ensures 0 < r && Reaps(t, c, r, Without(u, r), start) && Returned(Without(u, r))
  {
    var w := Without(u, r);
    assert forall j :: 0 <= j < |w| ==> w[j] == u[if j < r then j else j + 1];
    ReapsKeeps(t, c, r, w, start);
    IndexUnique(w, 0);
  }

  lemma ScanHalts(t: Table, c: nat, r: nat, u: Table, start: nat)
    requires Ready(t) && Scanning(t, c, r, u, start)
    requires u[r].value.state == Stopping && u[r].value.isCritical
    ensures Halts(t, c, r, u, start)
  {
  }

  /** The scan is back at the front of a table from which a thread is gone. */
  ghost predicate Returned(u: Table) {
    && Ready(u) && Named(u) && u[0].value.state == Running && IndexOf(u, INVALID) == |u| && IndexOf(u, u[0].key) == 0
  }

  /** What a scan from c that ends at k leaves: a thread selected, one reaped, or the kernel halted. */
  ghost predicate Ends(
    t: Table, c: nat, k: nat, u: Table, start: nat, end: nat, halted: bool, reaped: Option<nat>)
  {
    && k < |u|
    && if halted then Halts(t, c, k, u, start)
       else
         && Ready(u) && Named(u) && u[k].value.state == Running && IndexOf(u, u[k].key) == k
         && match reaped
            case None => Selects(t, c, k, u, start, end)
            case Some(r) => k == 0 && Reaps(t, c, r, u, start)
  }

  lemma SelectsEnds(t: Table, c: nat, k: nat, u: Table, w: Table, start: nat, end: nat)
    requires Ready(t) && Scanning(t, c, k, u, start)
    requires |w| == |u| && w == u[k := w[k]]
    requires || (u[k].value.state == Running && w[k] == u[k])
             || (u[k].value.state == Sleeping && u[k].value.sleepUntil <= end && w[k] == WithState(u[k], Running))
    ensures Ends(t, c, k, w, start, end, false, None)
  {
    ScanSelects(t, c, k, u, w, start, end);
  }

  lemma ReapsEnds(t: Table, c: nat, u: Table, start: nat, end: nat, r: nat)
    requires Reaps(t, c, r, u, start) && Returned(u)
    ensures Ends(t, c, 0, u, start, end, false, Some(r))
  {
  }

  lemma HaltsEnds(t: Table, c: nat, k: nat, u: Table, start: nat, end: nat)
    requires Ready(t) && Scanning(t, c, k, u, start)
    requires u[k].value.state == Stopping && u[k].value.isCritical
    ensures Ends(t, c, k, u, start, end, true, None)
  {
    ScanHalts(t, c, k, u, start);
  }

  lemma SelectsKeeps(t: Table, c: nat, k: nat, u: Table, start: nat, end: nat)
    requires Ready(t) && Selects(t, c, k, u, start, end)
    ensures Ready(u) && u[k].value.state == Running
    ensures |u| == |t| && forall j :: 0 <= j < |t| ==> u[j].key == t[j].key
  {
    forall j | 0 <= j < |t| ensures u[j].key == t[j].key {
    }
  }

  /** A reaping call leaves the caller in the table and takes out nobody but the stopping thread. */
  lemma ReapsKeeps(t: Table, c: nat, r: nat, u: Table, start: nat)
    requires Ready(t) && Reaps(t, c, r, u, start)
    ensures Ready(u) && |u| == |t| - 1 && u[c].key == t[c].key
    ensures r < |t| && t[r].value.state == Stopping && !t[r].value.isCritical
    ensures forall j :: 0 <= j < |u| ==> u[j].key == t[if j < r then j else j + 1].key
  {
    var v: Table :| Scanned(t, c, r, v, start) && v[r] == t[r] && u == Without(v, r);
    forall j | 0 <= j < |t| ensures v[j].key == t[j].key {
    }
    forall i, j | 0 <= i < j < |u| ensures u[i].key != u[j].key {
      assert u[i] == v[if i < r then i else i + 1] && u[j] == v[if j < r then j else j + 1];
    }
  }

  /** No sleeper wakes before its deadline: whoever was asleep and runs now was due. */
  lemma NoEarlyWake(t: Table, c: nat, k: nat, u: Table, start: nat, end: nat, j: nat)
    requires Selects(t, c, k, u, start, end) && j < |t|
    requires t[j].value.state == Sleeping && u[j].value.state != Sleeping
    ensures j == k && t[j].value.sleepUntil <= end
  {
  }

  /**
   * No due thread is passed over: whoever the scan leaves behind without selecting it does not run, sleeps
   * on beyond the beginning of the call, or was starting and runs from now on.
   */
  lemma NoneOverlooked(t: Table, c: nat, k: nat, u: Table, start: nat, end: nat, j: nat)
    requires Selects(t, c, k, u, start, end) && c < j < |t| && (k == 0 || j < k)
    ensures t[j].value.state != Running && t[j].value.state != Stopping
    ensures t[j].value.state == Sleeping ==> t[j].value.sleepUntil > start && u[j] == t[j]
    ensures t[j].value.state == Starting ==> u[j] == Pair(t[j].key, t[j].value.(state := Running))
  {
  }

  /** Neither is one before the thread that a call reaps. */
  lemma NoneOverlookedReaping(t: Table, c: nat, r: nat, u: Table, start: nat, j: nat)
    requires Reaps(t, c, r, u, start) && c < j < r
    ensures t[j].value.state != Running && t[j].value.state != Stopping
    ensures t[j].value.state == Sleeping ==> t[j].value.sleepUntil > start && u[j] == t[j]
    ensures t[j].value.state == Starting ==> u[j] == Pair(t[j].key, t[j].value.(state := Running))
  {
    var v: Table :| Scanned(t, c, r, v, start) && v[r] == t[r] && u == Without(v, r);
    assert u[j] == v[j];
  }

  /** The kernel halts only over a critical thread that wants to stop, with nobody due before it. */
  lemma HaltsOverCritical(t: Table, c: nat, r: nat, u: Table, start: nat, j: nat)
    requires Halts(t, c, r, u, start) && c < j < r
    ensures t[r].value.state == Stopping && t[r].value.isCritical
    ensures t[j].value.state != Running && t[j].value.state != Stopping
    ensures t[j].value.state == Sleeping ==> t[j].value.sleepUntil > start
  {
  }

  /** The selected thread runs now; it ran before, or slept and was due. */
  lemma SelectedRuns(t: Table, c: nat, k: nat, u: Table, start: nat, end: nat)
    requires Selects(t, c, k, u, start, end)
    ensures u[k] == Pair(t[k].key, t[k].value.(state := Running))
    ensures t[k].value.state == Running || (t[k].value.state == Sleeping && t[k].value.sleepUntil <= end)
  {
  }

  /** A call that reaps a thread wakes nobody: the sleepers are still asleep. */
  lemma ReapWakesNobody(t: Table, c: nat, r: nat, u: Table, start: nat, j: nat)
    requires Reaps(t, c, r, u, start) && j < |t| && t[j].value.state == Sleeping
    ensures j != r && u[if j < r then j else j - 1] == t[j]
  {
    var v: Table :| Scanned(t, c, r, v, start) && v[r] == t[r] && u == Without(v, r);
    assert v[j] == t[j];
  }

  // ----- fairness -----

  /** The table, the position of the thread that runs, and the time since boot. */
  datatype Config = Config(table: Table, current: nat, now: nat)

  datatype Kind = Call | Reap | Other

  /** Thread h is in the table and runnable: it runs, or sleeps and its deadline has come. */
  ghost predicate Runnable(a: Config, h: nat) {
    && Ready(a.table) && a.current < |a.table| && IndexOf(a.table, h) < |a.table|
    && var thread := a.table[IndexOf(a.table, h)].value;
       thread.state == Running || (thread.state == Sleeping && thread.sleepUntil <= a.now)
  }

  /** Between scheduler calls threads may change their states at will, but none joins or leaves. */
  ghost predicate Interlude(a: Config, b: Config) {
    && b.current == a.current && |b.table| == |a.table|
    && forall j :: 0 <= j < |a.table| ==> b.table[j].key == a.table[j].key
  }

  ghost predicate Step(a: Config, kind: Kind, b: Config) {
    && a.now <= b.now
    && match kind
       case Call => Selects(a.table, a.current, b.current, b.table, a.now, b.now)
       case Reap => b.current == 0 && exists r: nat :: Reaps(a.table, a.current, r, b.table, a.now)
       case Other => Interlude(a, b)
  }

  /** Selections still to come, at most, before h is selected if nothing is reaped. */
  function Distance(a: Config, h: nat): int {
    var k := IndexOf(a.table, h);
    if a.current < k then k - a.current else |a.table| - a.current + k
  }

  lemma {:induction false} IndexSame(t: Table, u: Table, h: nat)
    requires |t| == |u| && forall j :: 0 <= j < |t| ==> u[j].key == t[j].key
    ensures IndexOf(u, h) == IndexOf(t, h)
  {
    if t != [] {
      IndexSame(t[1..], u[1..], h);
    }
  }

  /** A call that reaps nobody selects h or comes closer to it. */
  lemma CallCloser(a: Config, b: Config, h: nat)
    requires Runnable(a, h) && Step(a, Call, b)
    ensures |b.table| == |a.table| && IndexOf(b.table, h) == IndexOf(a.table, h)
    ensures b.current == IndexOf(b.table, h) || Distance(b, h) < Distance(a, h)
  {
    SelectsKeeps(a.table, a.current, b.current, b.table, a.now, b.now);
    IndexSame(a.table, b.table, h);
  }

  ghost predicate RunnableThroughout(run: seq<Config>, kinds: seq<Kind>, h: nat) {
    && |run| == |kinds| + 1
    && (forall i :: 0 <= i < |run| ==> Runnable(run[i], h))
    && (forall i {:trigger kinds[i]} :: 0 <= i < |kinds| ==> Step(run[i], kinds[i], run[i + 1]))
  }

  /** No scheduler call of the run selected h. */
  ghost predicate NeverSelected(run: seq<Config>, kinds: seq<Kind>, h: nat)
    requires |run| == |kinds| + 1
  {
    forall i {:trigger kinds[i]} :: 0 <= i < |kinds| && kinds[i] != Other ==>
      run[i + 1].current != IndexOf(run[i + 1].table, h)
  }

  function Calls(kinds: seq<Kind>): nat {
    if kinds == [] then 0 else (if kinds[0] == Other then 0 else 1) + Calls(kinds[1..])
  }

  function Reapings(kinds: seq<Kind>): nat {
    if kinds == [] then 0 else (if kinds[0] == Reap then 1 else 0) + Reapings(kinds[1..])
  }

  lemma DistanceBounds(a: Config, h: nat)
    requires Runnable(a, h)
    ensures 1 <= Distance(a, h) <= |a.table|
  {
  }

  lemma {:induction false} CallsBounded(run: seq<Config>, kinds: seq<Kind>, h: nat, n: nat)
    requires RunnableThroughout(run, kinds, h) && NeverSelected(run, kinds, h) && |run[0].table| <= n
    ensures Calls(kinds) < Distance(run[0], h) + n * Reapings(kinds)
  {
    hide Runnable, Step, Distance, IndexOf;
    DistanceBounds(run[0], h);
    if kinds != [] {
      var a, b := run[0], run[1];
      assert Step(a, kinds[0], b);
      StepSizes(a, kinds[0], b, h);
      forall i {:trigger kinds[1..][i]} | 0 <= i < |kinds[1..]|
        ensures Step(run[1..][i], kinds[1..][i], run[1..][i + 1])
        ensures kinds[1..][i] != Other ==> run[1..][i + 1].current != IndexOf(run[1..][i + 1].table, h)
      {
        assert kinds[1..][i] == kinds[i + 1];
      }
      CallsBounded(run[1..], kinds[1..], h, n);
      DistanceBounds(b, h);
      assert kinds[0] == Reap ==> n * Reapings(kinds) == n * Reapings(kinds[1..]) + n;
    }
  }

  lemma StepSizes(a: Config, kind: Kind, b: Config, h: nat)
    requires Runnable(a, h) && Runnable(b, h) && Step(a, kind, b)
    ensures |b.table| <= |a.table|
    ensures kind == Other ==> Distance(b, h) == Distance(a, h)
    ensures kind == Call && b.current != IndexOf(b.table, h) ==> Distance(b, h) < Distance(a, h)
    ensures kind == Reap ==> |b.table| < |a.table|
  {
    match kind
    case Call =>
      CallCloser(a, b, h);
    case Reap =>
      var r: nat :| Reaps(a.table, a.current, r, b.table, a.now);
      ReapsKeeps(a.table, a.current, r, b.table, a.now);
    case Other =>
      IndexSame(a.table, b.table, h);
  }

  /**
   * A thread that stays runnable is selected within n * (1 + reapings) scheduler calls, n being the
   * size of the table: a run with that many calls cannot have passed it over.
   */
  lemma {:induction false} RunnableIsSelected(run: seq<Config>, kinds: seq<Kind>, h: nat)
    requires RunnableThroughout(run, kinds, h)
    requires Calls(kinds) >= |run[0].table| * (1 + Reapings(kinds))
    ensures exists i :: 0 <= i < |kinds| && kinds[i] != Other && run[i + 1].current == IndexOf(run[i + 1].table, h)
  {
    hide Runnable, Step, Distance, IndexOf, Calls, Reapings;
    var n := |run[0].table|;
    assert n * (1 + Reapings(kinds)) == n + n * Reapings(kinds);
    DistanceBounds(run[0], h);
    if NeverSelected(run, kinds, h) {
      CallsBounded(run, kinds, h, n);
    }
  }

  // ----- fairness to sleepers -----

  /** Nobody but the scheduler touches thread h, and the main thread stays runnable in front. */
  ghost predicate LeftAlone(run: seq<Config>, kinds: seq<Kind>, h: nat) {
    && |run| == |kinds| + 1
    && (forall i :: 0 <= i < |run| ==> Ready(run[i].table) && run[i].current < |run[i].table|)
    && (forall i {:trigger kinds[i]} :: 0 <= i < |kinds| ==>
          && Step(run[i], kinds[i], run[i + 1])
          && (kinds[i] == Other ==> Same(run[i].table, run[i + 1].table, h)))
  }

  /** Thread h stands in both tables at the same place and in the same state, or in neither. */
  ghost predicate Same(t: Table, u: Table, h: nat) {
    var k := IndexOf(t, h);
    |u| == |t| && (k < |t| ==> u[k] == t[k])
  }

  /** A runnable thread that is not selected is still runnable afterwards, if nobody else touches it. */
  lemma StaysRunnable(a: Config, kind: Kind, b: Config, h: nat)
    requires Runnable(a, h) && Step(a, kind, b) && Ready(b.table) && b.current < |b.table|
    requires kind == Other ==> Same(a.table, b.table, h)
    requires kind != Other ==> b.current != IndexOf(b.table, h)
    ensures Runnable(b, h)
  {
    var k := IndexOf(a.table, h);
    match kind
    case Call =>
      SelectsKeeps(a.table, a.current, b.current, b.table, a.now, b.now);
      IndexSame(a.table, b.table, h);
    case Reap =>
      var r: nat :| Reaps(a.table, a.current, r, b.table, a.now);
      ReapsKeeps(a.table, a.current, r, b.table, a.now);
      var v: Table :| Scanned(a.table, a.current, r, v, a.now) && v[r] == a.table[r] && b.table == Without(v, r);
      assert k != r;
      assert v[k] == a.table[k] by {
        hide IndexOf;
      }
      var m := if k < r then k else k - 1;
      assert b.table[m] == v[k];
      IndexUnique(b.table, m);
    case Other =>
      IndexSame(a.table, b.table, h);
  }

  /**
   * A sleeper whose deadline has come, like any runnable thread, is selected within the same bound, as
   * long as nobody else touches it.
   */
  lemma {:induction false} DueIsSelected(run: seq<Config>, kinds: seq<Kind>, h: nat)
    requires LeftAlone(run, kinds, h) && Runnable(run[0], h)
    requires Calls(kinds) >= |run[0].table| * (1 + Reapings(kinds))
    ensures exists i :: 0 <= i < |kinds| && kinds[i] != Other && run[i + 1].current == IndexOf(run[i + 1].table, h)
  {
    hide Runnable, Step, Distance, IndexOf, Calls, Reapings, Same;
    if NeverSelected(run, kinds, h) {
      RunnableUntil(run, kinds, h, |kinds|);
      RunnableIsSelected(run, kinds, h);
    }
  }

  lemma {:induction false} RunnableUntil(run: seq<Config>, kinds: seq<Kind>, h: nat, n: nat)
    requires LeftAlone(run, kinds, h) && Runnable(run[0], h) && NeverSelected(run, kinds, h) && n <= |kinds|
    ensures forall i :: 0 <= i <= n ==> Runnable(run[i], h)
  {
    hide Runnable, Step, IndexOf, Same;
    if n > 0 {
      RunnableUntil(run, kinds, h, n - 1);
      assert Step(run[n - 1], kinds[n - 1], run[n]);
      StaysRunnable(run[n - 1], kinds[n - 1], run[n], h);
    }
  }
}
