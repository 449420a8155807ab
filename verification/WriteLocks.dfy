/**
  Threads that fill a shared cache: one at a time writes a path, the others wait
  for it by polling. A thread's step ends where the other threads can see it:
  at what it does to the locks, or at what it writes.
*/
module WriteLocks {
  import opened Channels

  type Path = string
  type ThreadId = nat

  /** The cache item a call works on; every call makes its own. */
  datatype Item = Item(path: Path, writeLocked: bool)

  /** What comes of a call, and how often it slept if it got no lock. */
  datatype Outcome =
    | Nothing
    | Wrote(path: Path)
    | WriteFailed(path: Path)
    | NotLocked(path: Path)
    | LeftToAnother(path: Path, sleeps: nat)
    | TimedOut(path: Path, sleeps: nat)

  /** Where a thread is in `getResource`. */
  datatype Thread =
    | Outside(outcome: Outcome)                                      // with what came of its last call
    | Asks(item: Item)                                               // about to try for the lock
    | Waits(item: Item, timeout: Int32, sleeps: nat, since: nat)     // in the polling loop, since that many releases
    | Holds(item: Item)                                              // has the lock
    | Writes(item: Item)                                             // is writing the content
    | Leaves(item: Item, outcome: Outcome)                           // about to release

  /** `releases` counts how often each path was released, for the record. */
  datatype State = State(locks: set<Path>, threads: map<ThreadId, Thread>, releases: map<Path, nat>)

  function Releases(s: State, p: Path): nat {
    if p in s.releases then s.releases[p] else 0
  }

  /** `timeout += 100` on an `int`. */
  function Later(timeout: Int32): Int32 {
    if timeout + 100 < 0x8000_0000 then timeout + 100 else timeout + 100 - 0x1_0000_0000
  }

  // -------------------------------------------------------------------- steps

  function With(s: State, t: ThreadId, th: Thread): State {
    s.(threads := s.threads[t := th])
  }

  /** `locks.add`, with the item marked by whether the path was new. */
  function Try(s: State, t: ThreadId, item: Item): State {
    if item.path in s.locks then With(s, t, Waits(item.(writeLocked := false), 0, 0, Releases(s, item.path)))
    else With(s, t, Holds(item.(writeLocked := true))).(locks := s.locks + {item.path})
  }

  /** A round of the polling loop: gives up if it has waited too long, sleeps, and looks at the locks. */
  function Polled(limit: Int32, locks: set<Path>, w: Thread): Thread
    requires w.Waits?
  {
    if w.timeout > limit then Outside(TimedOut(w.item.path, w.sleeps))
    else if w.item.path in locks then w.(timeout := Later(w.timeout), sleeps := w.sleeps + 1)
    else Outside(LeftToAnother(w.item.path, w.sleeps + 1))
  }

  function Release(s: State, t: ThreadId, w: Thread): State
    requires w.Leaves?
  {
    var p := w.item.path;
    With(s, t, Outside(w.outcome)).(locks := s.locks - {p}, releases := s.releases[p := Releases(s, p) + 1])
  }

  /** The next step of a thread that is in a call. */
  function Step(s: State, limit: Int32, t: ThreadId): State
    requires t in s.threads
  {
    var th := s.threads[t];
    match th
    case Outside(_) => s
    case Asks(item) => Try(s, t, item)
    case Waits(_, _, _, _) => With(s, t, Polled(limit, s.locks, th))
    case Holds(item) => With(s, t, if item.writeLocked then Writes(item) else Leaves(item, NotLocked(item.path)))
    case Writes(item) => With(s, t, Leaves(item, Wrote(item.path)))
    case Leaves(_, _) => Release(s, t, th)
  }

  /** Writing may fail; the lock is released all the same. */
  function Fail(s: State, t: ThreadId): State
    requires t in s.threads && s.threads[t].Writes?
  {
    With(s, t, Leaves(s.threads[t].item, WriteFailed(s.threads[t].item.path)))
  }

  /** A call for a path whose cached content is out of date; a thread appears with its first. */
  predicate CanCall(s: State, t: ThreadId) {
    t in s.threads ==> s.threads[t].Outside?
  }

  function Call(s: State, t: ThreadId, p: Path): State {
    With(s, t, Asks(Item(p, false)))
  }

  // ---------------------------------------------------------------- invariant

  /** The thread has got the lock on `p` and not yet released it. */
  predicate HasLock(th: Thread, p: Path) {
    (th.Holds? || th.Writes? || th.Leaves?) && th.item.path == p
  }

  /** A path is locked if and only if exactly one thread holds it. */
  ghost predicate LocksAreHeld(s: State) {
    && (forall t, p :: t in s.threads && HasLock(s.threads[t], p) ==> p in s.locks)
    && (forall p :: p in s.locks ==> exists t :: t in s.threads && HasLock(s.threads[t], p))
    && forall t, u, p :: t in s.threads && u in s.threads && HasLock(s.threads[t], p) && HasLock(s.threads[u], p) ==> t == u
  }

  /** The counter after `n` rounds, which wraps as an `int` does. */
  function Counter(n: nat): Int32 {
    if n == 0 then 0 else Later(Counter(n - 1))
  }

  /** A thread that has slept `n` times was within the limit before each. */
  ghost predicate WithinLimit(limit: Int32, n: nat) {
    forall i :: 0 <= i < n ==> Counter(i) <= limit
  }

  ghost predicate OutcomeValid(limit: Int32, o: Outcome) {
    match o
    case LeftToAnother(p, sleeps) => WithinLimit(limit, sleeps)
    case TimedOut(p, sleeps) => WithinLimit(limit, sleeps) && Counter(sleeps) > limit
    case NotLocked(_) => false
    case _ => true
  }

  ghost predicate ThreadValid(s: State, limit: Int32, th: Thread) {
    match th
    case Waits(item, timeout, sleeps, since) =>
      && timeout == Counter(sleeps) && WithinLimit(limit, sleeps)
      && since <= Releases(s, item.path) && (since == Releases(s, item.path) ==> item.path in s.locks)
    case Holds(item) => item.writeLocked
    case Writes(item) => item.writeLocked
    case Leaves(item, outcome) => outcome == Wrote(item.path) || outcome == WriteFailed(item.path)
    case Asks(item) => true
    case Outside(outcome) => OutcomeValid(limit, outcome)
  }

  ghost predicate Invariant(s: State, limit: Int32) {
    LocksAreHeld(s) && forall t :: t in s.threads ==> ThreadValid(s, limit, s.threads[t])
  }

  /** A move that changes neither the locks nor who has them keeps the invariant if the thread's own state is sound. */
  lemma LocalMove(s: State, limit: Int32, t: ThreadId, th: Thread)
    requires Invariant(s, limit) && ThreadValid(s, limit, th)
    requires forall p :: HasLock(th, p) <==> t in s.threads && HasLock(s.threads[t], p)
    ensures Invariant(With(s, t, th), limit)
  {
    var s' := With(s, t, th);
    forall p | p in s'.locks
      ensures exists u :: u in s'.threads && HasLock(s'.threads[u], p)
    {
      var u :| u in s.threads && HasLock(s.threads[u], p);
      assert u in s'.threads && HasLock(s'.threads[u], p);
    }
  }

  lemma TryKeeps(s: State, limit: Int32, t: ThreadId, item: Item)
    requires Invariant(s, limit) && t in s.threads && s.threads[t] == Asks(item)
    ensures Invariant(Try(s, t, item), limit)
  {
    if item.path in s.locks {
      LocalMove(s, limit, t, Waits(item.(writeLocked := false), 0, 0, Releases(s, item.path)));
    } else {
      var s' := Try(s, t, item);
      forall p | p in s'.locks
        ensures exists u :: u in s'.threads && HasLock(s'.threads[u], p)
      {
        if p == item.path {
          assert HasLock(s'.threads[t], p);
        } else {
          var u :| u in s.threads && HasLock(s.threads[u], p);
          assert u in s'.threads && HasLock(s'.threads[u], p);
        }
      }
    }
  }

  lemma OneMoreSleep(limit: Int32, n: nat)
    requires WithinLimit(limit, n) && Counter(n) <= limit
    ensures WithinLimit(limit, n + 1) && Counter(n + 1) == Later(Counter(n))
  {
  }

  lemma PollKeeps(s: State, limit: Int32, t: ThreadId)
    requires Invariant(s, limit) && t in s.threads && s.threads[t].Waits?
    ensures Invariant(With(s, t, Polled(limit, s.locks, s.threads[t])), limit)
  {
    var w := s.threads[t];
    assert ThreadValid(s, limit, w);
    if w.timeout <= limit {
      OneMoreSleep(limit, w.sleeps);
    }
    LocalMove(s, limit, t, Polled(limit, s.locks, w));
  }

  lemma ReleaseKeeps(s: State, limit: Int32, t: ThreadId)
    requires Invariant(s, limit) && t in s.threads && s.threads[t].Leaves?
    ensures Invariant(Release(s, t, s.threads[t]), limit)
  {
    var w := s.threads[t];
    var s' := Release(s, t, w);
    assert HasLock(w, w.item.path);
    forall p | p in s'.locks
      ensures exists u :: u in s'.threads && HasLock(s'.threads[u], p)
    {
      var u :| u in s.threads && HasLock(s.threads[u], p);
      assert u in s'.threads && HasLock(s'.threads[u], p);
    }
    forall u | u in s'.threads
      ensures ThreadValid(s', limit, s'.threads[u])
    {
      assert ThreadValid(s, limit, s.threads[u]);
    }
  }

  lemma StepKeeps(s: State, limit: Int32, t: ThreadId)
    requires Invariant(s, limit) && t in s.threads
    ensures Invariant(Step(s, limit, t), limit)
  {
    var th := s.threads[t];
    assert ThreadValid(s, limit, th);
    match th
    case Outside(_) =>
    case Asks(item) => TryKeeps(s, limit, t, item);
    case Waits(_, _, _, _) => PollKeeps(s, limit, t);
    case Holds(item) => LocalMove(s, limit, t, Writes(item));
    case Writes(item) => LocalMove(s, limit, t, Leaves(item, Wrote(item.path)));
    case Leaves(_, _) => ReleaseKeeps(s, limit, t);
  }

  // --------------------------------------------------------------------- runs

  datatype Move = Calls(t: ThreadId, path: Path) | Steps(t: ThreadId) | Fails(t: ThreadId)

  function Start(): State {
    State({}, map[], map[])
  }

  /** What a move does when its thread can make it; otherwise nothing happens. */
  ghost function Next(s: State, limit: Int32, m: Move): (s': State)
    requires Invariant(s, limit)
    ensures Invariant(s', limit)
  {
    match m
    case Calls(t, p) =>
      if CanCall(s, t) then LocalMove(s, limit, t, Asks(Item(p, false))); Call(s, t, p) else s
    case Steps(t) =>
      if t in s.threads then StepKeeps(s, limit, t); Step(s, limit, t) else s
    case Fails(t) =>
      if t in s.threads && s.threads[t].Writes? then
        LocalMove(s, limit, t, Leaves(s.threads[t].item, WriteFailed(s.threads[t].item.path)));
        Fail(s, t)
      else s
  }

  /** The state after any interleaving of any number of threads. */
  ghost function Reached(limit: Int32, moves: seq<Move>): (s: State)
    ensures Invariant(s, limit)
  {
    if moves == [] then Start() else Next(Reached(limit, moves[..|moves| - 1]), limit, moves[|moves| - 1])
  }

  /** A path is locked if and only if some thread holds it, and then only one does; so one writes it at most, and none is refused. */
  lemma OneHolderPerPath(limit: Int32, moves: seq<Move>, p: Path)
    ensures var s := Reached(limit, moves);
      && (p in s.locks <==> exists t :: t in s.threads && HasLock(s.threads[t], p))
      && (forall t, u :: t in s.threads && u in s.threads && HasLock(s.threads[t], p) && HasLock(s.threads[u], p) ==> t == u)
      && forall t :: t in s.threads ==> s.threads[t] != Outside(NotLocked(p))
  {
    var s := Reached(limit, moves);
    forall t | t in s.threads
      ensures s.threads[t] != Outside(NotLocked(p))
    {
      assert ThreadValid(s, limit, s.threads[t]);
    }
  }

  /** Thread `t` tried for the lock on `p` at move `i`, when it had been released `since` times. */
  ghost predicate TriedAt(limit: Int32, moves: seq<Move>, t: ThreadId, p: Path, since: nat, i: nat) {
    && i < |moves| && moves[i] == Steps(t)
    && var s := Reached(limit, moves[..i]);
       t in s.threads && s.threads[t].Asks? && s.threads[t].item.path == p && Releases(s, p) == since
  }

  /** A thread released the lock on `p` at move `j`. */
  ghost predicate ReleasedAt(limit: Int32, moves: seq<Move>, p: Path, j: nat) {
    && j < |moves| && moves[j].Steps?
    && var s := Reached(limit, moves[..j]);
       moves[j].t in s.threads && s.threads[moves[j].t].Leaves? && HasLock(s.threads[moves[j].t], p)
  }

  /** A thread comes to wait by trying for a locked path, and goes on waiting for it. */
  lemma ComesToWait(s: State, limit: Int32, m: Move, t: ThreadId)
    requires Invariant(s, limit) && t in Next(s, limit, m).threads && Next(s, limit, m).threads[t].Waits?
    ensures t in s.threads && (s.threads[t].Waits? || (s.threads[t].Asks? && m == Steps(t)))
    ensures var v, w := s.threads[t], Next(s, limit, m).threads[t];
      v.item.path == w.item.path && w.since == if v.Waits? then v.since else Releases(s, v.item.path)
  {
    hide Invariant;
  }

  /** Only a release is counted as one. */
  lemma ComesToRelease(s: State, limit: Int32, m: Move, p: Path)
    requires Invariant(s, limit)
    ensures Releases(s, p) < Releases(Next(s, limit, m), p) ==>
      m.Steps? && m.t in s.threads && s.threads[m.t].Leaves? && HasLock(s.threads[m.t], p)
  {
    hide Invariant;
  }

  lemma {:induction false} WaitersTried(limit: Int32, moves: seq<Move>, t: ThreadId) returns (i: nat)
    requires var s := Reached(limit, moves); t in s.threads && s.threads[t].Waits?
    ensures var w := Reached(limit, moves).threads[t]; TriedAt(limit, moves, t, w.item.path, w.since, i)
    decreases |moves|
  {
    hide Invariant, Next;
    var k := |moves| - 1;
    var before := Reached(limit, moves[..k]);
    ComesToWait(before, limit, moves[k], t);
    if t in before.threads && before.threads[t].Waits? {
      i := WaitersTried(limit, moves[..k], t);
      assert moves[..k][..i] == moves[..i];
    } else {
      i := k;
    }
  }

  lemma {:induction false} ReleasedBetween(limit: Int32, moves: seq<Move>, p: Path, i: nat) returns (j: nat)
    requires i <= |moves| && Releases(Reached(limit, moves[..i]), p) < Releases(Reached(limit, moves), p)
    ensures i <= j && ReleasedAt(limit, moves, p, j)
    decreases |moves|
  {
    hide Invariant, Next;
    assert moves[..|moves|] == moves;
    var k := |moves| - 1;
    ComesToRelease(Reached(limit, moves[..k]), limit, moves[k], p);
    if Releases(Reached(limit, moves[..k]), p) < Releases(Reached(limit, moves), p) {
      j := k;
    } else {
      assert moves[..k][..i] == moves[..i];
      j := ReleasedBetween(limit, moves[..k], p, i);
      assert moves[..k][..j] == moves[..j];
    }
  }

  /** A call that gets `false` tried for the lock, and after that some thread released it. */
  lemma FalseMeansReleased(limit: Int32, moves: seq<Move>, t: ThreadId)
    requires var s := Reached(limit, moves); t in s.threads && s.threads[t].Waits?
    requires var s' := Reached(limit, moves + [Steps(t)]); s'.threads[t].Outside? && s'.threads[t].outcome.LeftToAnother?
    ensures var p := Reached(limit, moves).threads[t].item.path;
      exists since, i, j :: TriedAt(limit, moves, t, p, since, i) && i < j && ReleasedAt(limit, moves, p, j)
  {
    var s := Reached(limit, moves);
    var w := s.threads[t];
    assert (moves + [Steps(t)])[..|moves|] == moves;
    assert ThreadValid(s, limit, w);
    var i := WaitersTried(limit, moves, t);
    var j := ReleasedBetween(limit, moves, w.item.path, i);
    assert TriedAt(limit, moves, t, w.item.path, w.since, i) && i < j && ReleasedAt(limit, moves, w.item.path, j);
  }

  predicate HasWritten(th: Thread, p: Path) {
    (th.Leaves? || th.Outside?) && th.outcome == Wrote(p)
  }

  /** At move `i` thread `t` finishes writing `p`, and no other has the lock on it. */
  ghost predicate WroteAt(limit: Int32, moves: seq<Move>, t: ThreadId, p: Path, i: nat) {
    && i < |moves| && moves[i] == Steps(t)
    && var s := Reached(limit, moves[..i]);
       && t in s.threads && s.threads[t] == Writes(Item(p, true)) && p in s.locks
       && forall u :: u in s.threads && HasLock(s.threads[u], p) ==> u == t
  }

  /** A thread comes to have written by a step out of writing, and its lock is its own. */
  lemma ComesToHaveWritten(s: State, limit: Int32, m: Move, t: ThreadId, p: Path)
    requires Invariant(s, limit) && t in Next(s, limit, m).threads && HasWritten(Next(s, limit, m).threads[t], p)
    requires !(t in s.threads && HasWritten(s.threads[t], p))
    ensures m == Steps(t) && t in s.threads && s.threads[t] == Writes(Item(p, true)) && p in s.locks
    ensures forall u :: u in s.threads && HasLock(s.threads[u], p) ==> u == t
  {
    assert t in s.threads ==> ThreadValid(s, limit, s.threads[t]);
    assert t in s.threads && s.threads[t].Writes? && s.threads[t].item.path == p;
    assert HasLock(s.threads[t], p);
  }

  /** Whoever says to have written a path did so while it alone held the lock. */
  lemma {:induction false} WrittenUnderLock(limit: Int32, moves: seq<Move>, t: ThreadId, p: Path) returns (i: nat)
    requires t in Reached(limit, moves).threads && HasWritten(Reached(limit, moves).threads[t], p)
    ensures WroteAt(limit, moves, t, p, i)
    decreases |moves|
  {
    hide Invariant, Next;
    var k := |moves| - 1;
    var before := Reached(limit, moves[..k]);
    if t in before.threads && HasWritten(before.threads[t], p) {
      i := WrittenUnderLock(limit, moves[..k], t, p);
      assert moves[..k][..i] == moves[..i];
    } else {
      ComesToHaveWritten(before, limit, moves[k], t, p);
      i := k;
    }
  }

  /** A call that finds its path free gets through in steps of its own, and leaves the locks as they were. */
  lemma FreeCallsGetThrough(s: State, limit: Int32, t: ThreadId, p: Path)
    requires CanCall(s, t) && p !in s.locks
    ensures var asked := Call(s, t, p); var locked := Step(asked, limit, t);
      && locked.locks == s.locks + {p} && t in locked.threads && HasLock(locked.threads[t], p)
      && var done := Step(Step(Step(locked, limit, t), limit, t), limit, t);
         done.locks == s.locks && t in done.threads && done.threads[t] == Outside(Wrote(p)) && Releases(done, p) == Releases(s, p) + 1
  {
    var asked := Call(s, t, p);
    var locked := Step(asked, limit, t);
    assert locked.threads[t] == Holds(Item(p, true));
    var writing := Step(locked, limit, t);
    var leaving := Step(writing, limit, t);
    assert leaving.threads[t] == Leaves(Item(p, true), Wrote(p)) && leaving.locks == s.locks + {p};
    assert s.locks + {p} - {p} == s.locks;
  }

  // ------------------------------------------------------------- the time limit

  /** How often a waiter is meant to sleep at most. */
  function MaxSleeps(limit: Int32): nat {
    if limit < 0 then 0 else limit / 100 + 1
  }

  /** The last limit that the counter can pass without wrapping around. */
  const LAST_SOUND_LIMIT: Int32 := 2147483599

  lemma {:induction false} CounterCounts(n: nat)
    requires n <= 21474836
    ensures Counter(n) == 100 * n
  {
    if n > 0 {
      CounterCounts(n - 1);
    }
  }

  /** The counter keeps to the limit exactly when it is one that it can pass. */
  lemma CounterKeepsLimitIff(limit: Int32)
    ensures (forall n: nat :: WithinLimit(limit, n) ==> n <= MaxSleeps(limit)) <==> limit <= LAST_SOUND_LIMIT
  {
    if limit <= LAST_SOUND_LIMIT {
      CounterCounts(MaxSleeps(limit));
      assert Counter(MaxSleeps(limit)) > limit;
    } else {
      TooOften(limit);
    }
  }

  const TOO_MANY_SLEEPS: nat := 21474838

  lemma TooOften(limit: Int32)
    requires limit > LAST_SOUND_LIMIT
    ensures WithinLimit(limit, TOO_MANY_SLEEPS) && TOO_MANY_SLEEPS > MaxSleeps(limit)
  {
    forall i | 0 <= i < TOO_MANY_SLEEPS
      ensures Counter(i) <= limit
    {
      CounterCounts(Min(i, 21474836));
    }
  }

  /** In any run, a call that gave up slept exactly as often as it was meant to at most; no call sleeps more often. */
  lemma SleepsAreBounded(limit: Int32, moves: seq<Move>, t: ThreadId)
    requires limit <= LAST_SOUND_LIMIT && t in Reached(limit, moves).threads
    ensures match Reached(limit, moves).threads[t]
      case Waits(_, _, sleeps, _) => sleeps <= MaxSleeps(limit)
      case Outside(LeftToAnother(_, sleeps)) => sleeps <= MaxSleeps(limit)
      case Outside(TimedOut(_, sleeps)) => sleeps == MaxSleeps(limit)
      case _ => true
  {
    var s := Reached(limit, moves);
    assert ThreadValid(s, limit, s.threads[t]);
    CounterKeepsLimitIff(limit);
    CounterCounts(MaxSleeps(limit));
    if s.threads[t].Outside? && s.threads[t].outcome.TimedOut? {
      CounterCounts(s.threads[t].outcome.sleeps);
    }
  }

  // ------------------------------------------ a thread that waits too often

  lemma ReachedNext(limit: Int32, moves: seq<Move>, m: Move)
    ensures Reached(limit, moves + [m]) == Next(Reached(limit, moves), limit, m)
  {
    assert (moves + [m])[..|moves|] == moves;
  }

  /** One thread gets the lock, and another polls for it `n` times. */
  function Polling(p: Path, n: nat): (moves: seq<Move>)
    ensures |moves| == n + 4
  {
    if n == 0 then [] + [Calls(0, p)] + [Steps(0)] + [Calls(1, p)] + [Steps(1)] else Polling(p, n - 1) + [Steps(1)]
  }

  /** Thread 0 holds the lock on `p`, and thread 1 has polled for it `n` times. */
  function Waiting(p: Path, n: nat): State {
    State({p}, map[0 := Holds(Item(p, true)), 1 := Waits(Item(p, false), Counter(n), n, 0)], map[])
  }

  lemma FirstStates(limit: Int32, p: Path)
    ensures var s := Step(Call(Start(), 0, p), limit, 0);
      s == State({p}, map[0 := Holds(Item(p, true))], map[]) && Step(Call(s, 1, p), limit, 1) == Waiting(p, 0)
  {
    var s := Step(Call(Start(), 0, p), limit, 0);
    assert s.threads == map[0 := Holds(Item(p, true))] && s.locks == {p};
    assert Step(Call(s, 1, p), limit, 1).threads == Waiting(p, 0).threads;
  }

  lemma FirstMoves(limit: Int32, p: Path)
    ensures Reached(limit, [] + [Calls(0, p)] + [Steps(0)]) == Step(Call(Start(), 0, p), limit, 0)
  {
    hide Invariant, Try;
    var none: seq<Move> := [];
    ReachedNext(limit, none, Calls(0, p));
    ReachedNext(limit, none + [Calls(0, p)], Steps(0));
  }

  lemma FirstPolls(limit: Int32, p: Path)
    ensures Reached(limit, Polling(p, 0)) == Waiting(p, 0)
  {
    hide Invariant, Try, Reached, Waiting;
    var moves := [] + [Calls(0, p)] + [Steps(0)];
    FirstStates(limit, p);
    FirstMoves(limit, p);
    ReachedNext(limit, moves, Calls(1, p));
    ReachedNext(limit, moves + [Calls(1, p)], Steps(1));
  }

  lemma {:induction false} PollsOn(limit: Int32, p: Path, n: nat)
    requires WithinLimit(limit, n)
    ensures Reached(limit, Polling(p, n)) == Waiting(p, n)
  {
    hide Invariant, Waiting, Reached, Step;
    if n == 0 {
      FirstPolls(limit, p);
    } else {
      PollsOn(limit, p, n - 1);
      ReachedNext(limit, Polling(p, n - 1), Steps(1));
      PollsOnce(limit, p, n - 1);
    }
  }

  lemma PollsOnce(limit: Int32, p: Path, n: nat)
    requires Counter(n) <= limit
    ensures 1 in Waiting(p, n).threads && Step(Waiting(p, n), limit, 1) == Waiting(p, n + 1)
  {
    assert Step(Waiting(p, n), limit, 1).threads == Waiting(p, n + 1).threads;
  }

  /** A thread waits that has slept more often than it was meant to. */
  ghost predicate Oversleeps(limit: Int32, moves: seq<Move>, t: ThreadId) {
    var s := Reached(limit, moves);
    t in s.threads && s.threads[t].Waits? && s.threads[t].sleeps > MaxSleeps(limit)
  }

  /** Over all runs, waiters keep to the limit if and only if it is one that the counter can pass. */
  lemma LimitHoldsIff(limit: Int32)
    ensures (forall moves, t :: !Oversleeps(limit, moves, t)) <==> limit <= LAST_SOUND_LIMIT
  {
    if limit <= LAST_SOUND_LIMIT {
      forall moves, t
        ensures !Oversleeps(limit, moves, t)
      {
        if t in Reached(limit, moves).threads {
          SleepsAreBounded(limit, moves, t);
        }
      }
    } else {
      TooOften(limit);
      PollsOn(limit, "p", TOO_MANY_SLEEPS);
      assert Oversleeps(limit, Polling("p", TOO_MANY_SLEEPS), 1);
    }
  }

  // ---------------------------------------------------------------- the cache

  /** A waiter after it has looked at the locks time and again. */
  function PolledAll(limit: Int32, w: Thread, seen: seq<set<Path>>): Thread {
    if seen == [] then w
    else
      var v := PolledAll(limit, w, seen[..|seen| - 1]);
      if v.Waits? then Polled(limit, seen[|seen| - 1], v) else v
  }

  lemma {:induction false} PolledOut(limit: Int32, w: Thread, seen: seq<set<Path>>, k: nat)
    requires k <= |seen| && !PolledAll(limit, w, seen[..k]).Waits?
    ensures PolledAll(limit, w, seen) == PolledAll(limit, w, seen[..k])
  {
    if k < |seen| {
      assert seen[..|seen| - 1][..k] == seen[..k];
      PolledOut(limit, w, seen[..|seen| - 1], k);
    } else {
      assert seen[..k] == seen;
    }
  }

  /** The first `n` looks found the path locked, and none came too late. */
  ghost predicate KeptWaiting(limit: Int32, p: Path, seen: seq<set<Path>>, n: nat)
    requires n <= |seen|
  {
    WithinLimit(limit, n) && forall i :: 0 <= i < n ==> p in seen[i]
  }

  /** What a waiter comes to: another thread's release, seen at its last look; a time out; or it still waits. */
  lemma {:induction false} PollingEnds(limit: Int32, item: Item, since: nat, seen: seq<set<Path>>)
    ensures var p := item.path;
      match PolledAll(limit, Waits(item, 0, 0, since), seen)
      case Outside(LeftToAnother(q, n)) => q == p && 0 < n <= |seen| && WithinLimit(limit, n) && KeptWaiting(limit, p, seen, n - 1) && p !in seen[n - 1]
      case Outside(TimedOut(q, n)) => q == p && n < |seen| && KeptWaiting(limit, p, seen, n) && Counter(n) > limit
      case Waits(i, timeout, n, k) => i == item && k == since && n == |seen| && timeout == Counter(n) && KeptWaiting(limit, p, seen, n)
      case _ => false
  {
    if seen != [] {
      var k := |seen| - 1;
      PollingEnds(limit, item, since, seen[..k]);
      assert forall i :: 0 <= i < k ==> seen[..k][i] == seen[i];
    }
  }

  /** `AbstractCacheItem`: content may be written only under the lock. */
  class CacheItem {
    const path: Path
    var writeLocked: bool

    constructor (path: Path)
      ensures this.path == path && !writeLocked
    {
      this.path := path;
      writeLocked := false;
    }

    /** `writeContent`, whose output may fail. */
    method WriteContent(outputWorks: bool) returns (o: Outcome)
      ensures o == if !writeLocked then NotLocked(path) else if outputWorks then Wrote(path) else WriteFailed(path)
    {
      if !writeLocked {
        return NotLocked(path);
      }
      return if outputWorks then Wrote(path) else WriteFailed(path);
    }
  }

  class ResourceCache {
    var locks: set<Path>
    const timeout: Int32

    constructor (timeout: Int32)
      ensures locks == {} && this.timeout == timeout
    {
      locks := {};
      this.timeout := timeout;
    }

    /**
      `getWriteLock`. While the thread sleeps the others change the locks: `seen`
      is what they leave each time it wakes up. When that record ends before the
      loop does, the call is still waiting.
    */
    method GetWriteLock(item: CacheItem, seen: seq<set<Path>>) returns (th: Thread)
      modifies this`locks, item
      ensures item.writeLocked <==> item.path !in old(locks)
      ensures item.path !in old(locks) ==> th == Holds(Item(item.path, true)) && locks == old(locks) + {item.path}
      ensures item.path in old(locks) ==>
        && th == PolledAll(timeout, Waits(Item(item.path, false), 0, 0, 0), seen)
        && Sleeps(th) <= |seen| && locks == if Sleeps(th) == 0 then old(locks) else seen[Sleeps(th) - 1]
    {
      item.writeLocked := item.path !in locks;
      locks := locks + {item.path};
      if item.writeLocked {
        return Holds(Item(item.path, true));
      }
      assert locks == old(locks);
      ghost var start := Waits(Item(item.path, false), 0, 0, 0);
      var wait, waited, sleeps: nat := true, 0, 0;
      while wait
        invariant waited == Counter(sleeps) && sleeps <= |seen| && !item.writeLocked
        invariant locks == if sleeps == 0 then old(locks) else seen[sleeps - 1]
        invariant PolledAll(timeout, start, seen[..sleeps]) ==
          if wait then Waits(Item(item.path, false), waited, sleeps, 0) else Outside(LeftToAnother(item.path, sleeps))
        decreases |seen| - sleeps, wait
      {
        if sleeps == |seen| {
          assert seen[..sleeps] == seen;
          return Waits(Item(item.path, false), waited, sleeps, 0);
        }
        assert seen[..sleeps + 1][..sleeps] == seen[..sleeps];
        if waited > timeout {
          PolledOut(timeout, start, seen, sleeps + 1);
          return Outside(TimedOut(item.path, sleeps));
        }
        locks := seen[sleeps];
        waited, sleeps := Later(waited), sleeps + 1;
        wait := item.path in locks;
      }
      PolledOut(timeout, start, seen, sleeps);
      return Outside(LeftToAnother(item.path, sleeps));
    }

    method ReleaseWriteLock(item: CacheItem)
      modifies this`locks, item
      ensures locks == old(locks) - {item.path} && !item.writeLocked
    {
      locks := locks - {item.path};
      item.writeLocked := false;
    }

    /**
      `getResource` of a path that exists: a fresh item each time; content that is
      out of date is written under the lock, which is released however that ends.
    */
    method GetResource(path: Path, upToDate: bool, outputWorks: bool, seen: seq<set<Path>>) returns (th: Thread)
      modifies this`locks
      ensures upToDate ==> th == Outside(Nothing) && locks == old(locks)
      ensures !upToDate && path !in old(locks) ==>
        th == Outside(if outputWorks then Wrote(path) else WriteFailed(path)) && locks == old(locks)
      ensures !upToDate && path in old(locks) ==>
        && th == PolledAll(timeout, Waits(Item(path, false), 0, 0, 0), seen)
        && Sleeps(th) <= |seen| && locks == if Sleeps(th) == 0 then old(locks) else seen[Sleeps(th) - 1]
    {
      var item := new CacheItem(path);
      if upToDate {
        return Outside(Nothing);
      }
      th := GetWriteLock(item, seen);
      if item.writeLocked {
        var o := item.WriteContent(outputWorks);
        ReleaseWriteLock(item);
        return Outside(o);
      }
    }
  }

  function Sleeps(th: Thread): nat {
    match th
    case Waits(_, _, sleeps, _) => sleeps
    case Outside(LeftToAnother(_, sleeps)) => sleeps
    case Outside(TimedOut(_, sleeps)) => sleeps
    case _ => 0
  }
}
