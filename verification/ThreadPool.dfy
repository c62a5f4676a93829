/** serv08: one accepting thread, any number of workers, a ring and a condition variable. */
module ThreadPool {
  import opened Basics
  import opened Rings

  const MAXNCLI := 32

  datatype Owner = Free | MainHolds | WorkerHolds(w: nat)

  datatype MainPc = Accepting | Wanting(fd: int) | Locked(fd: int) | Stored | Signalled

  /** Testing and Took hold the mutex; Testing remembers whether the worker came out of cond_wait. */
  datatype WorkerPc = Outside | Testing(woken: bool) | Asleep | Woken | Took(fd: int) | Serving(fd: int)

  datatype State = State(clifd: seq<int>, iget: nat, iput: nat, mutex: Owner, main: MainPc, workers: seq<WorkerPc>,
                         threadCount: seq<nat>, quit: bool, accepted: seq<int>, taken: seq<(nat, int)>)

  ghost predicate Init(s: State) {
    && |s.clifd| == MAXNCLI && s.iget == s.iput == 0 && s.mutex == Free && s.main == Accepting && !s.quit
    && s.accepted == [] && s.taken == [] && |s.threadCount| == |s.workers|
    && forall w :: 0 <= w < |s.workers| ==> s.workers[w] == Outside && s.threadCount[w] == 0
  }

  // ----- the accepting thread -----

  function Accept(s: State, fd: int): State {
    s.(main := Wanting(fd), accepted := s.accepted + [fd])
  }

  function Store(s: State): State
    requires s.main.Locked? && s.iput < |s.clifd| == MAXNCLI
  {
    var put := Bump(s.iput, MAXNCLI);
    s.(clifd := s.clifd[s.iput := s.main.fd], iput := put, main := Stored, quit := put == s.iget)
  }

  /** pthread_cond_signal releases one sleeper if there is any; more than one is that and spurious wakeups. */
  ghost predicate Signal(s: State, s': State) {
    if Asleep in s.workers then
      exists w :: 0 <= w < |s.workers| && s.workers[w] == Asleep &&
                  s' == s.(main := Signalled, workers := s.workers[w := Woken])
    else
      s' == s.(main := Signalled)
  }

  ghost predicate MainStep(s: State, s': State) {
    match s.main
    case Accepting => exists fd :: s' == Accept(s, fd)
    case Wanting(fd) => s.mutex == Free && s' == s.(mutex := MainHolds, main := Locked(fd))
    case Locked(_) => s.iput < |s.clifd| == MAXNCLI && s' == Store(s)
    case Stored => Signal(s, s')
    case Signalled => s' == s.(mutex := Free, main := Accepting)
  }

  // ----- a worker -----

  function Take(s: State, w: nat): State
    requires w < |s.workers| && s.iget < |s.clifd| == MAXNCLI
  {
    var fd := s.clifd[s.iget];
    s.(iget := Bump(s.iget, MAXNCLI), workers := s.workers[w := Took(fd)], taken := s.taken + [(w, fd)])
  }

  function Leave(s: State, w: nat, pc: WorkerPc): State
    requires w < |s.workers|
  {
    s.(mutex := Free, workers := s.workers[w := pc])
  }

  ghost predicate WorkerStep(s: State, s': State, w: nat) {
    && w < |s.workers| == |s.threadCount|
    && match s.workers[w]
       case Outside => s.mutex == Free && s' == s.(mutex := WorkerHolds(w), workers := s.workers[w := Testing(false)])
       case Woken => s.mutex == Free && s' == s.(mutex := WorkerHolds(w), workers := s.workers[w := Testing(true)])
       case Asleep => s' == s.(workers := s.workers[w := Woken])   // spurious wakeup
       case Testing(_) =>
         if s.iget == s.iput then s' == Leave(s, w, Asleep)
         else s.iget < |s.clifd| == MAXNCLI && s' == Take(s, w)
       case Took(fd) => s' == Leave(s, w, Serving(fd)).(threadCount := s.threadCount[w := s.threadCount[w] + 1])
       case Serving(_) => s' == s.(workers := s.workers[w := Outside])
  }

  ghost predicate Next(s: State, s': State) {
    !s.quit && (MainStep(s, s') || exists w :: WorkerStep(s, s', w))
  }

  ghost predicate StepAt(run: seq<State>, i: nat)
    requires i + 1 < |run|
  {
    Next(run[i], run[i + 1])
  }

  ghost predicate IsRun(run: seq<State>) {
    |run| > 0 && Init(run[0]) && forall i :: 0 <= i < |run| - 1 ==> StepAt(run, i)
  }

  // ----- the invariant -----

  /** How many descriptors the two indices say are queued. */
  function Len(iget: nat, iput: nat): nat
    requires iget < MAXNCLI && iput < MAXNCLI
  {
    if iget <= iput then iput - iget else iput + MAXNCLI - iget
  }

  function Fds(taken: seq<(nat, int)>): seq<int> {
    seq(|taken|, i requires 0 <= i < |taken| => taken[i].1)
  }

  /** Accepted but not yet stored. */
  function InHand(m: MainPc): seq<int> {
    match m
    case Wanting(fd) => [fd]
    case Locked(fd) => [fd]
    case _ => []
  }

  /** Signalled or spuriously woken workers that have not yet re-tested the ring. */
  function Pending(ws: seq<WorkerPc>): nat {
    Count(ws, Woken) + Count(ws, Testing(true))
  }

  ghost predicate Shape(s: State) {
    |s.clifd| == MAXNCLI && s.iget < MAXNCLI && s.iput < MAXNCLI && |s.workers| == |s.threadCount|
  }

  ghost predicate Mutex(s: State) {
    && (s.mutex == MainHolds <==> s.main.Locked? || s.main.Stored? || s.main.Signalled?)
    && forall w :: 0 <= w < |s.workers| ==>
         ((s.workers[w].Testing? || s.workers[w].Took?) <==> s.mutex == WorkerHolds(w))
  }

  /** The ring is exactly the accepted descriptors no worker has taken, in order. */
  ghost predicate Fifo(s: State)
    requires Shape(s)
  {
    s.accepted == Fds(s.taken) + Window(s.clifd, s.iget, Len(s.iget, s.iput)) + InHand(s.main)
  }

  /** No lost wakeup: a sleeping worker means enough woken ones for the whole ring. */
  ghost predicate Awake(s: State)
    requires Shape(s)
  {
    Asleep in s.workers ==> Pending(s.workers) >= Len(s.iget, s.iput) - (if s.main.Stored? then 1 else 0)
  }

  /** thread_count is how many connections the worker has taken and unlocked with. */
  ghost predicate Tally(s: State)
    requires Shape(s)
  {
    forall w :: 0 <= w < |s.workers| ==>
      Count(Takers(s.taken), w) == s.threadCount[w] + (if s.workers[w].Took? then 1 else 0)
  }

  function Takers(taken: seq<(nat, int)>): seq<int> {
    seq(|taken|, i requires 0 <= i < |taken| => taken[i].0)
  }

  ghost predicate Inv(s: State) {
    !s.quit ==> Shape(s) && Mutex(s) && Fifo(s) && Awake(s) && Tally(s)
  }

  lemma LenSlot(iget: nat, iput: nat)
    requires iget < MAXNCLI && iput < MAXNCLI
    ensures iput == Slot(iget, Len(iget, iput), MAXNCLI)
  {
  }

  lemma StoreKeeps(s: State)
    requires Inv(s) && !s.quit && s.main.Locked?
    ensures Inv(Store(s))
    ensures Store(s).quit <==> Len(s.iget, s.iput) == 31
  {
    LenSlot(s.iget, s.iput);
    var s', n, w := Store(s), Len(s.iget, s.iput), Window(s.clifd, s.iget, Len(s.iget, s.iput));
    WindowPush(s.clifd, s.iget, n, s.main.fd);
    if !s'.quit {
      assert Len(s'.iget, s'.iput) == n + 1;
      assert Fds(s.taken) + w + [s.main.fd] == Fds(s.taken) + (w + [s.main.fd]) + [];
    }
  }

  lemma SignalKeeps(s: State, s': State)
    requires Inv(s) && !s.quit && s.main.Stored? && Signal(s, s')
    ensures Inv(s')
  {
    if Asleep in s.workers {
      var w :| 0 <= w < |s.workers| && s.workers[w] == Asleep &&
               s' == s.(main := Signalled, workers := s.workers[w := Woken]);
      MovePending(s.workers, w, Woken);
    }
  }

  /** How one worker's move changes the number of pending wakeups. */
  lemma MovePending(ws: seq<WorkerPc>, w: nat, pc: WorkerPc)
    requires w < |ws|
    ensures Pending(ws[w := pc]) == Pending(ws) - Weight(ws[w]) + Weight(pc)
    ensures Asleep in ws[w := pc] ==> Asleep in ws || pc == Asleep
  {
    CountUpdate(ws, w, pc, Woken);
    CountUpdate(ws, w, pc, Testing(true));
  }

  function Weight(pc: WorkerPc): nat {
    if pc == Woken || pc == Testing(true) then 1 else 0
  }

  lemma MainKeeps(s: State, s': State)
    requires Inv(s) && !s.quit && MainStep(s, s')
    ensures Inv(s')
  {
    match s.main
    case Locked(_) => StoreKeeps(s);
    case Stored => SignalKeeps(s, s');
    case Accepting =>
      var fd :| s' == Accept(s, fd);
      assert s.accepted + [] == s.accepted;
    case _ =>
  }

  lemma TakeKeeps(s: State, w: nat)
    requires Inv(s) && !s.quit && w < |s.workers| && s.workers[w].Testing? && s.iget != s.iput
    ensures Inv(Take(s, w))
    ensures Take(s, w).taken[|s.taken|].1 == s.accepted[|s.taken|]
  {
    TakeFifo(s, w);
    TakeTally(s, w);
    assert Len(Take(s, w).iget, s.iput) == Len(s.iget, s.iput) - 1;
    MovePending(s.workers, w, Took(s.clifd[s.iget]));
    var w := Window(s.clifd, s.iget, Len(s.iget, s.iput));
    assert s.accepted[|s.taken|] == w[0];
  }

  lemma TakeFifo(s: State, w: nat)
    requires Shape(s) && Fifo(s) && w < |s.workers| && s.iget != s.iput
    ensures Shape(Take(s, w)) && Fifo(Take(s, w))
  {
    LenSlot(s.iget, s.iput);
    var s', n, fd := Take(s, w), Len(s.iget, s.iput), s.clifd[s.iget];
    WindowPop(s.clifd, s.iget, n);
    assert Len(s'.iget, s'.iput) == n - 1;
    assert Fds(s'.taken) == Fds(s.taken) + [fd];
    ConcatAssoc(Fds(s.taken), [fd], Window(s.clifd, s'.iget, n - 1));
  }

  lemma TakeTally(s: State, w: nat)
    requires Shape(s) && Tally(s) && w < |s.workers| && s.workers[w].Testing?
    ensures Tally(Take(s, w))
  {
    var s' := Take(s, w);
    assert Takers(s'.taken) == Takers(s.taken) + [w];
    assert Takers(s'.taken)[..|s.taken|] == Takers(s.taken);
  }

  lemma WorkerKeeps(s: State, s': State, w: nat)
    requires Inv(s) && !s.quit && WorkerStep(s, s', w)
    ensures Inv(s')
  {
    if s.workers[w].Testing? && s.iget != s.iput {
      TakeKeeps(s, w);
    } else {
      MovePending(s.workers, w, s'.workers[w]);
      assert s'.workers == s.workers[w := s'.workers[w]];
    }
  }

  lemma {:induction false} RunInv(run: seq<State>, i: nat)
    requires IsRun(run) && i < |run|
    ensures Inv(run[i])
  {
    if i > 0 {
      RunInv(run, i - 1);
      var s, s' := run[i - 1], run[i];
      assert StepAt(run, i - 1);
      if MainStep(s, s') {
        MainKeeps(s, s');
      } else {
        var w :| WorkerStep(s, s', w);
        WorkerKeeps(s, s', w);
      }
    } else {
      assert Fds([]) == [] && Takers([]) == [];
      assert Asleep !in run[0].workers;
    }
  }

  /** Entry k is the last one that w took. */
  ghost predicate Latest(taken: seq<(nat, int)>, w: nat, fd: int, k: nat) {
    k < |taken| && taken[k] == (w, fd) && forall j :: k < j < |taken| ==> taken[j].0 != w
  }

  /** What a worker holds or serves is what it took last. */
  ghost predicate Hands(s: State) {
    forall w, fd :: 0 <= w < |s.workers| && (s.workers[w] == Took(fd) || s.workers[w] == Serving(fd)) ==>
      exists k :: Latest(s.taken, w, fd, k)
  }

  lemma LatestKept(taken: seq<(nat, int)>, w: nat, fd: int, w': nat, fd': int)
    requires w != w' && exists k :: Latest(taken, w, fd, k)
    ensures exists k :: Latest(taken + [(w', fd')], w, fd, k)
  {
    var k: nat :| Latest(taken, w, fd, k);
    assert Latest(taken + [(w', fd')], w, fd, k);
  }

  lemma TakeHands(s: State, w: nat)
    requires Shape(s) && Hands(s) && w < |s.workers| && s.iget != s.iput
    ensures Hands(Take(s, w))
  {
    var s', fd := Take(s, w), s.clifd[s.iget];
    assert Latest(s'.taken, w, fd, |s.taken|);
    forall v, x | 0 <= v < |s'.workers| && (s'.workers[v] == Took(x) || s'.workers[v] == Serving(x))
      ensures exists k :: Latest(s'.taken, v, x, k) {
      if v != w { LatestKept(s.taken, v, x, w, fd); }
    }
  }

  lemma HandsKept(s: State, s': State)
    requires !s.quit && Inv(s) && Hands(s) && Next(s, s')
    ensures Hands(s')
  {
    if MainStep(s, s') {
      assert |s'.workers| == |s.workers| && forall v :: 0 <= v < |s.workers| ==> s'.workers[v] == s.workers[v] || s'.workers[v] == Woken;
      HandsSame(s, s');
    } else {
      var w: nat :| WorkerStep(s, s', w);
      if s.workers[w].Testing? && s.iget != s.iput {
        TakeHands(s, w);
      } else {
        assert s'.workers == s.workers[w := s'.workers[w]];
        HandsSame(s, s');
      }
    }
  }

  /** Nobody took anything, and at most the lock or the sleep changed. */
  lemma HandsSame(s: State, s': State)
    requires Hands(s) && s'.taken == s.taken && |s'.workers| == |s.workers|
    requires forall v :: 0 <= v < |s.workers| ==>
               s'.workers[v] == s.workers[v] || (!s'.workers[v].Took? && !s'.workers[v].Serving?)
               || (s.workers[v].Took? && s'.workers[v] == Serving(s.workers[v].fd))
    ensures Hands(s')
  {
  }

  lemma {:induction false} RunHands(run: seq<State>, i: nat)
    requires IsRun(run) && i < |run|
    ensures Hands(run[i])
  {
    if i > 0 {
      RunHands(run, i - 1);
      RunInv(run, i - 1);
      assert StepAt(run, i - 1);
      HandsKept(run[i - 1], run[i]);
    }
  }

  /**
    * In every run, the descriptor a worker has taken off the ring or is serving is the one it
    * took last, and that was the accepted one of the same number; so no accepted descriptor is
    * served by two workers.
    */
  lemma ServesWhatItTook(run: seq<State>, i: nat, w: nat, fd: int)
    requires IsRun(run) && i < |run| && !run[i].quit
    requires w < |run[i].workers| && (run[i].workers[w] == Took(fd) || run[i].workers[w] == Serving(fd))
    ensures var s := run[i];
            exists k :: 0 <= k < |s.taken| <= |s.accepted| && s.taken[k] == (w, s.accepted[k]) && s.accepted[k] == fd
                        && forall j :: k < j < |s.taken| ==> s.taken[j].0 != w
  {
    RunHands(run, i);
    DispatchedInOrder(run, i);
    var s := run[i];
    var k: nat :| Latest(s.taken, w, fd, k);
    assert s.taken[k].1 == s.accepted[k];
  }

  /**
    * In every run with any number of workers and spurious wakeups: the k-th descriptor taken
    * is the k-th accepted, the ring holds exactly the accepted ones nobody took, in order, and
    * while a worker sleeps at least as many are woken as descriptors wait (one less between
    * the store and the signal). Every worker's thread_count is the number it took.
    */
  lemma DispatchedInOrder(run: seq<State>, i: nat)
    requires IsRun(run) && i < |run| && !run[i].quit
    ensures var s := run[i];
            && Shape(s)
            && |s.taken| <= |s.accepted| && (forall k :: 0 <= k < |s.taken| ==> s.taken[k].1 == s.accepted[k])
            && s.accepted[|s.taken|..] == Window(s.clifd, s.iget, Len(s.iget, s.iput)) + InHand(s.main)
            && (Asleep in s.workers ==> Pending(s.workers) >= Len(s.iget, s.iput) - (if s.main.Stored? then 1 else 0))
            && (forall w :: 0 <= w < |s.workers| ==>
                  Count(Takers(s.taken), w) == s.threadCount[w] + (if s.workers[w].Took? then 1 else 0))
  {
    RunInv(run, i);
    var s := run[i];
    var rest := Window(s.clifd, s.iget, Len(s.iget, s.iput)) + InHand(s.main);
    assert s.accepted == Fds(s.taken) + rest;
  }

  /** So work never waits behind a pool that is entirely asleep. */
  lemma NeverAllAsleep(run: seq<State>, i: nat)
    requires IsRun(run) && i < |run| && !run[i].quit && |run[i].workers| > 0
    requires !run[i].main.Stored? && run[i].iget != run[i].iput
    ensures exists w :: 0 <= w < |run[i].workers| && run[i].workers[w] != Asleep
  {
    RunInv(run, i);
    var s := run[i];
    if forall w :: 0 <= w < |s.workers| ==> s.workers[w] == Asleep {
      assert s.workers[0] in s.workers;
      CountZero(s.workers, Woken);
      CountZero(s.workers, Testing(true));
      assert false;
    }
  }

  // ----- the ring in place -----

  class Ring {
    const clifd: array<int>
    var iget: nat
    var iput: nat

    ghost predicate Valid()
      reads this
    {
      clifd.Length == MAXNCLI && iget < MAXNCLI && iput < MAXNCLI
    }

    ghost function Contents(): seq<int>
      requires Valid()
      reads this, clifd
    {
      Window(clifd[..], iget, Len(iget, iput))
    }

    constructor ()
      ensures Valid() && Contents() == [] && fresh(clifd)
    {
      clifd := new int[MAXNCLI];
      iget, iput := 0, 0;
    }

    /** The critical section of the main thread; quit is the "iput = iget" exit on the 32nd waiting connection. */
    method Put(connfd: int) returns (quit: bool)
      requires Valid()
      modifies this, clifd
      ensures Valid() && iget == old(iget)
      ensures quit <==> |old(Contents())| == 31
      ensures !quit ==> Contents() == old(Contents()) + [connfd]
    {
      LenSlot(iget, iput);
      WindowPush(clifd[..], iget, Len(iget, iput), connfd);
      clifd[iput] := connfd;
      assert clifd[..] == old(clifd[..])[iput := connfd];
      iput := iput + 1;
      if iput == MAXNCLI {
        iput := 0;
      }
      quit := iput == iget;
    }

    /** The critical section of a worker once the ring is not empty. */
    method Get() returns (connfd: int)
      requires Valid() && iget != iput
      modifies this
      ensures Valid() && iput == old(iput) && [connfd] + Contents() == old(Contents())
    {
      WindowPop(clifd[..], iget, Len(iget, iput));
      connfd := clifd[iget];
      iget := iget + 1;
      if iget == MAXNCLI {
        iget := 0;
      }
    }
  }
}
