/** threads/example03.c: a bounded buffer with one mutex and two condition variables. */
module BoundedBuffer {
  import opened Basics
  import opened Rings

  datatype Owner = Free | Producer(i: nat) | Consumer(i: nat)

  /**
    * A thread in produce or consume. Testing, Acted and Signalled hold the mutex; Testing
    * remembers whether the thread came out of cond_wait; Acted has stored or fetched.
    */
  datatype Pc = Outside | Testing(woken: bool) | Asleep | Woken | Acted | Signalled

  /**
    * total is the number of items to be produced and consumed: NLOOP for the two loops of the
    * program. If looping, the producers are produce_loop and store their loop counters, else
    * they store anything.
    */
  datatype State = State(buf: seq<int>, nitems: nat, nextget: nat, nextput: nat, mutex: Owner,
                         producers: seq<Pc>, consumers: seq<Pc>, total: nat, looping: bool, counter: seq<nat>,
                         produced: seq<int>, consumed: seq<int>)

  ghost predicate Init(s: State) {
    && |s.buf| >= 1 && s.nitems == s.nextget == s.nextput == 0 && s.mutex == Free
    && s.produced == s.consumed == [] && |s.counter| == |s.producers|
    && (forall i :: 0 <= i < |s.counter| ==> s.counter[i] == 0)
    && (forall i :: 0 <= i < |s.producers| ==> s.producers[i] == Outside)
    && (forall i :: 0 <= i < |s.consumers| ==> s.consumers[i] == Outside)
  }

  /** Calls under way that have not yet stored or fetched. */
  function Open(ts: seq<Pc>): nat {
    Count(ts, Testing(false)) + Count(ts, Testing(true)) + Count(ts, Asleep) + Count(ts, Woken)
  }

  /** Threads released by cond_wait that have not yet tested again. */
  function Pending(ts: seq<Pc>): nat {
    Count(ts, Woken) + Count(ts, Testing(true))
  }

  /** What pthread_cond_signal does to the threads waiting on the condition. */
  ghost predicate SignalOne(ts: seq<Pc>, ts': seq<Pc>) {
    if Asleep in ts then exists i :: 0 <= i < |ts| && ts[i] == Asleep && ts' == ts[i := Woken] else ts' == ts
  }

  function Store(s: State, i: nat, val: int): State
    requires i < |s.producers| && s.nextput < |s.buf|
  {
    s.(buf := s.buf[s.nextput := val], nextput := Bump(s.nextput, |s.buf|), nitems := s.nitems + 1,
    producers := s.producers[i := Acted], produced := s.produced + [val])
  }

  function Fetch(s: State, i: nat): State
    requires i < |s.consumers| && s.nextget < |s.buf| && s.nitems > 0
  {
    s.(nextget := Bump(s.nextget, |s.buf|), nitems := s.nitems - 1,
    consumers := s.consumers[i := Acted], consumed := s.consumed + [s.buf[s.nextget]])
  }

  predicate ProducerMayCall(s: State) {
    |s.produced| + Open(s.producers) < s.total
  }

  predicate ConsumerMayCall(s: State) {
    |s.consumed| + Open(s.consumers) < s.total
  }

  function SetP(s: State, i: nat, pc: Pc, m: Owner): State
    requires i < |s.producers|
  {
    s.(producers := s.producers[i := pc], mutex := m)
  }

  function SetC(s: State, i: nat, pc: Pc, m: Owner): State
    requires i < |s.consumers|
  {
    s.(consumers := s.consumers[i := pc], mutex := m)
  }

  ghost predicate ProducerStep(s: State, s': State, i: nat) {
    && i < |s.producers| == |s.counter| && s.nextput < |s.buf|
    && match s.producers[i]
       case Outside => s.mutex == Free && ProducerMayCall(s) && s' == SetP(s, i, Testing(false), Producer(i))
       case Woken => s.mutex == Free && s' == SetP(s, i, Testing(true), Producer(i))
       case Asleep => s' == SetP(s, i, Woken, s.mutex)   // spurious wakeup
       case Testing(_) =>
         if s.nitems >= |s.buf| then s' == SetP(s, i, Asleep, Free)
         else exists val :: (s.looping ==> val == s.counter[i]) && s' == Store(s, i, val)
       case Acted => SignalOne(s.consumers, s'.consumers) &&
                     s' == SetP(s, i, Signalled, s.mutex).(consumers := s'.consumers)
       case Signalled => s' == SetP(s, i, Outside, Free).(counter := s.counter[i := s.counter[i] + 1])   // i++
  }

  ghost predicate ConsumerStep(s: State, s': State, i: nat) {
    && i < |s.consumers| && s.nextget < |s.buf|
    && match s.consumers[i]
       case Outside => s.mutex == Free && ConsumerMayCall(s) && s' == SetC(s, i, Testing(false), Consumer(i))
       case Woken => s.mutex == Free && s' == SetC(s, i, Testing(true), Consumer(i))
       case Asleep => s' == SetC(s, i, Woken, s.mutex)   // spurious wakeup
       case Testing(_) =>
         if s.nitems <= 0 then s' == SetC(s, i, Asleep, Free) else s' == Fetch(s, i)
       case Acted => SignalOne(s.producers, s'.producers) &&
                     s' == SetC(s, i, Signalled, s.mutex).(producers := s'.producers)
       case Signalled => s' == SetC(s, i, Outside, Free)
  }

  ghost predicate Next(s: State, s': State) {
    (exists i :: ProducerStep(s, s', i)) || (exists i :: ConsumerStep(s, s', i))
  }

  ghost predicate StepAt(run: seq<State>, i: nat)
    requires i + 1 < |run|
  {
    Next(run[i], run[i + 1])
  }

  ghost predicate IsRun(run: seq<State>) {
    |run| > 0 && Init(run[0]) && forall i :: 0 <= i < |run| - 1 ==> StepAt(run, i)
  }

  // ----- the invariant -----

  predicate Holds(pc: Pc) {
    pc.Testing? || pc.Acted? || pc.Signalled?
  }

  ghost predicate Mutex(s: State) {
    && (forall i :: 0 <= i < |s.producers| ==> (Holds(s.producers[i]) <==> s.mutex == Producer(i)))
    && (forall i :: 0 <= i < |s.consumers| ==> (Holds(s.consumers[i]) <==> s.mutex == Consumer(i)))
  }

  ghost predicate Shape(s: State) {
    |s.buf| >= 1 && s.nextget < |s.buf| && s.nitems <= |s.buf| && s.nextput == Slot(s.nextget, s.nitems, |s.buf|)
  }

  /** A consumer or producer has changed nitems and not yet signalled. */
  ghost predicate Owed(ts: seq<Pc>) {
    Acted in ts
  }

  ghost predicate Awake(s: State) {
    && (Asleep in s.consumers ==> Pending(s.consumers) >= s.nitems - (if Owed(s.producers) then 1 else 0))
    && (Asleep in s.producers ==> Pending(s.producers) >= |s.buf| - s.nitems - (if Owed(s.consumers) then 1 else 0))
  }

  ghost predicate Quotas(s: State) {
    |s.produced| + Open(s.producers) <= s.total && |s.consumed| + Open(s.consumers) <= s.total
  }

  ghost predicate Inv(s: State) {
    && Shape(s) && Mutex(s) && Awake(s) && Quotas(s)
    && s.produced == s.consumed + Window(s.buf, s.nextget, s.nitems)
  }

  function WeightOpen(pc: Pc): nat {
    if pc.Testing? || pc.Asleep? || pc.Woken? then 1 else 0
  }

  function WeightPending(pc: Pc): nat {
    if pc == Woken || pc == Testing(true) then 1 else 0
  }

  lemma Move(ts: seq<Pc>, i: nat, pc: Pc)
    requires i < |ts|
    ensures Open(ts[i := pc]) == Open(ts) - WeightOpen(ts[i]) + WeightOpen(pc)
    ensures Pending(ts[i := pc]) == Pending(ts) - WeightPending(ts[i]) + WeightPending(pc)
    ensures Asleep in ts[i := pc] ==> Asleep in ts || pc == Asleep
    ensures Acted in ts[i := pc] <== (pc == Acted) || (exists k :: 0 <= k < |ts| && k != i && ts[k] == Acted)
  {
    CountUpdate(ts, i, pc, Testing(false));
    CountUpdate(ts, i, pc, Testing(true));
    CountUpdate(ts, i, pc, Asleep);
    CountUpdate(ts, i, pc, Woken);
    assert ts[i := pc][i] == pc;
    if k :| 0 <= k < |ts| && k != i && ts[k] == Acted { assert ts[i := pc][k] == Acted; }
  }

  lemma StoreKeeps(s: State, i: nat, val: int)
    requires Inv(s) && i < |s.producers| && s.producers[i].Testing? && s.nitems < |s.buf|
    ensures Inv(Store(s, i, val))
  {
    var w := Window(s.buf, s.nextget, s.nitems);
    WindowPush(s.buf, s.nextget, s.nitems, val);
    assert s.consumed + w + [val] == s.consumed + (w + [val]);
    Move(s.producers, i, Acted);
  }

  lemma FetchKeeps(s: State, i: nat)
    requires Inv(s) && i < |s.consumers| && s.consumers[i].Testing? && s.nitems > 0
    ensures Inv(Fetch(s, i))
  {
    WindowPop(s.buf, s.nextget, s.nitems);
    var w := Window(s.buf, Bump(s.nextget, |s.buf|), s.nitems - 1);
    assert s.consumed + ([s.buf[s.nextget]] + w) == s.consumed + [s.buf[s.nextget]] + w;
    Move(s.consumers, i, Acted);
  }

  /** Signalling restores the wakeup count that the change of nitems took away. */
  lemma SignalGains(ts: seq<Pc>, ts': seq<Pc>)
    requires SignalOne(ts, ts')
    ensures |ts'| == |ts| && Open(ts') == Open(ts)
    ensures Asleep in ts ==> Pending(ts') == Pending(ts) + 1
    ensures Asleep in ts' ==> Asleep in ts
    ensures forall k :: 0 <= k < |ts| ==> (Holds(ts'[k]) <==> Holds(ts[k])) && (ts'[k] == Acted <==> ts[k] == Acted)
  {
    if Asleep in ts {
      var i :| 0 <= i < |ts| && ts[i] == Asleep && ts' == ts[i := Woken];
      Move(ts, i, Woken);
    }
  }

  /** Only the holder of the mutex can be between its change and its signal. */
  lemma OwedIsHolder(s: State)
    requires Mutex(s)
    ensures Owed(s.producers) <==> s.mutex.Producer? && s.mutex.i < |s.producers| && s.producers[s.mutex.i] == Acted
    ensures Owed(s.consumers) <==> s.mutex.Consumer? && s.mutex.i < |s.consumers| && s.consumers[s.mutex.i] == Acted
  {
    if Owed(s.producers) { var k :| 0 <= k < |s.producers| && s.producers[k] == Acted; }
    if Owed(s.consumers) { var k :| 0 <= k < |s.consumers| && s.consumers[k] == Acted; }
  }

  lemma ProducerKeeps(s: State, s': State, i: nat)
    requires Inv(s) && ProducerStep(s, s', i)
    ensures Inv(s')
  {
    if s.producers[i].Testing? && s.nitems < |s.buf| {
      var val :| (s.looping ==> val == s.counter[i]) && s' == Store(s, i, val);
      StoreKeeps(s, i, val);
    } else if s.producers[i].Acted? {
      ProducerSignals(s, s', i);
    } else {
      ProducerWaits(s, s', i);
    }
  }

  /** All other steps only move the thread and perhaps the mutex. */
  lemma ProducerWaits(s: State, s': State, i: nat)
    requires Inv(s) && ProducerStep(s, s', i) && !s.producers[i].Acted? && !(s.producers[i].Testing? && s.nitems < |s.buf|)
    ensures Inv(s')
  {
    Move(s.producers, i, s'.producers[i]);
    assert s'.producers == s.producers[i := s'.producers[i]];
    ProducerMutex(s, i, s'.producers[i], s'.mutex);
    OwedIsHolder(s);
    OwedIsHolder(s');
  }

  /** Taking, keeping and giving back the mutex. */
  lemma ProducerMutex(s: State, i: nat, pc: Pc, m: Owner)
    requires Mutex(s) && i < |s.producers| && (Holds(pc) <==> m == Producer(i))
    requires m == s.mutex || (s.mutex == Free && m == Producer(i)) || (s.mutex == Producer(i) && m == Free)
    ensures Mutex(SetP(s, i, pc, m))
  {
  }

  lemma ProducerSignals(s: State, s': State, i: nat)
    requires Inv(s) && ProducerStep(s, s', i) && s.producers[i].Acted?
    ensures Inv(s')
  {
    SignalGains(s.consumers, s'.consumers);
    Move(s.producers, i, Signalled);
    OwedIsHolder(s);
    OwedIsHolder(s');
  }

  lemma ConsumerKeeps(s: State, s': State, i: nat)
    requires Inv(s) && ConsumerStep(s, s', i)
    ensures Inv(s')
  {
    if s.consumers[i].Testing? && s.nitems > 0 {
      FetchKeeps(s, i);
    } else if s.consumers[i].Acted? {
      ConsumerSignals(s, s', i);
    } else {
      ConsumerWaits(s, s', i);
    }
  }

  /** All other steps only move the thread and perhaps the mutex. */
  lemma ConsumerWaits(s: State, s': State, i: nat)
    requires Inv(s) && ConsumerStep(s, s', i) && !s.consumers[i].Acted? && !(s.consumers[i].Testing? && s.nitems > 0)
    ensures Inv(s')
  {
    Move(s.consumers, i, s'.consumers[i]);
    assert s'.consumers == s.consumers[i := s'.consumers[i]];
    ConsumerMutex(s, i, s'.consumers[i], s'.mutex);
    OwedIsHolder(s);
    OwedIsHolder(s');
  }

  /** Taking, keeping and giving back the mutex. */
  lemma ConsumerMutex(s: State, i: nat, pc: Pc, m: Owner)
    requires Mutex(s) && i < |s.consumers| && (Holds(pc) <==> m == Consumer(i))
    requires m == s.mutex || (s.mutex == Free && m == Consumer(i)) || (s.mutex == Consumer(i) && m == Free)
    ensures Mutex(SetC(s, i, pc, m))
  {
  }

  lemma ConsumerSignals(s: State, s': State, i: nat)
    requires Inv(s) && ConsumerStep(s, s', i) && s.consumers[i].Acted?
    ensures Inv(s')
  {
    SignalGains(s.producers, s'.producers);
    Move(s.consumers, i, Signalled);
    OwedIsHolder(s);
    OwedIsHolder(s');
  }

  lemma InitInv(s: State)
    requires Init(s)
    ensures Inv(s)
  {
    forall x: Pc | x != Outside ensures Count(s.producers, x) == 0 && Count(s.consumers, x) == 0 {
      CountZero(s.producers, x);
      CountZero(s.consumers, x);
    }
  }

  lemma {:induction false} RunInv(run: seq<State>, i: nat)
    requires IsRun(run) && i < |run|
    ensures Inv(run[i])
  {
    if i == 0 {
      InitInv(run[0]);
    } else {
      RunInv(run, i - 1);
      var s, s' := run[i - 1], run[i];
      assert StepAt(run, i - 1);
      if k :| ProducerStep(s, s', k) {
        ProducerKeeps(s, s', k);
      } else {
        var k :| ConsumerStep(s, s', k);
        ConsumerKeeps(s, s', k);
      }
    }
  }

  /**
    * For any buffer size and any numbers of producers and consumers: the indices agree modulo
    * the size, and the items consumed followed by those in the buffer are exactly the items
    * produced, in order.
    */
  lemma DeliveredInOrder(run: seq<State>, i: nat)
    requires IsRun(run) && i < |run|
    ensures var s := run[i];
            && 0 <= s.nitems <= |s.buf| && |s.buf| >= 1 && s.nextget < |s.buf|
            && s.nextput == (s.nextget + s.nitems) % |s.buf|
            && s.produced == s.consumed + Window(s.buf, s.nextget, s.nitems)
            && |s.produced| <= s.total
  {
    RunInv(run, i);
    SlotIsMod(run[i].nextget, run[i].nitems, |run[i].buf|);
  }

  /** One produce_loop: what it has stored is its counter's values so far, the current one included once it is in the buffer. */
  ghost predicate Counting(s: State) {
    && s.looping && |s.producers| == |s.counter| == 1
    && s.produced == Upto(s.counter[0] + (if s.producers[0].Acted? || s.producers[0].Signalled? then 1 else 0))
  }

  lemma CountingKept(s: State, s': State)
    requires Counting(s) && Next(s, s')
    ensures Counting(s')
  {
    if i :| ProducerStep(s, s', i) {
      CountingProducer(s, s', i);
    } else {
      var i :| ConsumerStep(s, s', i);
      CountingConsumer(s, s', i);
    }
  }

  lemma CountingProducer(s: State, s': State, i: nat)
    requires Counting(s) && ProducerStep(s, s', i)
    ensures Counting(s')
  {
    assert i == 0;
    if s.producers[0].Testing? && s.nitems < |s.buf| {
      assert s'.produced == s.produced + [s.counter[0]];
    }
  }

  lemma CountingConsumer(s: State, s': State, i: nat)
    requires Counting(s) && ConsumerStep(s, s', i)
    ensures Counting(s')
  {
    if s.consumers[i].Acted? && Asleep in s.producers {
      assert s.producers[0] == Asleep && s'.producers == [Woken];
    }
  }

  /** The program's one produce_loop stores 0, 1, 2, ..., so that is what is consumed, in every run. */
  lemma {:induction false} SingleProducer(run: seq<State>, i: nat)
    requires IsRun(run) && i < |run| && run[0].looping && |run[0].producers| == 1
    ensures Counting(run[i])
    ensures run[i].produced == Upto(|run[i].produced|)
    ensures run[i].consumed == Upto(|run[i].consumed|)
  {
    if i > 0 {
      SingleProducer(run, i - 1);
      assert StepAt(run, i - 1);
      CountingKept(run[i - 1], run[i]);
    }
    RunInv(run, i);
    assert run[i].consumed <= run[i].produced;
  }

  /** Nobody can move except by a spurious wakeup. */
  ghost predicate Stuck(s: State) {
    && s.mutex == Free && Woken !in s.producers && Woken !in s.consumers
    && (Outside in s.producers ==> !ProducerMayCall(s))
    && (Outside in s.consumers ==> !ConsumerMayCall(s))
  }

  /** Threads that neither hold the mutex nor are woken sleep, if their calls are not over. */
  lemma OnlySleepers(ts: seq<Pc>)
    requires Woken !in ts && forall i :: 0 <= i < |ts| ==> !Holds(ts[i])
    ensures Pending(ts) == 0 && (Open(ts) > 0 ==> Asleep in ts)
    ensures |ts| > 0 && Outside !in ts ==> Asleep in ts
  {
    CountZero(ts, Testing(false));
    CountZero(ts, Testing(true));
    CountZero(ts, Woken);
    CountZero(ts, Asleep);
    if |ts| > 0 { assert ts[0] in ts; }
  }

  /** As long as items are left to consume, some thread can move without a spurious wakeup. */
  lemma NeverStuck(run: seq<State>, i: nat)
    requires IsRun(run) && i < |run| && |run[i].producers| > 0 && |run[i].consumers| > 0
    requires |run[i].consumed| < run[i].total
    ensures !Stuck(run[i])
  {
    RunInv(run, i);
    var s := run[i];
    if Stuck(s) {
      OnlySleepers(s.producers);
      OnlySleepers(s.consumers);
      OwedIsHolder(s);
      assert false;
    }
  }

  // ----- the buffer in place -----

  class Buffer {
    const buf: array<int>
    var nitems: nat
    var nextget: nat
    var nextput: nat

    ghost predicate Valid()
      reads this
    {
      && buf.Length >= 1 && nextget < buf.Length && nitems <= buf.Length
      && nextput == Slot(nextget, nitems, buf.Length)
    }

    ghost function Contents(): seq<int>
      requires Valid()
      reads this, buf
    {
      Window(buf[..], nextget, nitems)
    }

    constructor (size: nat)
      requires size >= 1
      ensures Valid() && Contents() == [] && buf.Length == size && fresh(buf)
    {
      buf := new int[size];
      nitems, nextget, nextput := 0, 0, 0;
    }

    /** The body of produce once there is room. */
    method Put(val: int)
      requires Valid() && nitems < buf.Length
      modifies this, buf
      ensures Valid() && Contents() == old(Contents()) + [val]
    {
      WindowPush(buf[..], nextget, nitems, val);
      buf[nextput] := val;
      assert buf[..] == old(buf[..])[nextput := val];
      nextput := nextput + 1;
      if nextput >= buf.Length {
        nextput := 0;
      }
      nitems := nitems + 1;
    }

    /** The body of consume once there is data. */
    method Get() returns (val: int)
      requires Valid() && nitems > 0
      modifies this
      ensures Valid() && [val] + Contents() == old(Contents())
    {
      WindowPop(buf[..], nextget, nitems);
      val := buf[nextget];
      nextget := nextget + 1;
      if nextget >= buf.Length {
        nextget := 0;
      }
      nitems := nitems - 1;
    }
  }
}
