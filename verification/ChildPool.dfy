/** serv05: a parent hands accepted descriptors to preforked children over stream pipes. */
module ChildPool {
  import opened Basics

  datatype ParentPc = Selecting | Accepting | Scanning(i: nat)

  /**
    * The parent's table and select results, and for each child the descriptors in its pipe,
    * the one it is serving, and the ready bytes it has written back.
    */
  datatype State = State(status: seq<int>, navail: int, count: seq<nat>,
                         down: seq<seq<int>>, serving: seq<Option<int>>, up: seq<nat>,
                         parent: ParentPc, rset: set<nat>, nsel: int, quit: bool,
                         accepted: seq<int>, finished: seq<int>)

  ghost predicate Init(s: State) {
    && |s.status| == |s.count| == |s.down| == |s.serving| == |s.up|
    && s.navail == |s.status|
    && (forall i :: 0 <= i < |s.status| ==>
          s.status[i] == 0 && s.count[i] == 0 && s.down[i] == [] && s.serving[i] == None && s.up[i] == 0)
    && s.parent == Selecting && !s.quit && s.accepted == s.finished == []
  }

  /** The first child with status 0, or the number of children if there is none. */
  function FirstIdle(status: seq<int>): (i: nat)
    ensures i <= |status| && (i < |status| ==> status[i] == 0) && forall k :: 0 <= k < i ==> status[k] != 0
  {
    if status == [] || status[0] == 0 then 0 else 1 + FirstIdle(status[1..])
  }

  /** Select returned: some readable pipes, and the listener unless it was taken out of the set. */
  ghost predicate Select(s: State, s': State) {
    && (forall i :: i in s'.rset ==> i < |s.up| && s.up[i] > 0)
    && (s'.parent.Accepting? ==> s.navail > 0)
    && (s'.parent.Accepting? || (s'.parent == Scanning(0) && s'.rset != {}))
    && s' == s.(rset := s'.rset, parent := s'.parent,
             nsel := |s'.rset| + (if s'.parent.Accepting? then 1 else 0))
  }

  /** Accept, find an idle child, pass it the descriptor. */
  function Assign(s: State, fd: int): State
    requires |s.status| == |s.count| == |s.down|
  {
    var i := FirstIdle(s.status);
    if i == |s.status| then
      s.(quit := true, accepted := s.accepted + [fd])
    else
      s.(status := s.status[i := 1], count := s.count[i := s.count[i] + 1], navail := s.navail - 1,
      down := s.down[i := s.down[i] + [fd]], accepted := s.accepted + [fd], nsel := s.nsel - 1,
      parent := if s.nsel - 1 == 0 then Selecting else Scanning(0))
  }

  /** One turn of the loop over the children. */
  function Scan(s: State): State
    requires s.parent.Scanning? && |s.status| == |s.up|
    requires s.parent.i in s.rset ==> s.parent.i < |s.up| && s.up[s.parent.i] > 0
  {
    var i := s.parent.i;
    if i >= |s.status| then s.(parent := Selecting)
    else if i !in s.rset then s.(parent := Scanning(i + 1))
    else s.(up := s.up[i := s.up[i] - 1], status := s.status[i := 0], navail := s.navail + 1, nsel := s.nsel - 1,
         parent := if s.nsel - 1 == 0 then Selecting else Scanning(i + 1))
  }

  ghost predicate ParentStep(s: State, s': State) {
    match s.parent
    case Selecting => Select(s, s')
    case Accepting => |s.status| == |s.count| == |s.down| && exists fd :: s' == Assign(s, fd)
    case Scanning(i) =>
      |s.status| == |s.up| && (i in s.rset ==> i < |s.up| && s.up[i] > 0) && s' == Scan(s)
  }

  function Receive(s: State, i: nat): State
    requires i < |s.down| == |s.serving| && s.down[i] != []
  {
    s.(serving := s.serving[i := Some(s.down[i][0])], down := s.down[i := s.down[i][1..]])
  }

  function Finish(s: State, i: nat): State
    requires i < |s.serving| == |s.up| && s.serving[i].Some?
  {
    s.(serving := s.serving[i := None], up := s.up[i := s.up[i] + 1], finished := s.finished + [s.serving[i].value])
  }

  ghost predicate ChildStep(s: State, s': State, i: nat) {
    && i < |s.down| == |s.serving| == |s.up|
    && match s.serving[i]
       case None => s.down[i] != [] && s' == Receive(s, i)
       case Some(_) => s' == Finish(s, i)
  }

  ghost predicate Next(s: State, s': State) {
    !s.quit && (ParentStep(s, s') || exists i :: ChildStep(s, s', i))
  }

  ghost predicate StepAt(run: seq<State>, i: nat)
    requires i + 1 < |run|
  {
    Next(run[i], run[i + 1])
  }

  ghost predicate IsRun(run: seq<State>) {
    |run| > 0 && Init(run[0]) && forall i :: 0 <= i < |run| - 1 ==> StepAt(run, i)
  }

  // ----- the invariant -----

  function Serving(o: Option<int>): nat {
    if o.Some? then 1 else 0
  }

  /** A busy child has exactly one token: descriptor in its pipe, being served, or ready byte on its way. */
  ghost predicate Tokens(s: State) {
    && |s.status| == |s.count| == |s.down| == |s.serving| == |s.up|
    && forall i :: 0 <= i < |s.status| ==>
         0 <= s.status[i] <= 1 && |s.down[i]| + Serving(s.serving[i]) + s.up[i] == s.status[i]
  }

  /** Children of the select result the scan has still to visit. */
  function Rest(r: set<nat>, k: nat): set<nat> {
    set i | i in r && k <= i
  }

  ghost predicate SelectResult(s: State) {
    match s.parent
    case Selecting => true
    case Accepting => s.navail > 0 && s.nsel == |s.rset| + 1 && Ready(s, 0)
    case Scanning(k) => s.nsel == |Rest(s.rset, k)| && Ready(s, k)
  }

  ghost predicate Ready(s: State, k: nat) {
    forall i :: i in s.rset && k <= i ==> i < |s.up| && s.up[i] > 0
  }

  /** How often descriptor x is held for child i, in its pipe or in service. */
  function Held(s: State, x: int): (h: seq<nat>)
    requires |s.down| == |s.serving|
    ensures |h| == |s.down|
  {
    seq(|s.down|, i requires 0 <= i < |s.down| => Count(s.down[i], x) + (if s.serving[i] == Some(x) then 1 else 0))
  }

  function Sum(ns: seq<nat>): nat {
    if ns == [] then 0 else Sum(ns[..|ns| - 1]) + ns[|ns| - 1]
  }

  /** Every accepted connection has been finished or is held by exactly one child. */
  ghost predicate Conserved(s: State)
    requires |s.down| == |s.serving|
  {
    forall x :: Count(s.accepted, x) == Count(s.finished, x) + Sum(Held(s, x))
  }

  ghost predicate Inv(s: State) {
    !s.quit && Tokens(s) && s.navail == Count(s.status, 0) && SelectResult(s) && Conserved(s)
  }

  lemma {:induction false} SumUpdate(ns: seq<nat>, k: nat, n: nat)
    requires k < |ns|
    ensures Sum(ns[k := n]) == Sum(ns) - ns[k] + n
  {
    var last := |ns| - 1;
    if k == last {
      assert ns[k := n][..last] == ns[..last];
    } else {
      SumUpdate(ns[..last], k, n);
      assert ns[k := n][..last] == ns[..last][k := n];
    }
  }

  lemma {:induction false} SumEmpty(ns: seq<nat>)
    requires forall i :: 0 <= i < |ns| ==> ns[i] == 0
    ensures Sum(ns) == 0
  {
    if ns != [] { SumEmpty(ns[..|ns| - 1]); }
  }

  lemma CountSnoc(s: seq<int>, y: int, x: int)
    ensures Count(s + [y], x) == Count(s, x) + (if y == x then 1 else 0)
  {
    assert (s + [y])[..|s|] == s;
  }

  /** The "no available children" exit needs navail == 0, but then the listener is not selected. */
  lemma IdleExists(status: seq<int>)
    requires Count(status, 0) > 0
    ensures FirstIdle(status) < |status|
  {
    CountZero(status, 0);
  }

  /** Only the chosen child's holding changes, by the connection handed to it. */
  lemma AssignHeld(s: State, fd: int, x: int)
    requires Tokens(s) && FirstIdle(s.status) < |s.status|
    ensures Sum(Held(Assign(s, fd), x)) == Sum(Held(s, x)) + (if fd == x then 1 else 0)
  {
    var i, s' := FirstIdle(s.status), Assign(s, fd);
    CountSnoc(s.down[i], fd, x);
    var h := Held(s, x)[i] + (if fd == x then 1 else 0);
    assert Held(s', x) == Held(s, x)[i := h];
    SumUpdate(Held(s, x), i, h);
  }

  lemma AssignConserves(s: State, fd: int)
    requires Tokens(s) && Conserved(s) && FirstIdle(s.status) < |s.status|
    ensures Conserved(Assign(s, fd))
  {
    var s' := Assign(s, fd);
    forall x ensures Count(s'.accepted, x) == Count(s'.finished, x) + Sum(Held(s', x)) {
      CountSnoc(s.accepted, fd, x);
      AssignHeld(s, fd, x);
    }
  }

  lemma AssignKeeps(s: State, fd: int)
    requires Inv(s) && s.parent.Accepting?
    ensures Inv(Assign(s, fd))
  {
    IdleExists(s.status);
    CountUpdate(s.status, FirstIdle(s.status), 1, 0);
    assert Rest(s.rset, 0) == s.rset;
    AssignConserves(s, fd);
  }

  lemma ReadyByte(s: State)
    requires Inv(s) && s.parent.Scanning? && s.parent.i in s.rset
    ensures Inv(Scan(s))
  {
    CountUpdate(s.status, s.parent.i, 0, 0);
    ReadySelect(s);
    HeldUnchanged(s, Scan(s));
  }

  lemma ReadySelect(s: State)
    requires Tokens(s) && SelectResult(s) && s.parent.Scanning? && s.parent.i in s.rset
    ensures SelectResult(Scan(s))
  {
    var i := s.parent.i;
    assert Rest(s.rset, i + 1) == Rest(s.rset, i) - {i};
  }

  lemma HeldUnchanged(s: State, s': State)
    requires |s.down| == |s.serving| && Conserved(s)
    requires s'.down == s.down && s'.serving == s.serving && s'.accepted == s.accepted && s'.finished == s.finished
    ensures Conserved(s')
  {
    assert forall x :: Held(s', x) == Held(s, x);
  }

  lemma ScanKeeps(s: State)
    requires Inv(s) && s.parent.Scanning?
    ensures Inv(Scan(s))
  {
    if s.parent.i in s.rset {
      ReadyByte(s);
    } else {
      assert forall x :: Held(Scan(s), x) == Held(s, x);
      assert Rest(s.rset, s.parent.i + 1) == Rest(s.rset, s.parent.i);
    }
  }

  lemma {:induction false} CountHead(s: seq<int>, x: int)
    requires s != []
    ensures Count(s, x) == (if s[0] == x then 1 else 0) + Count(s[1..], x)
  {
    if |s| > 1 {
      CountHead(s[..|s| - 1], x);
      assert s[..|s| - 1][1..] == s[1..][..|s| - 2];
    }
  }

  lemma ReceiveKeeps(s: State, i: nat)
    requires Inv(s) && i < |s.down| && s.down[i] != [] && s.serving[i] == None
    ensures Inv(Receive(s, i))
  {
    var s' := Receive(s, i);
    forall x ensures Count(s'.accepted, x) == Count(s'.finished, x) + Sum(Held(s', x)) {
      CountHead(s.down[i], x);
      assert Held(s', x) == Held(s, x);
    }
  }

  lemma FinishKeeps(s: State, i: nat)
    requires Inv(s) && i < |s.down| && s.serving[i].Some?
    ensures Inv(Finish(s, i))
  {
    var s', fd := Finish(s, i), s.serving[i].value;
    forall x ensures Count(s'.accepted, x) == Count(s'.finished, x) + Sum(Held(s', x)) {
      CountSnoc(s.finished, fd, x);
      var h := Count(s.down[i], x);
      assert Held(s', x) == Held(s, x)[i := h];
      SumUpdate(Held(s, x), i, h);
    }
  }

  lemma SelectKeeps(s: State, s': State)
    requires Inv(s) && s.parent.Selecting? && Select(s, s')
    ensures Inv(s')
  {
    assert forall x :: Held(s', x) == Held(s, x);
    assert Rest(s'.rset, 0) == s'.rset;
  }

  lemma StepKeeps(s: State, s': State)
    requires Inv(s) && Next(s, s')
    ensures Inv(s')
  {
    if ParentStep(s, s') {
      match s.parent
      case Accepting =>
        var fd :| s' == Assign(s, fd);
        AssignKeeps(s, fd);
      case Scanning(_) => ScanKeeps(s);
      case Selecting => SelectKeeps(s, s');
    } else {
      var i: nat :| ChildStep(s, s', i);
      if s.serving[i].Some? { FinishKeeps(s, i); } else { ReceiveKeeps(s, i); }
    }
  }

  lemma {:induction false} AllZero(status: seq<int>)
    requires forall i :: 0 <= i < |status| ==> status[i] == 0
    ensures Count(status, 0) == |status|
  {
    if status != [] { AllZero(status[..|status| - 1]); }
  }

  lemma {:induction false} RunInv(run: seq<State>, i: nat)
    requires IsRun(run) && i < |run|
    ensures Inv(run[i])
  {
    if i == 0 {
      AllZero(run[0].status);
      forall x ensures Sum(Held(run[0], x)) == 0 { SumEmpty(Held(run[0], x)); }
    } else {
      RunInv(run, i - 1);
      assert StepAt(run, i - 1);
      StepKeeps(run[i - 1], run[i]);
    }
  }

  /**
    * In every run of the parent and its live children: navail is the number of idle children,
    * a busy child has exactly one token and so never two connections, an idle one none, every
    * accepted connection is finished or held by one child, and the exit for want of a child
    * is never taken.
    */
  lemma PoolInvariant(run: seq<State>, i: nat)
    requires IsRun(run) && i < |run|
    ensures var s := run[i];
            && !s.quit && s.navail == Count(s.status, 0)
            && |s.status| == |s.down| == |s.serving| == |s.up|
            && (forall k :: 0 <= k < |s.status| ==>
                  |s.down[k]| + Serving(s.serving[k]) + s.up[k] == s.status[k] <= 1)
            && Conserved(s)
  {
    RunInv(run, i);
  }

  /** The listener is among what select is asked for exactly when some child is idle. */
  lemma ListenerWatched(run: seq<State>, i: nat)
    requires IsRun(run) && i < |run| && run[i].parent.Selecting?
    ensures (exists s' :: Next(run[i], s') && s'.parent.Accepting?) <==>
            exists k :: 0 <= k < |run[i].status| && run[i].status[k] == 0
  {
    RunInv(run, i);
    var s := run[i];
    CountZero(s.status, 0);
    if s.navail > 0 {
      var s' := s.(rset := {}, parent := Accepting, nsel := 1);
      assert Select(s, s') && ParentStep(s, s');
      assert Next(s, s') && s'.parent.Accepting?;
    }
  }

  /** child_count adds up to the connections accepted. */
  lemma {:induction false} CountsAddUp(run: seq<State>, i: nat)
    requires IsRun(run) && i < |run|
    ensures Sum(run[i].count) == |run[i].accepted|
  {
    if i == 0 {
      SumEmpty(run[0].count);
    } else {
      CountsAddUp(run, i - 1);
      RunInv(run, i - 1);
      assert StepAt(run, i - 1);
      StepCounts(run[i - 1], run[i]);
    }
  }

  lemma StepCounts(s: State, s': State)
    requires Inv(s) && Next(s, s') && Sum(s.count) == |s.accepted|
    ensures Sum(s'.count) == |s'.accepted|
  {
    if s'.accepted != s.accepted {
      var fd :| s' == Assign(s, fd);
      IdleExists(s.status);
      SumUpdate(s.count, FirstIdle(s.status), s.count[FirstIdle(s.status)] + 1);
    }
  }

  /** Leaving a pass early on nsel == 0 skips no ready child. */
  lemma PassSkipsNothing(run: seq<State>, i: nat)
    requires IsRun(run) && i + 1 < |run| && run[i].parent.Scanning? && run[i + 1].parent.Selecting?
    ensures forall k :: k in run[i].rset ==> k <= run[i].parent.i
  {
    RunInv(run, i);
    var s, s', k := run[i], run[i + 1], run[i].parent.i;
    assert StepAt(run, i);
    assert forall c :: ChildStep(s, s', c) ==> s'.parent == s.parent;
    assert s' == Scan(s);
    assert Rest(s.rset, k + 1) <= Rest(s.rset, k);
    if k < |s.status| {
      assert Rest(s.rset, k + 1) == Rest(s.rset, k) - {k};
      assert |Rest(s.rset, k + 1)| == 0;
    }
    forall x | x in s.rset ensures x <= k {
      assert x !in Rest(s.rset, k + 1);
    }
  }

  /** Nor does going back to select right after an accept. */
  lemma AcceptSkipsNothing(run: seq<State>, i: nat)
    requires IsRun(run) && i + 1 < |run| && run[i].parent.Accepting? && run[i + 1].parent.Selecting?
    ensures run[i].rset == {}
  {
    RunInv(run, i);
    var s, s' := run[i], run[i + 1];
    assert StepAt(run, i);
    assert forall c :: ChildStep(s, s', c) ==> s'.parent == s.parent;
    var fd :| s' == Assign(s, fd);
    IdleExists(s.status);
    assert |s.rset| == 0;
  }

  // ----- the parent's table in place -----

  class Parent {
    const status: array<int>
    const count: array<nat>
    var navail: int

    ghost predicate Valid()
      reads this, status
    {
      status.Length == count.Length && navail == Count(status[..], 0)
    }

    constructor (nchildren: nat)
      ensures Valid() && status.Length == nchildren && navail == nchildren && fresh(status) && fresh(count)
      ensures forall k :: 0 <= k < nchildren ==> status[k] == 0 && count[k] == 0
    {
      status := new int[nchildren](_ => 0);
      count := new nat[nchildren](_ => 0);
      navail := nchildren;
      new;
      AllZero(status[..]);
    }

    /** Marks the first idle child busy; the caller got the listener from select, so navail > 0. */
    method Assign() returns (i: nat)
      requires Valid() && navail > 0
      modifies this, status, count
      ensures Valid() && i < status.Length && i == FirstIdle(old(status[..])) && navail == old(navail) - 1
      ensures status[..] == old(status[..])[i := 1]
      ensures count[..] == old(count[..])[i := old(count[i]) + 1]
    {
      i := 0;
      IdleExists(status[..]);
      while i < status.Length && status[i] != 0
        invariant i <= FirstIdle(status[..])
      {
        i := i + 1;
      }
      CountUpdate(status[..], i, 1, 0);
      status[i] := 1;
      assert status[..] == old(status[..])[i := 1];
      count[i] := count[i] + 1;
      navail := navail - 1;
    }

    /** A ready byte arrived from child i. */
    method Ready(i: nat)
      requires Valid() && i < status.Length && status[i] != 0
      modifies this, status
      ensures Valid() && navail == old(navail) + 1 && status[..] == old(status[..])[i := 0]
    {
      CountUpdate(status[..], i, 0, 0);
      status[i] := 0;
      assert status[..] == old(status[..])[i := 0];
      navail := navail + 1;
    }
  }
}
