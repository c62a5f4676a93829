/** The addrinfo expansion of libgai as a function on list contents. */
module AddrInfoSpec {
  import opened Basics

  const AF_INET := 2
  const AF_INET6 := 10
  const SOCK_STREAM := 1
  const SOCK_DGRAM := 2

  /** One addrinfo without its link; addr is None when the allocation for it failed. */
  datatype Entry = Entry(clone: bool, family: int, socktype: int, protocol: int, addr: Option<seq<Byte>>, port: int)

  predicate IsIp(family: int) {
    family == AF_INET || family == AF_INET6
  }

  /** Bytes of the address proper: in_addr and in6_addr. */
  function AddrSize(family: int): nat {
    if family == AF_INET then 4 else if family == AF_INET6 then 16 else 0
  }

  /** What the caller of getaddrinfo asked for. */
  datatype Hints = Hints(socktype: int, protocol: int)

  /** The entry ga_aistruct makes when mem >= 1 further allocations succeed. */
  function Made(hints: Hints, addr: seq<Byte>, family: int, mem: nat): Entry
    requires |addr| >= AddrSize(family)
  {
    Entry(hints.socktype == 0, family, hints.socktype, hints.protocol,
          if IsIp(family) && mem > 1 then Some(addr[..AddrSize(family)]) else None, 0)
  }

  /** Fill in the socket type, and the port of an IP address. */
  function Filled(e: Entry, port: int, st: int): Entry {
    e.(socktype := st, port := if IsIp(e.family) then port else e.port)
  }

  /** What ga_port leaves in place of one entry; mem is how many more allocations succeed. */
  datatype Visited = Visited(out: seq<Entry>, found: nat, ok: bool, mem: nat)

  function Visit(e: Entry, port: int, st: int, mem: nat): Visited {
    var n := if IsIp(e.family) then 1 else 0;
    if e.clone && e.socktype != 0 then
      if mem == 0 then Visited([e], 0, false, 0)
      else if mem == 1 then Visited([e, e.(clone := false, addr := None, port := 0)], 0, false, 0)
      else Visited([e, Filled(e.(clone := false), port, st)], n, true, mem - 2)
    else if e.clone || e.socktype == st then
      Visited([Filled(e, port, st)], n, true, mem)
    else
      Visited([e], 0, true, mem)
  }

  /** nfound is -1 when memory ran out. */
  datatype PortResult = PortResult(es: seq<Entry>, nfound: int, mem: nat)

  function Ported(es: seq<Entry>, port: int, st: int, mem: nat): PortResult {
    if es == [] then PortResult([], 0, mem)
    else
      var v := Visit(es[0], port, st, mem);
      if !v.ok then PortResult(v.out + es[1..], -1, v.mem)
      else
        var r := Ported(es[1..], port, st, v.mem);
        PortResult(v.out + r.es, if r.nfound < 0 then -1 else v.found + r.nfound, r.mem)
  }

  /** Entries that will be cloned. */
  function Clones(es: seq<Entry>): nat {
    if es == [] then 0 else (if es[0].clone && es[0].socktype != 0 then 1 else 0) + Clones(es[1..])
  }

  /** Memory runs out exactly when two allocations per clone are not to be had. */
  lemma {:induction false} FailsExactly(es: seq<Entry>, port: int, st: int, mem: nat)
    ensures Ported(es, port, st, mem).nfound < 0 <==> mem < 2 * Clones(es)
    ensures mem >= 2 * Clones(es) ==> Ported(es, port, st, mem).mem == mem - 2 * Clones(es)
  {
    if es != [] {
      var v := Visit(es[0], port, st, mem);
      if v.ok { FailsExactly(es[1..], port, st, v.mem); }
    }
  }

  // ----- k calls on unspecified-type entries -----

  datatype Call = Call(st: int, port: int)

  /** The loop over successive ga_port calls, with memory to spare. */
  function Calls(es: seq<Entry>, cs: seq<Call>): seq<Entry> {
    if cs == [] then es
    else
      var prev := Calls(es, cs[..|cs| - 1]);
      Ported(prev, cs[|cs| - 1].port, cs[|cs| - 1].st, 2 * Clones(prev)).es
  }

  /** What one address becomes: itself with the first type, then the clones, latest first. */
  function Block(e: Entry, cs: seq<Call>): seq<Entry>
    requires |cs| >= 1
  {
    [Filled(e, cs[0].port, cs[0].st)] + Cloned(e, cs[1..])
  }

  function Cloned(e: Entry, cs: seq<Call>): seq<Entry> {
    if cs == [] then []
    else [Filled(e.(clone := false), cs[|cs| - 1].port, cs[|cs| - 1].st)] + Cloned(e, cs[..|cs| - 1])
  }

  function Blocks(es: seq<Entry>, cs: seq<Call>): seq<Entry>
    requires |cs| >= 1
  {
    if es == [] then [] else Block(es[0], cs) + Blocks(es[1..], cs)
  }

  /** As ga_aistruct makes them when the caller gave no socket type. */
  ghost predicate Unspecified(e: Entry) {
    e.clone && e.socktype == 0 && IsIp(e.family)
  }

  ghost predicate DistinctTypes(cs: seq<Call>) {
    && (forall i :: 0 <= i < |cs| ==> cs[i].st != 0)
    && (forall i, j :: 0 <= i < j < |cs| ==> cs[i].st != cs[j].st)
  }

  lemma {:induction false} PortConcat(a: seq<Entry>, b: seq<Entry>, port: int, st: int, mem: nat)
    requires mem >= 2 * Clones(a)
    ensures Ported(a + b, port, st, mem).es ==
            Ported(a, port, st, mem).es + Ported(b, port, st, mem - 2 * Clones(a)).es
    ensures Clones(a + b) == Clones(a) + Clones(b)
  {
    if a == [] {
      assert a + b == b;
    } else {
      var v := Visit(a[0], port, st, mem);
      assert (a + b)[1..] == a[1..] + b;
      PortConcat(a[1..], b, port, st, v.mem);
      ConcatAssoc(v.out, Ported(a[1..], port, st, v.mem).es, Ported(b, port, st, mem - 2 * Clones(a)).es);
    }
  }

  lemma {:induction false} FoundConcat(a: seq<Entry>, b: seq<Entry>, port: int, st: int, mem: nat)
    requires mem >= 2 * Clones(a)
    ensures var m, n := Ported(a, port, st, mem).nfound, Ported(b, port, st, mem - 2 * Clones(a)).nfound;
            m >= 0 && Ported(a + b, port, st, mem).nfound == if n < 0 then -1 else m + n
  {
    if a == [] {
      assert a + b == b;
    } else {
      assert (a + b)[1..] == a[1..] + b;
      FoundConcat(a[1..], b, port, st, Visit(a[0], port, st, mem).mem);
    }
  }

  /** Clones of other types are passed over. */
  lemma {:induction false} SkipClones(e: Entry, cs: seq<Call>, port: int, st: int, mem: nat)
    requires forall i :: 0 <= i < |cs| ==> cs[i].st != st
    ensures Ported(Cloned(e, cs), port, st, mem).es == Cloned(e, cs) && Clones(Cloned(e, cs)) == 0
    ensures |Cloned(e, cs)| == |cs| && Ported(Cloned(e, cs), port, st, mem).nfound == 0
  {
    if cs != [] {
      var es := Cloned(e, cs);
      assert es[1..] == Cloned(e, cs[..|cs| - 1]);
      SkipClones(e, cs[..|cs| - 1], port, st, mem);
      assert es == [es[0]] + es[1..];
    }
  }

  lemma HeadIsCloned(h: Entry, tail: seq<Entry>, c: Call, mem: nat)
    requires h.clone && h.socktype != 0 && IsIp(h.family) && mem >= 2
    requires Ported(tail, c.port, c.st, mem - 2).es == tail && Ported(tail, c.port, c.st, mem - 2).nfound == 0 && Clones(tail) == 0
    ensures Ported([h] + tail, c.port, c.st, mem).es == [h] + ([Filled(h.(clone := false), c.port, c.st)] + tail)
    ensures Ported([h] + tail, c.port, c.st, mem).nfound == 1 && Clones([h] + tail) == 1
  {
    assert ([h] + tail)[1..] == tail;
    Pair(h, Filled(h.(clone := false), c.port, c.st), tail);
  }

  lemma Pair(x: Entry, y: Entry, tail: seq<Entry>)
    ensures [x, y] + tail == [x] + ([y] + tail)
  {
  }

  ghost predicate Fresh(c: Call, cs: seq<Call>) {
    forall i :: 0 <= i < |cs| ==> cs[i].st != c.st
  }

  /** The call turns b into b', finding and cloning n entries. */
  ghost predicate Grown(b: seq<Entry>, b': seq<Entry>, n: nat, c: Call, mem: nat) {
    var r := Ported(b, c.port, c.st, mem);
    r.es == b' && r.nfound == n && Clones(b) == n
  }

  /** A further call adds one clone right behind the head of the block. */
  lemma BlockGrows(e: Entry, cs: seq<Call>, c: Call, mem: nat)
    requires Unspecified(e) && |cs| >= 1 && cs[0].st != 0 && Fresh(c, cs[1..]) && mem >= 2
    ensures Grown(Block(e, cs), Block(e, cs + [c]), 1, c, mem)
  {
    var ds := cs + [c];
    SkipClones(e, cs[1..], c.port, c.st, mem - 2);
    HeadIsCloned(Filled(e, cs[0].port, cs[0].st), Cloned(e, cs[1..]), c, mem);
    assert ds[1..] == cs[1..] + [c];
    assert ds[1..][..|cs| - 1] == cs[1..];
  }

  lemma {:induction false} BlocksGrow(es: seq<Entry>, cs: seq<Call>, c: Call, mem: nat)
    requires forall i :: 0 <= i < |es| ==> Unspecified(es[i])
    requires |cs| >= 1 && cs[0].st != 0 && Fresh(c, cs[1..]) && mem >= 2 * |es|
    ensures Grown(Blocks(es, cs), Blocks(es, cs + [c]), |es|, c, mem)
  {
    if es != [] {
      BlockGrows(es[0], cs, c, mem);
      BlocksGrow(es[1..], cs, c, mem - 2);
      GrownBoth(Block(es[0], cs), Block(es[0], cs + [c]), Blocks(es[1..], cs), Blocks(es[1..], cs + [c]), |es| - 1, c, mem);
    }
  }

  lemma GrownBoth(b: seq<Entry>, b': seq<Entry>, rest: seq<Entry>, rest': seq<Entry>, n: nat, c: Call, mem: nat)
    requires mem >= 2 && Grown(b, b', 1, c, mem) && Grown(rest, rest', n, c, mem - 2)
    ensures Grown(b + rest, b' + rest', n + 1, c, mem)
  {
    PortConcat(b, rest, c.port, c.st, mem);
    FoundConcat(b, rest, c.port, c.st, mem);
  }

  lemma {:induction false} FirstCall(es: seq<Entry>, c: Call, mem: nat)
    requires (forall i :: 0 <= i < |es| ==> Unspecified(es[i])) && c.st != 0
    ensures Ported(es, c.port, c.st, mem).es == Blocks(es, [c]) && Clones(es) == 0
    ensures Ported(es, c.port, c.st, mem).nfound == |es|
  {
    if es != [] {
      FirstCall(es[1..], c, mem);
      assert Cloned(es[0], [c][1..]) == [];
      assert Block(es[0], [c]) == [Filled(es[0], c.port, c.st)];
      assert Visit(es[0], c.port, c.st, mem) == Visited([Filled(es[0], c.port, c.st)], 1, true, mem);
    }
  }

  /**
    * After k calls with distinct non-zero socket types on entries without one, each address
    * has become one contiguous block, in the original order.
    */
  lemma {:induction false} CallsMakeBlocks(es: seq<Entry>, cs: seq<Call>)
    requires (forall i :: 0 <= i < |es| ==> Unspecified(es[i])) && |cs| >= 1 && DistinctTypes(cs)
    ensures Calls(es, cs) == Blocks(es, cs)
  {
    var n := |cs| - 1;
    var c, before := cs[n], cs[..n];
    assert cs == before + [c];
    if n == 0 {
      assert before == [] && cs == [c];
      FirstCall(es, c, 0);
    } else {
      CallsMakeBlocks(es, before);
      assert before[0] == cs[0];
      forall i | 0 <= i < n - 1 ensures before[1..][i].st != c.st {
        assert before[1..][i] == cs[i + 1];
      }
      BlocksGrow(es, before, c, 2 * |es|);
    }
  }

  lemma {:induction false} ClonedAt(e: Entry, cs: seq<Call>, i: nat)
    requires i < |cs|
    ensures |Cloned(e, cs)| == |cs|
    ensures Cloned(e, cs)[i] == Filled(e.(clone := false), cs[|cs| - 1 - i].port, cs[|cs| - 1 - i].st)
  {
    if |cs| > 1 { ClonedAt(e, cs[..|cs| - 1], if i > 0 then i - 1 else 0); }
  }

  lemma BlockLength(e: Entry, cs: seq<Call>)
    requires |cs| >= 1
    ensures |Block(e, cs)| == |cs|
  {
    if |cs| > 1 { ClonedAt(e, cs[1..], 0); }
  }

  /** Every call appears once in a block, the first in front and the others latest first, on the same address. */
  lemma BlockEntry(e: Entry, cs: seq<Call>, i: nat)
    requires |cs| >= 1 && i < |cs| && IsIp(e.family)
    ensures |Block(e, cs)| == |cs|
    ensures var c := cs[if i == 0 then 0 else |cs| - i];
            var x := Block(e, cs)[i];
            && x.socktype == c.st && x.port == c.port && x.addr == e.addr && x.family == e.family && x.protocol == e.protocol
            && x.clone == (i == 0 && e.clone)
  {
    if |cs| > 1 { ClonedAt(e, cs[1..], if i == 0 then 0 else i - 1); }
  }

  lemma {:induction false} BlocksLength(es: seq<Entry>, cs: seq<Call>)
    requires |cs| >= 1
    ensures |Blocks(es, cs)| == |es| * |cs|
  {
    if es != [] {
      BlockLength(es[0], cs);
      BlocksLength(es[1..], cs);
      assert |es| * |cs| == |cs| + (|es| - 1) * |cs|;
    }
  }

  lemma {:induction false} BlocksSlice(es: seq<Entry>, cs: seq<Call>, q: nat)
    requires |cs| >= 1 && q < |es|
    ensures 0 <= q * |cs| <= (q + 1) * |cs| <= |Blocks(es, cs)|
    ensures Blocks(es, cs)[q * |cs|..(q + 1) * |cs|] == Block(es[q], cs)
  {
    var k, b := |cs|, Block(es[0], cs);
    BlockLength(es[0], cs);
    if q > 0 {
      var rest, lo := Blocks(es[1..], cs), (q - 1) * k;
      BlocksSlice(es[1..], cs, q - 1);
      assert q * k == lo + k && (q + 1) * k == lo + k + k;
      SliceShift(b, rest, lo, lo + k);
    }
  }

  lemma SliceShift(b: seq<Entry>, rest: seq<Entry>, lo: nat, hi: nat)
    requires lo <= hi <= |rest|
    ensures (b + rest)[|b| + lo..|b| + hi] == rest[lo..hi]
  {
  }

  /** Where call i of k ends up in a block: the first in front, the others latest first; every place is taken once. */
  function Place(k: nat, i: nat): (p: nat)
    requires i < k
    ensures p < k && (if p == 0 then 0 else k - p) == i
  {
    if i == 0 then 0 else k - i
  }

  lemma PlaceInBlocks(es: seq<Entry>, cs: seq<Call>, q: nat, p: nat)
    requires |cs| >= 1 && q < |es| && p < |cs|
    ensures |Block(es[q], cs)| == |cs| && 0 <= q * |cs| + p < |Blocks(es, cs)|
    ensures Blocks(es, cs)[q * |cs| + p] == Block(es[q], cs)[p]
  {
    var k, all := |cs|, Blocks(es, cs);
    BlockLength(es[q], cs);
    BlocksSlice(es, cs, q);
    assert (q + 1) * k == q * k + k;
    assert all[q * k..(q + 1) * k][p] == all[q * k + p];
  }

  lemma PairAt(es: seq<Entry>, cs: seq<Call>, q: nat, i: nat)
    requires q < |es| && i < |cs| && Unspecified(es[q])
    ensures 0 <= q * |cs| + Place(|cs|, i) < |Blocks(es, cs)|
    ensures var x := Blocks(es, cs)[q * |cs| + Place(|cs|, i)];
            && x.socktype == cs[i].st && x.port == cs[i].port && x.addr == es[q].addr && x.family == es[q].family
            && x.protocol == es[q].protocol && (x.clone <==> i == 0)
  {
    var p := Place(|cs|, i);
    PlaceInBlocks(es, cs, q, p);
    BlockEntry(es[q], cs, p);
  }

  /**
    * k calls with distinct non-zero types turn N addresses into N * k entries: the block of
    * address q holds call i, for every q and i, at one place of its own, with the address unchanged.
    */
  lemma EveryPairOnce(es: seq<Entry>, cs: seq<Call>, q: nat, i: nat)
    requires (forall j :: 0 <= j < |es| ==> Unspecified(es[j])) && DistinctTypes(cs)
    requires q < |es| && i < |cs|
    ensures |Calls(es, cs)| == |es| * |cs| && 0 <= q * |cs| + Place(|cs|, i) < |Calls(es, cs)|
    ensures var x := Calls(es, cs)[q * |cs| + Place(|cs|, i)];
            && x.socktype == cs[i].st && x.port == cs[i].port && x.addr == es[q].addr && x.family == es[q].family
            && x.protocol == es[q].protocol && (x.clone <==> i == 0)
  {
    CallsMakeBlocks(es, cs);
    BlocksLength(es, cs);
    PairAt(es, cs, q, i);
  }

  // ----- ga_serv -----

  /** A service string: a port number, or what getservbyname says for tcp and udp. */
  datatype Service = Numeric(port: int) | Named(tcp: Option<int>, udp: Option<int>)

  datatype Code = Ok | EaiMemory | EaiNoname | EaiService

  /** The ga_port calls ga_serv makes. */
  function ServCalls(hint: int, serv: Service): seq<Call> {
    match serv
    case Numeric(port) => if hint != 0 then [Call(hint, port)] else [Call(SOCK_STREAM, port), Call(SOCK_DGRAM, port)]
    case Named(tcp, udp) =>
      (if (hint == 0 || hint == SOCK_STREAM) && tcp.Some? then [Call(SOCK_STREAM, tcp.value)] else []) +
      (if (hint == 0 || hint == SOCK_DGRAM) && udp.Some? then [Call(SOCK_DGRAM, udp.value)] else [])
  }

  /** With no socket type from the caller, the calls have distinct non-zero types, so the blocks above result. */
  lemma ServBlocks(es: seq<Entry>, serv: Service)
    requires forall i :: 0 <= i < |es| ==> Unspecified(es[i])
    ensures DistinctTypes(ServCalls(0, serv))
    ensures ServCalls(0, serv) != [] ==> Calls(es, ServCalls(0, serv)) == Blocks(es, ServCalls(0, serv))
  {
    if ServCalls(0, serv) != [] { CallsMakeBlocks(es, ServCalls(0, serv)); }
  }

  /** Successive calls with whatever memory there is; nfound accumulates, -1 stops. */
  function ServRun(es: seq<Entry>, cs: seq<Call>, nfound: nat, mem: nat): PortResult
    decreases |cs|
  {
    if cs == [] then PortResult(es, nfound, mem)
    else
      var r := Ported(es, cs[0].port, cs[0].st, mem);
      if r.nfound < 0 then r else ServRun(r.es, cs[1..], nfound + r.nfound, r.mem)
  }

  /** n addresses found in each of k calls. */
  function Times(n: nat, k: nat): nat {
    if k == 0 then 0 else n + Times(n, k - 1)
  }

  lemma {:induction false} TimesIsProduct(n: nat, k: nat)
    ensures Times(n, k) == n * k
  {
    if k > 0 {
      TimesIsProduct(n, k - 1);
      assert n * k == n + n * (k - 1);
    }
  }

  /** From the blocks of the first calls on, each further call finds every address once and takes two allocations for it. */
  lemma {:induction false} ServRunBlocks(es: seq<Entry>, done: seq<Call>, rest: seq<Call>, nfound: nat, mem: nat)
    requires forall i :: 0 <= i < |es| ==> Unspecified(es[i])
    requires |done| >= 1 && done[0].st != 0 && AllFresh(done, rest)
    ensures Afforded(ServRun(Blocks(es, done), rest, nfound, mem), Blocks(es, done + rest), nfound, Times(|es|, |rest|), mem)
    decreases |rest|
  {
    if rest == [] {
      assert done + rest == done;
    } else {
      var n, c, tail := |es|, rest[0], rest[1..];
      BlocksGrowOnce(es, done, c, mem);
      assert done + rest == (done + [c]) + tail;
      if mem >= 2 * n {
        ServRunBlocks(es, done + [c], tail, nfound + n, mem - 2 * n);
      }
      AffordedMore(Blocks(es, done), Blocks(es, done + [c]), Blocks(es, done + rest), rest, n, Times(n, |tail|), nfound, mem);
    }
  }

  /** Each remaining call has a type the clones made so far do not have. */
  ghost predicate AllFresh(done: seq<Call>, rest: seq<Call>)
    requires |done| >= 1
    decreases |rest|
  {
    rest == [] || (Fresh(rest[0], done[1..]) && AllFresh(done + [rest[0]], rest[1..]))
  }

  lemma {:induction false} DistinctAllFresh(done: seq<Call>, rest: seq<Call>)
    requires |done| >= 1 && DistinctTypes(done + rest)
    ensures done[0].st != 0 && AllFresh(done, rest)
    decreases |rest|
  {
    assert (done + rest)[0] == done[0];
    if rest != [] {
      FreshNext(done, rest);
      assert (done + [rest[0]]) + rest[1..] == done + rest;
      DistinctAllFresh(done + [rest[0]], rest[1..]);
    }
  }

  lemma FreshNext(done: seq<Call>, rest: seq<Call>)
    requires |done| >= 1 && rest != [] && DistinctTypes(done + rest)
    ensures done[0].st != 0 && Fresh(rest[0], done[1..])
  {
    var cs := done + rest;
    assert cs[0] == done[0] && cs[|done|] == rest[0];
    forall i | 0 <= i < |done| - 1 ensures done[1..][i].st != rest[0].st {
      assert done[1..][i] == cs[i + 1];
    }
  }

  /** n more found, at two allocations each, if there is memory for them. */
  ghost predicate Afforded(r: PortResult, es: seq<Entry>, nfound: nat, n: nat, mem: nat) {
    if mem >= 2 * n then r == PortResult(es, nfound + n, mem - 2 * n) else r.nfound < 0
  }

  /** The call turns now into next and finds n, at two allocations each. */
  ghost predicate FindsAll(now: seq<Entry>, next: seq<Entry>, c: Call, n: nat, mem: nat) {
    var r := Ported(now, c.port, c.st, mem);
    if mem >= 2 * n then r == PortResult(next, n, mem - 2 * n) else r.nfound < 0
  }

  /** One call that finds n and takes two allocations for each, and then the rest. */
  lemma AffordedMore(now: seq<Entry>, next: seq<Entry>, last: seq<Entry>, cs: seq<Call>, n: nat, more: nat, nfound: nat, mem: nat)
    requires cs != []
    requires FindsAll(now, next, cs[0], n, mem)
    requires mem >= 2 * n ==> Afforded(ServRun(next, cs[1..], nfound + n, mem - 2 * n), last, nfound + n, more, mem - 2 * n)
    ensures Afforded(ServRun(now, cs, nfound, mem), last, nfound, n + more, mem)
  {
  }

  lemma BlocksGrowOnce(es: seq<Entry>, done: seq<Call>, c: Call, mem: nat)
    requires forall i :: 0 <= i < |es| ==> Unspecified(es[i])
    requires |done| >= 1 && done[0].st != 0 && Fresh(c, done[1..])
    ensures FindsAll(Blocks(es, done), Blocks(es, done + [c]), c, |es|, mem)
  {
    BlocksGrow(es, done, c, 2 * |es|);
    FailsExactly(Blocks(es, done), c.port, c.st, mem);
    if mem >= 2 * |es| { BlocksGrow(es, done, c, mem); }
  }

  /**
    * ga_serv without a socket type from the caller: it succeeds exactly when there is an
    * address, the service is known for some type, and there is memory for the clones;
    * the list is then the blocks.
    */
  lemma ServOutcome(es: seq<Entry>, serv: Service, mem: nat)
    requires forall i :: 0 <= i < |es| ==> Unspecified(es[i])
    ensures var cs := ServCalls(0, serv);
            var r := ServRun(es, cs, 0, mem);
            && (r.nfound < 0 <==> |cs| == 2 && mem < 2 * |es|)
            && (r.nfound >= 0 && cs == [] ==> r.es == es && r.nfound == 0)
            && (r.nfound >= 0 && cs != [] ==> r.es == Blocks(es, cs) && r.nfound == |es| * |cs|)
  {
    var cs := ServCalls(0, serv);
    if cs != [] {
      FirstCall(es, cs[0], mem);
      FailsExactly(es, cs[0].port, cs[0].st, mem);
      assert [cs[0]] + cs[1..] == cs;
      DistinctAllFresh([cs[0]], cs[1..]);
      ServRunBlocks(es, [cs[0]], cs[1..], |es|, mem);
      assert |cs| == 2 ==> Times(|es|, 1) == |es| + Times(|es|, 0);
    }
  }

  /** With a socket type from the caller nothing is cloned: every entry has that type already, and all get the port. */
  lemma {:induction false} SpecifiedInPlace(es: seq<Entry>, port: int, st: int, mem: nat)
    requires forall i :: 0 <= i < |es| ==> !es[i].clone && es[i].socktype == st && IsIp(es[i].family)
    ensures var r := Ported(es, port, st, mem);
            && r.nfound == |es| == |r.es| && r.mem == mem
            && forall i :: 0 <= i < |es| ==> r.es[i] == es[i].(port := port)
  {
    if es != [] {
      SpecifiedInPlace(es[1..], port, st, mem);
      var r, s := Ported(es, port, st, mem).es, Ported(es[1..], port, st, mem).es;
      assert forall i :: 1 <= i < |es| ==> r[i] == s[i - 1] && es[i] == es[1..][i - 1];
    }
  }

  // ----- what a caller of getaddrinfo gets -----

  /** The port of the service for a socket type, if it has one. */
  function PortFor(serv: Service, st: int): Option<int> {
    match serv
    case Numeric(port) => Some(port)
    case Named(tcp, udp) => if st == SOCK_STREAM then tcp else if st == SOCK_DGRAM then udp else None
  }

  /** Every entry gets this type and port, in place. */
  ghost predicate AllGet(es: seq<Entry>, st: int, port: int, out: seq<Entry>) {
    |out| == |es| && forall q :: 0 <= q < |es| ==> out[q] == es[q].(socktype := st, port := port)
  }

  /** Every entry gets the first type and port, and right behind it stands a copy with the second. */
  ghost predicate AllGetBoth(es: seq<Entry>, st: int, port: int, st': int, port': int, out: seq<Entry>) {
    && |out| == 2 * |es|
    && forall q :: 0 <= q < |es| ==>
         out[2 * q] == es[q].(socktype := st, port := port) &&
         out[2 * q + 1] == es[q].(clone := false, socktype := st', port := port')
  }

  /** No socket type from the caller, and entries as ga_aistruct then makes them. */
  ghost predicate AnyType(es: seq<Entry>, serv: Service, mem: nat, out: seq<Entry>, code: Code) {
    match (PortFor(serv, SOCK_STREAM), PortFor(serv, SOCK_DGRAM))
    case (Some(t), Some(u)) =>
      if mem < 2 * |es| then code == EaiMemory
      else AllGetBoth(es, SOCK_STREAM, t, SOCK_DGRAM, u, out) && code == if es == [] then EaiNoname else Ok
    case (Some(t), None) => AllGet(es, SOCK_STREAM, t, out) && code == if es == [] then EaiNoname else Ok
    case (None, Some(u)) => AllGet(es, SOCK_DGRAM, u, out) && code == if es == [] then EaiNoname else Ok
    case (None, None) => out == es && code == EaiNoname
  }

  /** A socket type from the caller, and entries as ga_aistruct then makes them. */
  ghost predicate OneType(es: seq<Entry>, hint: int, serv: Service, out: seq<Entry>, code: Code) {
    match PortFor(serv, hint)
    case Some(port) => AllGet(es, hint, port, out) && code == if es == [] then EaiService else Ok
    case None => out == es && code == EaiService
  }

  ghost predicate Specified(e: Entry, hint: int) {
    !e.clone && e.socktype == hint && IsIp(e.family)
  }

  /** What ga_serv does to the lists the host search hands it, for every service. */
  ghost predicate ServiceFilledIn(es: seq<Entry>, hint: int, serv: Service, mem: nat, out: seq<Entry>, code: Code) {
    && (hint == 0 && (forall i :: 0 <= i < |es| ==> Unspecified(es[i])) ==> AnyType(es, serv, mem, out, code))
    && (hint != 0 && (forall i :: 0 <= i < |es| ==> Specified(es[i], hint)) ==> OneType(es, hint, serv, out, code))
  }

  /** The code for a count. */
  ghost predicate CodeFits(hint: int, nfound: int, code: Code) {
    && (nfound < 0 ==> code == EaiMemory) && (nfound > 0 ==> code == Ok)
    && (nfound == 0 ==> code == if hint == 0 then EaiNoname else EaiService)
  }

  lemma OneCallBlocks(es: seq<Entry>, c: Call)
    requires forall i :: 0 <= i < |es| ==> Unspecified(es[i])
    ensures AllGet(es, c.st, c.port, Blocks(es, [c]))
  {
    BlocksLength(es, [c]);
    forall q | 0 <= q < |es| ensures Blocks(es, [c])[q] == es[q].(socktype := c.st, port := c.port) {
      PlaceInBlocks(es, [c], q, 0);
      assert Unspecified(es[q]);
    }
  }

  lemma {:induction false} TwoCallsAt(es: seq<Entry>, c: Call, d: Call, q: nat)
    requires q < |es|
    ensures |Blocks(es, [c, d])| == 2 * |es|
    ensures Blocks(es, [c, d])[2 * q] == Filled(es[q], c.port, c.st)
    ensures Blocks(es, [c, d])[2 * q + 1] == Filled(es[q].(clone := false), d.port, d.st)
  {
    var b, rest := [Filled(es[0], c.port, c.st), Filled(es[0].(clone := false), d.port, d.st)], Blocks(es[1..], [c, d]);
    TwoInBlock(es[0], c, d);
    assert Blocks(es, [c, d]) == b + rest;
    if q > 0 {
      TwoCallsAt(es[1..], c, d, q - 1);
    } else if |es| > 1 {
      TwoCallsAt(es[1..], c, d, 0);
    } else {
      assert rest == [];
    }
  }

  lemma TwoCallBlocks(es: seq<Entry>, c: Call, d: Call)
    requires forall i :: 0 <= i < |es| ==> Unspecified(es[i])
    ensures AllGetBoth(es, c.st, c.port, d.st, d.port, Blocks(es, [c, d]))
  {
    forall q | 0 <= q < |es|
      ensures |Blocks(es, [c, d])| == 2 * |es|
      ensures Blocks(es, [c, d])[2 * q] == es[q].(socktype := c.st, port := c.port)
      ensures Blocks(es, [c, d])[2 * q + 1] == es[q].(clone := false, socktype := d.st, port := d.port) {
      TwoCallsAt(es, c, d, q);
      assert Unspecified(es[q]);
    }
    if es != [] { TwoCallsAt(es, c, d, 0); }
  }

  lemma TwoInBlock(e: Entry, c: Call, d: Call)
    ensures Block(e, [c, d]) == [Filled(e, c.port, c.st), Filled(e.(clone := false), d.port, d.st)]
  {
    assert [c, d][1..] == [d];
    assert Cloned(e, [d][..0]) == [];
  }

  lemma AnyTypeServed(es: seq<Entry>, serv: Service, mem: nat, code: Code)
    requires forall i :: 0 <= i < |es| ==> Unspecified(es[i])
    requires CodeFits(0, ServRun(es, ServCalls(0, serv), 0, mem).nfound, code)
    ensures AnyType(es, serv, mem, ServRun(es, ServCalls(0, serv), 0, mem).es, code)
  {
    ServOutcome(es, serv, mem);
    match (PortFor(serv, SOCK_STREAM), PortFor(serv, SOCK_DGRAM)) {
      case (Some(t), Some(u)) =>
        assert ServCalls(0, serv) == [Call(SOCK_STREAM, t), Call(SOCK_DGRAM, u)];
        TwoCallBlocks(es, Call(SOCK_STREAM, t), Call(SOCK_DGRAM, u));
      case (Some(t), None) =>
        assert ServCalls(0, serv) == [Call(SOCK_STREAM, t)];
        OneCallBlocks(es, Call(SOCK_STREAM, t));
      case (None, Some(u)) =>
        assert ServCalls(0, serv) == [Call(SOCK_DGRAM, u)];
        OneCallBlocks(es, Call(SOCK_DGRAM, u));
      case (None, None) =>
        assert ServCalls(0, serv) == [];
    }
  }

  lemma OneTypeServed(es: seq<Entry>, hint: int, serv: Service, mem: nat, code: Code)
    requires hint != 0 && forall i :: 0 <= i < |es| ==> Specified(es[i], hint)
    requires CodeFits(hint, ServRun(es, ServCalls(hint, serv), 0, mem).nfound, code)
    ensures OneType(es, hint, serv, ServRun(es, ServCalls(hint, serv), 0, mem).es, code)
  {
    match PortFor(serv, hint) {
      case Some(port) =>
        assert ServCalls(hint, serv) == [Call(hint, port)];
        assert forall i :: 0 <= i < |es| ==> Specified(es[i], hint);
        SpecifiedInPlace(es, port, hint, mem);
        assert [Call(hint, port)][1..] == [];
      case None =>
        assert ServCalls(hint, serv) == [];
    }
  }

  lemma ServesAsPromised(es: seq<Entry>, hint: int, serv: Service, mem: nat, code: Code)
    requires CodeFits(hint, ServRun(es, ServCalls(hint, serv), 0, mem).nfound, code)
    ensures ServiceFilledIn(es, hint, serv, mem, ServRun(es, ServCalls(hint, serv), 0, mem).es, code)
  {
    if hint == 0 && forall i :: 0 <= i < |es| ==> Unspecified(es[i]) { AnyTypeServed(es, serv, mem, code); }
    if hint != 0 && forall i :: 0 <= i < |es| ==> Specified(es[i], hint) { OneTypeServed(es, hint, serv, mem, code); }
  }

  /** On any list, what is counted are the IP entries that are marked for cloning or have the type. */
  function Matching(es: seq<Entry>, st: int): nat {
    if es == [] then 0
    else (if IsIp(es[0].family) && (es[0].clone || es[0].socktype == st) then 1 else 0) + Matching(es[1..], st)
  }

  lemma {:induction false} FoundExactly(es: seq<Entry>, port: int, st: int, mem: nat)
    ensures mem >= 2 * Clones(es) ==> Ported(es, port, st, mem).nfound == Matching(es, st)
    ensures mem >= 2 * Clones(es) ==> |Ported(es, port, st, mem).es| == |es| + Clones(es)
  {
    if es != [] {
      var v := Visit(es[0], port, st, mem);
      if v.ok { FoundExactly(es[1..], port, st, v.mem); }
    }
  }

  /** An entry of another type that is not to be cloned is passed over, and one of no IP family gets the type only. */
  lemma LeftAlone(e: Entry, port: int, st: int, mem: nat)
    requires !e.clone
    ensures e.socktype != st ==> Ported([e], port, st, mem) == PortResult([e], 0, mem)
    ensures e.socktype == st && !IsIp(e.family) ==> Ported([e], port, st, mem) == PortResult([e], 0, mem)
  {
    assert [e][1..] == [];
  }
}
