/** The addrinfo list of libgai on the heap: linked nodes, each owning its socket address. */
module AddrInfoList {
  import opened Basics
  import opened AddrInfoSpec

  /** A socket address; bytes is everything in it but the port. */
  class SockAddr {
    const bytes: seq<Byte>
    var port: int

    constructor (bytes: seq<Byte>, port: int)
      ensures this.bytes == bytes && this.port == port
    {
      this.bytes, this.port := bytes, port;
    }
  }

  class AddrInfo {
    var clone: bool
    var family: int
    var socktype: int
    var protocol: int
    var addr: SockAddr?
    var next: AddrInfo?

    /** What calloc gives. */
    constructor ()
      ensures !clone && family == 0 && socktype == 0 && protocol == 0 && addr == null && next == null
    {
      clone, family, socktype, protocol, addr, next := false, 0, 0, 0, null, null;
    }
  }

  /** A node of the list, the address it owns (null if none could be allocated) and the values in them. */
  datatype Item = Item(node: AddrInfo, addr: SockAddr?, e: Entry) {
    ghost predicate Holds()
      reads node, addr
    {
      && node.addr == addr && node.clone == e.clone && node.family == e.family
      && node.socktype == e.socktype && node.protocol == e.protocol
      && (addr == null ==> e.addr.None? && e.port == 0)
      && (addr != null ==> e.addr == Some(addr.bytes) && e.port == addr.port)
    }
  }

  ghost function Heap(items: seq<Item>): set<object> {
    (set x | x in items :: x.node) + (set x | x in items && x.addr != null :: x.addr)
  }

  function NodeAt(items: seq<Item>, i: nat): AddrInfo? {
    if i < |items| then items[i].node else null
  }

  ghost predicate Sound(items: seq<Item>, i: nat)
    requires i < |items|
    reads Heap(items)
  {
    items[i].node.next == NodeAt(items, i + 1) && items[i].Holds()
  }

  /** No two nodes are the same, so the list is acyclic, and no two share an address, so writing one port leaves the others alone. */
  ghost predicate Apart(items: seq<Item>) {
    forall i, j :: 0 <= i < j < |items| ==>
      items[i].node != items[j].node && (items[i].addr != null ==> items[i].addr != items[j].addr)
  }

  /** From head the links lead through exactly these items and end. */
  ghost predicate ListIs(head: AddrInfo?, items: seq<Item>)
    reads Heap(items)
  {
    head == NodeAt(items, 0) && Apart(items) && forall i :: 0 <= i < |items| ==> Sound(items, i)
  }

  ghost function Insert(s: seq<Item>, i: nat, x: Item): (r: seq<Item>)
    requires i < |s|
    ensures |r| == |s| + 1
  {
    s[..i + 1] + [x] + s[i + 1..]
  }

  /** What ga_clone makes of an entry when the next mem allocations succeed: without memory for it, the copy has no address. */
  function CloneOf(e: Entry, mem: nat): Entry {
    if mem == 1 then e.(clone := false, addr := None, port := 0) else e.(clone := false)
  }

  ghost predicate Outside(items: seq<Item>, x: Item) {
    forall i :: 0 <= i < |items| ==> items[i].node != x.node && (x.addr != null ==> items[i].addr != x.addr)
  }

  lemma ApartInsert(items: seq<Item>, i: nat, x: Item)
    requires Apart(items) && i < |items| && Outside(items, x)
    ensures Apart(Insert(items, i, x))
  {
    var r := Insert(items, i, x);
    forall j, k | 0 <= j < k < |r|
      ensures r[j].node != r[k].node && (r[j].addr != null ==> r[j].addr != r[k].addr) {
      var j', k' := if j <= i then j else j - 1, if k <= i then k else k - 1;
      assert (j == i + 1 || r[j] == items[j']) && (k == i + 1 || r[k] == items[k']);
    }
  }

  /** With x linked between entry i and what followed it, the list goes through x. */
  lemma ListInsert(head: AddrInfo?, items: seq<Item>, i: nat, x: Item)
    requires head == NodeAt(items, 0) && Apart(items) && i < |items| && Outside(items, x)
    requires forall j :: 0 <= j < |items| ==> items[j].Holds() && items[j].node.next == if j == i then x.node else NodeAt(items, j + 1)
    requires x.node.next == NodeAt(items, i + 1) && x.Holds()
    ensures ListIs(head, Insert(items, i, x))
  {
    var r := Insert(items, i, x);
    ApartInsert(items, i, x);
    forall j | 0 <= j < |r| ensures Sound(r, j) {
      if j > i + 1 {
        assert r[j] == items[j - 1];
      }
    }
  }

  /** Allocate a node and link it in behind ai, with the fields of ai but AI_CLONE off and no address yet. */
  method LinkCopy(ai: AddrInfo, ghost head: AddrInfo?, ghost items: seq<Item>, ghost i: nat) returns (n: AddrInfo)
    requires ListIs(head, items) && i < |items| && items[i].node == ai
    modifies ai`next
    ensures fresh(n) && ListIs(head, Insert(items, i, Item(n, null, CloneOf(items[i].e, 1))))
  {
    assert Sound(items, i);
    n := new AddrInfo();
    n.next := ai.next;
    ai.next := n;
    n.clone := false;
    n.family := ai.family;
    n.socktype := ai.socktype;
    n.protocol := ai.protocol;
    forall j | 0 <= j < |items|
      ensures items[j].Holds() && items[j].node.next == if j == i then n else NodeAt(items, j + 1) {
      assert old(Sound(items, j));
    }
    ListInsert(head, items, i, Item(n, null, CloneOf(items[i].e, 1)));
  }

  /** Item k replaced by x, which is the same node. */
  lemma ListUpdate(head: AddrInfo?, items: seq<Item>, k: nat, x: Item)
    requires head == NodeAt(items, 0) && Apart(items) && k < |items| && x.node == items[k].node
    requires x.Holds() && forall j :: 0 <= j < |items| && j != k ==> items[j].Holds() && (x.addr != null ==> items[j].addr != x.addr)
    requires forall j :: 0 <= j < |items| ==> items[j].node.next == NodeAt(items, j + 1)
    ensures ListIs(head, items[k := x])
  {
    var r := items[k := x];
    forall j | 0 <= j < |r| ensures Sound(r, j) {
      assert NodeAt(r, j + 1) == NodeAt(items, j + 1);
    }
  }

  /** Give item k a copy of the address of item i. */
  method CopyAddr(ai: AddrInfo, n: AddrInfo, ghost head: AddrInfo?, ghost items: seq<Item>, ghost i: nat, ghost k: nat)
    returns (a: SockAddr)
    requires ListIs(head, items) && i < |items| && items[i].node == ai && items[i].addr != null
    requires k < |items| && items[k].node == n
    modifies n`addr
    ensures fresh(a) && ListIs(head, items[k := Item(n, a, items[k].e.(addr := items[i].e.addr, port := items[i].e.port))])
  {
    assert Sound(items, i) && Sound(items, k);
    a := new SockAddr(ai.addr.bytes, ai.addr.port);
    n.addr := a;
    forall j | 0 <= j < |items|
      ensures items[j].node.next == NodeAt(items, j + 1) && (j != k ==> items[j].Holds()) && items[j].addr != a {
      assert old(Sound(items, j));
    }
    ListUpdate(head, items, k, Item(n, a, items[k].e.(addr := items[i].e.addr, port := items[i].e.port)));
  }

  lemma InsertOver(items: seq<Item>, i: nat, x: Item, y: Item)
    requires i < |items|
    ensures Insert(items, i, x)[i + 1] == x && Insert(items, i, x)[i + 1 := y] == Insert(items, i, y)
    ensures Insert(items, i, x)[i] == items[i]
  {
  }

  /**
    * A copy of item i is linked in behind it, with an address of its own. The node stays
    * in the list even when its address could not be had, and then the result is NULL.
    */
  method GaClone(ai: AddrInfo, mem: nat, ghost head: AddrInfo?, ghost items: seq<Item>, ghost i: nat)
    returns (r: AddrInfo?, left: nat, ghost x: Item)
    requires ListIs(head, items) && i < |items| && items[i].node == ai && items[i].addr != null
    modifies ai`next
    ensures left == if mem < 2 then 0 else mem - 2
    ensures r == if mem < 2 then null else x.node
    ensures mem == 0 ==> ListIs(head, items)
    ensures mem > 0 ==> x.e == CloneOf(items[i].e, mem) && fresh(x.node) && (x.addr != null ==> fresh(x.addr))
    ensures mem > 1 ==> x.addr != null
    ensures mem > 0 ==> ListIs(head, Insert(items, i, x))
  {
    r, left, x := null, mem, items[i];
    if left == 0 {
      return;
    }
    var n := LinkCopy(ai, head, items, i);
    left := left - 1;
    x := Item(n, null, CloneOf(items[i].e, 1));
    if left == 0 {
      return;
    }
    InsertOver(items, i, x, x);
    var a := CopyAddr(ai, n, head, Insert(items, i, x), i, i + 1);
    left := left - 1;
    InsertOver(items, i, x, Item(n, a, CloneOf(items[i].e, mem)));
    r, x := n, Item(n, a, CloneOf(items[i].e, mem));
  }

  /** The socket type of item k is set, and the port of its address if that is an IP address. */
  method Fill(ai: AddrInfo, port: int, st: int, ghost head: AddrInfo?, ghost items: seq<Item>, ghost k: nat) returns (n: nat)
    requires ListIs(head, items) && k < |items| && items[k].node == ai && items[k].addr != null
    modifies ai`socktype, items[k].addr
    ensures ListIs(head, items[k := items[k].(e := Filled(items[k].e, port, st))])
    ensures n == if IsIp(items[k].e.family) then 1 else 0
  {
    assert Sound(items, k);
    n := 0;
    ai.socktype := st;
    if ai.family == AF_INET {
      ai.addr.port := port;
      n := n + 1;
    } else if ai.family == AF_INET6 {
      ai.addr.port := port;
      n := n + 1;
    }
    forall j | 0 <= j < |items|
      ensures items[j].node.next == NodeAt(items, j + 1) && (j != k ==> items[j].Holds()) {
      assert old(Sound(items, j));
    }
    ListUpdate(head, items, k, items[k].(e := Filled(items[k].e, port, st)));
  }

  /** Every item has an address, as ga_aistruct leaves them when it succeeds. */
  ghost predicate Full(items: seq<Item>) {
    forall i :: 0 <= i < |items| ==> items[i].addr != null
  }

  ghost function Es(items: seq<Item>): (es: seq<Entry>)
    ensures |es| == |items|
  {
    seq(|items|, i requires 0 <= i < |items| => items[i].e)
  }

  lemma EsConcat(a: seq<Item>, b: seq<Item>)
    ensures Es(a + b) == Es(a) + Es(b)
  {
  }

  /** The nodes and addresses of these items are all in s. */
  ghost predicate Within(items: seq<Item>, s: set<object>) {
    forall i :: 0 <= i < |items| ==> items[i].node in s && (items[i].addr != null ==> items[i].addr in s)
  }

  lemma WithinConcat(a: seq<Item>, b: seq<Item>, s: set<object>)
    ensures Within(a + b, s) <==> Within(a, s) && Within(b, s)
  {
    if Within(a + b, s) {
      assert forall i :: 0 <= i < |a| ==> a[i] == (a + b)[i];
      assert forall i :: 0 <= i < |b| ==> b[i] == (a + b)[|a| + i];
    }
  }

  lemma InsertAt(a: seq<Item>, x: Item, b: seq<Item>, y: Item)
    ensures Insert(a + ([x] + b), |a|, y) == a + ([x, y] + b)
  {
  }

  lemma UpdateAt(a: seq<Item>, x: Item, y: Item, b: seq<Item>, z: Item)
    ensures (a + ([x] + b))[|a| := z] == a + ([z] + b)
    ensures (a + ([x, y] + b))[|a| + 1 := z] == a + ([x, z] + b)
  {
  }

  /**
    * The body of the ga_port loop at item x: what is left in its place is out, and the
    * result is the node to go on from, or NULL when memory ran out.
    */
  method Step(ai: AddrInfo, port: int, st: int, mem: nat, ghost head: AddrInfo?, ghost done: seq<Item>, ghost x: Item, ghost rest: seq<Item>)
    returns (cur: AddrInfo?, found: nat, left: nat, ghost out: seq<Item>)
    requires ListIs(head, done + ([x] + rest)) && x.node == ai && x.addr != null
    modifies x.node, x.addr
    ensures ListIs(head, done + (out + rest))
    ensures Visit(x.e, port, st, mem) == Visited(Es(out), found, cur != null, left)
    ensures cur != null ==> cur == out[|out| - 1].node && Full(out)
    ensures out[0].node == x.node && out[0].addr == x.addr
    ensures |out| == 1 || (|out| == 2 && fresh(out[1].node) && (out[1].addr != null ==> fresh(out[1].addr)))
  {
    ghost var items, i := done + ([x] + rest), |done|;
    assert Sound(items, i) && items[i] == x;
    cur, found, left, out := ai, 0, mem, [x];
    if ai.clone {
      if ai.socktype != 0 {
        ghost var y;
        cur, left, y := GaClone(ai, mem, head, items, i);
        InsertAt(done, x, rest, y);
        if cur == null {
          out := if mem == 0 then [x] else [x, y];
          return;
        }
        found := Fill(cur, port, st, head, done + ([x, y] + rest), i + 1);
        out := [x, y.(e := Filled(y.e, port, st))];
        UpdateAt(done, x, y, rest, out[1]);
        return;
      }
    } else if ai.socktype != st {
      return;
    }
    found := Fill(ai, port, st, head, items, i);
    out := [x.(e := Filled(x.e, port, st))];
    UpdateAt(done, x, x, rest, out[0]);
  }

  /** A ga_port call: the values in the list at the start, and the arguments. */
  datatype Job = Job(es: seq<Entry>, port: int, st: int, mem: nat)

  /** What the whole call does is what has been done so far, and then what visiting the rest will do. */
  ghost predicate Owes(job: Job, done: seq<Item>, nfound: int, rest: seq<Item>, mem: nat) {
    var whole, r := Ported(job.es, job.port, job.st, job.mem), Ported(Es(rest), job.port, job.st, mem);
    && nfound >= 0 && whole.es == Es(done) + r.es && whole.mem == r.mem
    && whole.nfound == if r.nfound < 0 then -1 else nfound + r.nfound
  }

  ghost predicate Result(job: Job, items: seq<Item>, nfound: int, mem: nat) {
    Ported(job.es, job.port, job.st, job.mem) == PortResult(Es(items), nfound, mem)
  }

  lemma OwesAll(job: Job, items: seq<Item>)
    requires job.es == Es(items)
    ensures Owes(job, [], 0, items, job.mem)
  {
    assert Es([]) == [];
  }

  lemma OwesNothing(job: Job, done: seq<Item>, nfound: int, mem: nat)
    requires Owes(job, done, nfound, [], mem)
    ensures Result(job, done, nfound, mem)
  {
  }

  lemma OwesStep(job: Job, done: seq<Item>, nfound: int, x: Item, rest: seq<Item>, mem: nat, done': seq<Item>)
    requires Owes(job, done, nfound, [x] + rest, mem) && Es(done') == Es(done) + Visit(x.e, job.port, job.st, mem).out
    ensures var v := Visit(x.e, job.port, job.st, mem);
            if v.ok then Owes(job, done', nfound + v.found, rest, v.mem) else Result(job, done' + rest, -1, v.mem)
  {
    var v := Visit(x.e, job.port, job.st, mem);
    assert Es([x] + rest)[1..] == Es(rest);
    if v.ok {
      var r := Ported(Es(rest), job.port, job.st, v.mem);
      assert Es(done) + (v.out + r.es) == Es(done') + r.es;
    } else {
      EsConcat(done', rest);
      assert Es(done) + (v.out + Es(rest)) == Es(done') + Es(rest);
    }
  }

  /** After an item has been visited, its last node leads to the rest. */
  lemma NextIsRest(head: AddrInfo?, done: seq<Item>, out: seq<Item>, rest: seq<Item>)
    requires out != [] && ListIs(head, done + (out + rest))
    ensures out[|out| - 1].node.next == NodeAt(rest, 0)
  {
    var items := done + (out + rest);
    assert Sound(items, |done| + |out| - 1);
    assert items[|done| + |out| - 1] == out[|out| - 1];
  }

  /** The loop is at the first of the items of rest; done has been settled. Everything is in s or was allocated on the way. */
  ghost predicate Walk(head: AddrInfo?, job: Job, done: seq<Item>, nfound: int, rest: seq<Item>, mem: nat, s: set<object>, news: set<object>)
    reads Heap(done + rest)
  {
    && ListIs(head, done + rest) && Owes(job, done, nfound, rest, mem)
    && Full(done) && Full(rest) && Within(rest, s) && Within(done, s + news)
  }

  /** One turn of the loop; if it fails, the call is over. */
  method Advance(ai: AddrInfo, port: int, st: int, nfound: nat, mem: nat, ghost head: AddrInfo?, ghost job: Job,
                 ghost done: seq<Item>, ghost rest: seq<Item>, ghost s: set<object>, ghost news: set<object>)
    returns (next: AddrInfo?, nfound': int, left: nat, ghost done': seq<Item>, ghost news': set<object>)
    requires rest != [] && rest[0].node == ai && job.port == port && job.st == st
    requires Walk(head, job, done, nfound, rest, mem, s, news)
    modifies rest[0].node, rest[0].addr
    ensures news <= news' && fresh(news' - news)
    ensures nfound' >= 0 ==> Walk(head, job, done', nfound', rest[1..], left, s, news') && next == NodeAt(rest[1..], 0)
    ensures nfound' < 0 ==> ListIs(head, done' + rest[1..]) && Result(job, done' + rest[1..], nfound', left)
                            && Within(done' + rest[1..], s + news')
  {
    ghost var x, tail := rest[0], rest[1..];
    assert rest == [x] + tail;
    var cur, found;
    ghost var out;
    cur, found, left, out := Step(ai, port, st, mem, head, done, x, tail);
    nfound', next, done', news' := -1, null, done + out, news;
    if |out| == 2 {
      news' := news + {out[1].node} + if out[1].addr == null then {} else {out[1].addr};
    }
    if cur != null {
      NextIsRest(head, done, out, tail);
      nfound', next := nfound + found, cur.next;
    }
    EsConcat(done, out);
    OwesStep(job, done, nfound, x, tail, mem, done');
    assert done + (out + tail) == done' + tail;
    WithinConcat(done', tail, s + news');
  }

  /** The list is walked while copies are being linked into it; what results is Ported of the values it held. */
  method GaPort(aihead: AddrInfo?, port: int, st: int, mem: nat, ghost items: seq<Item>, ghost s: set<object>)
    returns (nfound: int, left: nat, ghost items': seq<Item>, ghost news: set<object>)
    requires ListIs(aihead, items) && Full(items) && Within(items, s)
    modifies s
    ensures ListIs(aihead, items') && Result(Job(Es(items), port, st, mem), items', nfound, left)
    ensures nfound >= 0 ==> Full(items')
    ensures fresh(news) && Within(items', s + news)
  {
    ghost var job, done, rest := Job(Es(items), port, st, mem), [], items;
    OwesAll(job, items);
    assert done + rest == items;
    nfound, left, news := 0, mem, {};
    var ai := aihead;
    while ai != null
      invariant ai == NodeAt(rest, 0) && Walk(aihead, job, done, nfound, rest, left, s, news) && fresh(news)
      decreases |rest|
    {
      ai, nfound, left, done, news := Advance(ai, port, st, nfound, left, aihead, job, done, rest, s, news);
      rest := rest[1..];
      if nfound < 0 {
        items' := done + rest;
        return;
      }
    }
    OwesNothing(job, done, nfound, left);
    items' := done;
    assert rest == [] && done + rest == done;
  }

  // ----- ga_serv -----

  /** After some of the calls, run is what the remaining ones will make of the list; or memory ran out. */
  ghost predicate Serving(run: PortResult, items: seq<Item>, calls: seq<Call>, nfound: int, mem: nat) {
    run == if nfound < 0 then PortResult(Es(items), -1, mem) else ServRun(Es(items), calls, nfound, mem)
  }

  /** The next ga_port call, its count added to nfound. */
  method Serve(aihead: AddrInfo?, port: int, st: int, nfound: nat, mem: nat, ghost run: PortResult, ghost items: seq<Item>,
               ghost calls: seq<Call>, ghost s: set<object>)
    returns (nfound': int, left: nat, ghost items': seq<Item>, ghost calls': seq<Call>, ghost news: set<object>)
    requires ListIs(aihead, items) && Full(items) && Serving(run, items, calls, nfound, mem)
    requires calls != [] && calls[0] == Call(st, port) && Within(items, s)
    modifies s
    ensures ListIs(aihead, items') && Serving(run, items', calls', nfound', left) && calls' == calls[1..]
    ensures nfound' >= 0 ==> Full(items')
    ensures fresh(news) && Within(items', s + news)
  {
    nfound', left, items', news := GaPort(aihead, port, st, mem, items, s);
    ResultSign(Job(Es(items), port, st, mem), items', nfound', left);
    calls' := calls[1..];
    if nfound' >= 0 {
      nfound' := nfound + nfound';
    }
  }

  lemma ResultSign(job: Job, items: seq<Item>, nfound: int, mem: nat)
    requires Result(job, items, nfound, mem)
    ensures nfound >= -1
  {
    PortedSign(job.es, job.port, job.st, job.mem);
  }

  lemma {:induction false} PortedSign(es: seq<Entry>, port: int, st: int, mem: nat)
    ensures Ported(es, port, st, mem).nfound >= -1
  {
    if es != [] && Visit(es[0], port, st, mem).ok {
      PortedSign(es[1..], port, st, Visit(es[0], port, st, mem).mem);
    }
  }

  /** The calls for a service, in the source's order; the list and the code are those of ServRun. */
  method GaServ(aihead: AddrInfo?, hint: int, serv: Service, mem: nat, ghost items: seq<Item>)
    returns (code: Code, left: nat, ghost items': seq<Item>)
    requires ListIs(aihead, items) && Full(items)
    modifies Heap(items)
    ensures var run := ServRun(Es(items), ServCalls(hint, serv), 0, mem);
            && ListIs(aihead, items') && Es(items') == run.es && left == run.mem
            && CodeFits(hint, run.nfound, code)
    ensures ServiceFilledIn(Es(items), hint, serv, mem, Es(items'), code)
  {
    ghost var calls, s, news: set<object> := ServCalls(hint, serv), Heap(items), {};
    ghost var run := ServRun(Es(items), calls, 0, mem);
    var nfound := 0;
    left, items' := mem, items;
    if serv.Numeric? {
      if hint != 0 {
        nfound, left, items', calls, news := Serve(aihead, serv.port, hint, 0, left, run, items', calls, s + news);
      } else {
        nfound, left, items', calls, news := Serve(aihead, serv.port, SOCK_STREAM, 0, left, run, items', calls, s + news);
        if nfound >= 0 {
          nfound, left, items', calls, news := Serve(aihead, serv.port, SOCK_DGRAM, nfound, left, run, items', calls, s + news);
        }
      }
    } else {
      if (hint == 0 || hint == SOCK_STREAM) && serv.tcp.Some? {
        nfound, left, items', calls, news := Serve(aihead, serv.tcp.value, SOCK_STREAM, 0, left, run, items', calls, s + news);
      }
      if nfound >= 0 && (hint == 0 || hint == SOCK_DGRAM) && serv.udp.Some? {
        nfound, left, items', calls, news := Serve(aihead, serv.udp.value, SOCK_DGRAM, nfound, left, run, items', calls, s + news);
      }
    }
    assert nfound >= 0 ==> calls == [];
    if nfound < 0 {
      code := EaiMemory;
    } else if nfound == 0 {
      code := if hint == 0 then EaiNoname else EaiService;
    } else {
      code := Ok;
    }
    ServesAsPromised(Es(items), hint, serv, mem, code);
  }

  // ----- ga_aistruct -----

  ghost function LastNode(items: seq<Item>): AddrInfo? {
    if items == [] then null else items[|items| - 1].node
  }

  lemma ListAppend(head: AddrInfo?, items: seq<Item>, x: Item)
    requires head == NodeAt(items + [x], 0) && Apart(items) && Outside(items, x) && x.Holds() && x.node.next == null
    requires forall j :: 0 <= j < |items| ==> items[j].Holds() && items[j].node.next == NodeAt(items + [x], j + 1)
    ensures ListIs(head, items + [x])
  {
    var r := items + [x];
    forall j | 0 <= j < |r| ensures Sound(r, j) {
      assert j < |items| ==> r[j] == items[j];
    }
  }

  /** The fields of a new entry, and its address if the family has one and memory suffices. */
  method FillIn(ai: AddrInfo, hints: Hints, addr: seq<Byte>, family: int, mem: nat) returns (code: Code, left: nat)
    requires |addr| >= AddrSize(family) && !ai.clone && ai.addr == null
    modifies ai`socktype, ai`clone, ai`protocol, ai`family, ai`addr
    ensures Item(ai, ai.addr, Made(hints, addr, family, mem + 1)).Holds() && (ai.addr != null ==> fresh(ai.addr))
    ensures code == if mem == 0 && IsIp(family) then EaiMemory else Ok
    ensures left == if mem == 0 || !IsIp(family) then mem else mem - 1
  {
    code, left := Ok, mem;
    ai.socktype := hints.socktype;
    if ai.socktype == 0 {
      ai.clone := true;
    }
    ai.protocol := hints.protocol;
    ai.family := family;
    if IsIp(family) {
      if left == 0 {
        return EaiMemory, left;
      }
      left := left - 1;
      ai.addr := new SockAddr(addr[..AddrSize(family)], 0);
    }
  }

  /**
    * Append an entry; last is the node that holds the link to append at, or null while
    * the list is empty. Without memory for its address the entry is in the list all the same.
    */
  method GaAistruct(head: AddrInfo?, last: AddrInfo?, hints: Hints, addr: seq<Byte>, family: int, mem: nat, ghost items: seq<Item>)
    returns (head': AddrInfo?, last': AddrInfo?, code: Code, left: nat, ghost items': seq<Item>)
    requires ListIs(head, items) && last == LastNode(items) && |addr| >= AddrSize(family)
    modifies if last == null then {} else {last}
    ensures code == EaiMemory <==> mem == 0 || (mem == 1 && IsIp(family))
    ensures code == Ok || code == EaiMemory
    ensures left == mem - if mem == 0 then 0 else if mem == 1 || !IsIp(family) then 1 else 2
    ensures ListIs(head', items') && last' == LastNode(items')
    ensures mem == 0 ==> items' == items
    ensures mem > 0 ==> |items'| == |items| + 1 && items'[..|items|] == items && items'[|items|].e == Made(hints, addr, family, mem)
    ensures mem > 0 ==> var e := items'[|items|].e;
                        && (e.clone <==> hints.socktype == 0) && e.socktype == hints.socktype && e.protocol == hints.protocol
                        && e.family == family && e.port == 0
                        && (code == Ok && IsIp(family) ==> e.addr == Some(addr[..if family == AF_INET then 4 else 16]))
    ensures mem > 0 ==> fresh(Heap(items'[|items|..]))
  {
    head', last', code, left, items' := head, last, EaiMemory, mem, items;
    if left == 0 {
      return;
    }
    var ai := new AddrInfo();
    left := left - 1;
    if last == null {
      head' := ai;
    } else {
      last.next := ai;
    }
    last' := ai;
    code, left := FillIn(ai, hints, addr, family, left);
    ghost var x := Item(ai, ai.addr, Made(hints, addr, family, mem));
    ghost var r := items + [x];
    forall j | 0 <= j < |items| ensures items[j].Holds() && items[j].node.next == NodeAt(r, j + 1) {
      assert old(Sound(items, j));
    }
    ListAppend(head', items, x);
    items' := r;
    assert r[|items|..] == [x];
  }
}
