/** tcpservselect01: a single-process echo server over select, with redundant tables. */
module SelectServer {
  import opened Basics

  const FD_SETSIZE := 1024

  /** The descriptors recorded in client[]. */
  function Fds(client: seq<int>): set<int> {
    set i | 0 <= i < |client| && client[i] >= 0 :: client[i]
  }

  /** Entries are -1 or distinct descriptors of select's range other than the listener. */
  ghost predicate Table(client: seq<int>, listenfd: int) {
    && (forall i :: 0 <= i < |client| ==> client[i] == -1 || (0 <= client[i] < FD_SETSIZE && client[i] != listenfd))
    && (forall i, j :: 0 <= i < j < |client| && client[i] >= 0 ==> client[i] != client[j])
  }

  /** A set of integers below n has at most n elements. */
  lemma {:induction false} BelowCard(s: set<int>, n: nat)
    requires forall x :: x in s ==> 0 <= x < n
    ensures |s| <= n
  {
    if n == 0 {
      assert forall x :: x !in s;
      assert s == {};
    } else {
      BelowCard(s - {n - 1}, n - 1);
    }
  }

  /** A full prefix of the table holds as many descriptors as entries. */
  lemma {:induction false} FullCard(client: seq<int>, listenfd: int)
    requires Table(client, listenfd) && forall i :: 0 <= i < |client| ==> client[i] >= 0
    ensures |Fds(client)| == |client|
  {
    if client != [] {
      var n := |client| - 1;
      FullCard(client[..n], listenfd);
      assert Fds(client) == Fds(client[..n]) + {client[n]};
      assert client[n] !in Fds(client[..n]);
    } else {
      assert Fds(client) == {};
    }
  }

  /** The "too many clients" exit is unreachable: select's range has no room for that many and the listener. */
  lemma NeverFull(client: seq<int>, listenfd: int)
    requires Table(client, listenfd) && |client| == FD_SETSIZE && 0 <= listenfd < FD_SETSIZE
    ensures exists i :: 0 <= i < FD_SETSIZE && client[i] < 0
  {
    if forall i :: 0 <= i < FD_SETSIZE ==> client[i] >= 0 {
      assert listenfd !in Fds(client);
      FullCard(client, listenfd);
      BelowCard(Fds(client) + {listenfd}, FD_SETSIZE);
      assert false;
    }
  }

  lemma AddFd(client: seq<int>, k: nat, fd: int)
    requires k < |client| && client[k] < 0 && fd >= 0
    ensures Fds(client[k := fd]) == Fds(client) + {fd}
  {
    var c := client[k := fd];
    forall x | x in Fds(client) + {fd} ensures x in Fds(c) {
      if x == fd { assert c[k] == fd; } else {
        var i :| 0 <= i < |client| && client[i] >= 0 && client[i] == x;
        assert c[i] == x;
      }
    }
  }

  lemma RemoveFd(client: seq<int>, k: nat, listenfd: int)
    requires Table(client, listenfd) && k < |client| && client[k] >= 0
    ensures Fds(client[k := -1]) == Fds(client) - {client[k]} && Table(client[k := -1], listenfd)
  {
    var c := client[k := -1];
    forall x | x in Fds(client) - {client[k]} ensures x in Fds(c) {
      var i :| 0 <= i < |client| && client[i] >= 0 && client[i] == x;
      assert c[i] == x;
    }
  }

  /** The elements of a duplicate-free list. */
  function Elems(s: seq<int>): set<int> {
    set x | x in s
  }

  /** served lists exactly the ready clients found among the first i entries, each once. */
  ghost predicate Served(served: seq<int>, client0: seq<int>, i: nat, rset: set<int>) {
    && (forall a, b :: 0 <= a < b < |served| ==> served[a] != served[b])
    && (forall x :: x in served <==> x in rset && x >= 0 && x in client0[..Min(i, |client0|)])
  }

  lemma {:induction false} ElemsCard(s: seq<int>)
    requires forall a, b :: 0 <= a < b < |s| ==> s[a] != s[b]
    ensures |Elems(s)| == |s|
  {
    if s != [] {
      var n := |s| - 1;
      ElemsCard(s[..n]);
      assert Elems(s) == Elems(s[..n]) + {s[n]};
    }
  }

  /** Having served as many as are ready, the server has served them all. */
  lemma AllServed(served: seq<int>, ready: set<int>)
    requires (forall a, b :: 0 <= a < b < |served| ==> served[a] != served[b]) && Elems(served) <= ready
    ensures |served| <= |ready| && (|served| == |ready| ==> Elems(served) == ready)
  {
    ElemsCard(served);
    SubsetCard(Elems(served), ready);
  }

  lemma SubsetCard(a: set<int>, b: set<int>)
    requires a <= b
    ensures |a| <= |b| && (|a| == |b| ==> a == b)
  {
    assert b == a + (b - a);
  }

  class Server {
    const listenfd: int
    const client: array<int>
    var allset: set<int>
    var maxi: int
    var maxfd: int

    /** The redundant state agrees: this holds at every loop head. */
    ghost predicate Valid()
      reads this, client
    {
      && client.Length == FD_SETSIZE && 0 <= listenfd < FD_SETSIZE
      && Table(client[..], listenfd)
      && allset == {listenfd} + Fds(client[..])
      && -1 <= maxi < FD_SETSIZE && (forall i :: maxi < i < FD_SETSIZE ==> client[i] == -1)
      && (forall x :: x in allset ==> x <= maxfd)
    }

    constructor (listenfd: int)
      requires 0 <= listenfd < FD_SETSIZE
      ensures Valid() && allset == {listenfd} && this.listenfd == listenfd && fresh(client)
    {
      this.listenfd := listenfd;
      client := new int[FD_SETSIZE](_ => -1);
      allset, maxi, maxfd := {listenfd}, -1, listenfd;
      new;
      assert Fds(client[..]) == {};
    }

    /**
      * Saves a new descriptor in the first free entry; there always is one. FD_SET on a
      * descriptor that select's sets cannot hold is undefined, and defined says whether that happens.
      */
    method AddClient(connfd: int) returns (defined: bool)
      requires Valid() && 0 <= connfd && connfd !in allset
      modifies this, client
      ensures defined <==> connfd < FD_SETSIZE
      ensures defined ==> Valid() && allset == old(allset) + {connfd}
    {
      NeverFull(client[..], listenfd);
      var i := 0;
      while i < FD_SETSIZE && client[i] >= 0
        invariant 0 <= i <= FD_SETSIZE && forall k :: 0 <= k < i ==> client[k] >= 0
      {
        i := i + 1;
      }
      AddFd(client[..], i, connfd);
      client[i] := connfd;
      assert client[..] == old(client[..])[i := connfd];
      defined := connfd < FD_SETSIZE;
      if !defined {
        return;
      }
      allset := allset + {connfd};
      if connfd > maxfd {
        maxfd := connfd;
      }
      if i > maxi {
        maxi := i;
      }
    }

    /** The connection in entry i was closed by the client. */
    method CloseClient(i: nat)
      requires Valid() && i < FD_SETSIZE && client[i] >= 0
      modifies this, client
      ensures Valid() && maxi == old(maxi) && allset == old(allset) - {old(client[i])}
      ensures client[..] == old(client[..])[i := -1]
    {
      RemoveFd(client[..], i, listenfd);
      ghost var c := client[..];
      var sockfd := client[i];
      allset := allset - {sockfd};
      client[i] := -1;
      assert client[..] == c[i := -1];
    }

    /** Read from the client and echo, or close on end of file. */
    method ServeClient(i: nat, sockfd: int, eof: set<int>)
      requires Valid() && i < FD_SETSIZE && client[i] == sockfd >= 0
      modifies this, client
      ensures Valid() && maxi == old(maxi) && allset == old(allset) - {sockfd} * eof
      ensures forall k :: i < k < FD_SETSIZE ==> client[k] == old(client[k])
    {
      if sockfd in eof {
        ghost var c := client[..];
        CloseClient(i);
        assert forall k :: i < k < FD_SETSIZE ==> client[k] == client[..][k] == c[k];
      }
    }

    /** The loop over client[]: serves every ready client once, whichever exit it takes. */
    method ServeReady(rset: set<int>, nready0: nat, eof: set<int>) returns (served: seq<int>)
      requires Valid() && nready0 == |rset * Fds(client[..])| > 0
      modifies this, client
      ensures Valid()
      ensures forall a, b :: 0 <= a < b < |served| ==> served[a] != served[b]
      ensures Elems(served) == rset * old(Fds(client[..]))
      ensures allset == old(allset) - Elems(served) * eof
    {
      ghost var c0 := client[..];
      served := [];
      var nready: int, i := nready0, 0;
      while i <= maxi
        invariant 0 <= i <= maxi + 1 && maxi == old(maxi) && Valid()
        invariant Served(served, c0, i, rset) && nready == nready0 - |served|
        invariant forall k :: i <= k < FD_SETSIZE ==> client[k] == c0[k]
        invariant allset == old(allset) - Elems(served) * eof
      {
        var sockfd := client[i];
        ServedStep(served, c0, i, rset, listenfd);
        if sockfd >= 0 && sockfd in rset {
          ElemsSnoc(served, sockfd, old(allset), eof);
          served := served + [sockfd];
          ServeClient(i, sockfd, eof);
          nready := nready - 1;
          if nready <= 0 {
            ServedEnough(served, c0, i + 1, rset);
            return;
          }
        }
        i := i + 1;
      }
      ServedEnd(served, c0, i, rset);
    }

    /**
      * One pass of the server on the result of select: unless the new descriptor is beyond the
      * range of select's sets, every ready client is served exactly
      * once, the one accepted in this pass is not, and the tables agree again afterwards.
      */
    method Pass(rset: set<int>, connfd: int, eof: set<int>) returns (defined: bool, served: seq<int>)
      requires Valid() && rset != {} && rset <= allset
      requires listenfd in rset ==> 0 <= connfd && connfd !in allset
      modifies this, client
      ensures defined <==> (listenfd in rset ==> connfd < FD_SETSIZE)
      ensures defined ==> Valid()
      ensures forall a, b :: 0 <= a < b < |served| ==> served[a] != served[b]
      ensures defined ==> Elems(served) == rset - {listenfd}
      ensures defined ==> allset == old(allset) + (if listenfd in rset then {connfd} else {}) - (rset - {listenfd}) * eof
    {
      var nready := |rset|;
      defined, served := true, [];
      if listenfd in rset {
        defined := AddClient(connfd);
        if !defined {
          return;
        }
        assert |rset - {listenfd}| == |rset| - 1;
        nready := nready - 1;
        if nready <= 0 {
          OnlyListener(rset, listenfd);
          return;
        }
      } else {
        assert rset - {listenfd} == rset;
      }
      served := ServeOthers(rset, nready, eof);
    }

    method ServeOthers(rset: set<int>, nready: nat, eof: set<int>) returns (served: seq<int>)
      requires Valid() && nready == |rset - {listenfd}| > 0 && rset - {listenfd} <= allset
      modifies this, client
      ensures Valid()
      ensures forall a, b :: 0 <= a < b < |served| ==> served[a] != served[b]
      ensures Elems(served) == rset - {listenfd}
      ensures allset == old(allset) - (rset - {listenfd}) * eof
    {
      assert rset * Fds(client[..]) == rset - {listenfd};
      served := ServeReady(rset, nready, eof);
    }
  }

  lemma OnlyListener(rset: set<int>, listenfd: int)
    requires listenfd in rset && |rset| <= 1
    ensures rset - {listenfd} == {} == Elems([])
  {
    assert |rset - {listenfd}| == |rset| - 1;
  }

  lemma ElemsSnoc(s: seq<int>, x: int, all: set<int>, eof: set<int>)
    ensures Elems(s + [x]) == Elems(s) + {x}
    ensures all - Elems(s + [x]) * eof == all - Elems(s) * eof - {x} * eof
  {
  }

  lemma ServedStep(served: seq<int>, c0: seq<int>, i: nat, rset: set<int>, listenfd: int)
    requires Table(c0, listenfd) && i < |c0| && Served(served, c0, i, rset)
    ensures c0[i] >= 0 && c0[i] in rset ==> Served(served + [c0[i]], c0, i + 1, rset)
    ensures !(c0[i] >= 0 && c0[i] in rset) ==> Served(served, c0, i + 1, rset)
  {
    assert c0[..i + 1] == c0[..i] + [c0[i]];
  }

  lemma ServedSubset(served: seq<int>, c0: seq<int>, i: nat, rset: set<int>)
    requires Served(served, c0, i, rset) && i <= |c0|
    ensures Elems(served) <= rset * Fds(c0)
  {
    forall x | x in served ensures x in Fds(c0) {
      var k :| 0 <= k < i && c0[k] == x;
    }
  }

  /** The early exit: as many served as are ready. */
  lemma ServedEnough(served: seq<int>, c0: seq<int>, i: nat, rset: set<int>)
    requires Served(served, c0, i, rset) && i <= |c0| && |served| >= |rset * Fds(c0)|
    ensures Elems(served) == rset * Fds(c0)
  {
    ServedSubset(served, c0, i, rset);
    AllServed(served, rset * Fds(c0));
  }

  lemma ServedEnd(served: seq<int>, c0: seq<int>, i: nat, rset: set<int>)
    requires Served(served, c0, i, rset) && i <= |c0| && forall k :: i <= k < |c0| ==> c0[k] < 0
    ensures Elems(served) == rset * Fds(c0)
  {
    ServedSubset(served, c0, i, rset);
    forall x | x in rset * Fds(c0) ensures x in served {
      var k :| 0 <= k < |c0| && c0[k] >= 0 && c0[k] == x;
      assert c0[..i][k] == x;
    }
  }
}
