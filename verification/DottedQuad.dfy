/** IPv4 text: inet_pton4, inet_ntop4's "%u.%u.%u.%u" and inet_aton. */
module DottedQuad {
  import opened Basics
  import opened TextFields

  /** A C string up to, and without, its terminating NUL. */
  type CString = s: string | '\0' !in s

  predicate IsOctet(f: string) {
    f != "" && AllDec(f) && DecVal(f) <= 255
  }

  /** The dotted-quad language: four decimal runs of value at most 255 between single dots. */
  function Quad(s: string): (r: Option<seq<Byte>>)
    ensures r.Some? ==> |r.value| == 4
  {
    var fs := Split(s, '.');
    if |fs| == 4 && forall k :: 0 <= k < 4 ==> IsOctet(fs[k]) then
      Some([DecVal(fs[0]), DecVal(fs[1]), DecVal(fs[2]), DecVal(fs[3])])
    else
      None
  }

  /** The language, said without Split: acceptance is the existence of four octet texts. */
  lemma QuadLanguage(s: string)
    ensures Quad(s).Some? <==>
            exists a, b, c, d :: IsOctet(a) && IsOctet(b) && IsOctet(c) && IsOctet(d) &&
                                 s == Join([a, b, c, d], '.')
  {
    if Quad(s).Some? {
      var fs := Split(s, '.');
      JoinSplit(s, '.');
      assert fs == [fs[0], fs[1], fs[2], fs[3]];
      assert IsOctet(fs[0]) && IsOctet(fs[1]) && IsOctet(fs[2]) && IsOctet(fs[3]);
    }
    if a, b, c, d :| IsOctet(a) && IsOctet(b) && IsOctet(c) && IsOctet(d) && s == Join([a, b, c, d], '.') {
      SplitJoin([a, b, c, d], '.');
    }
  }

  function OctetValues(fs: seq<string>): (v: seq<Byte>)
    requires forall k :: 0 <= k < |fs| ==> IsOctet(fs[k])
    ensures |v| == |fs|
  {
    seq(|fs|, k requires 0 <= k < |fs| && IsOctet(fs[k]) => DecVal(fs[k]))
  }

  /** inet_pton4 after i characters: pieces done, and the digits of the piece in hand. */
  ghost predicate Scanning(src: string, i: nat, done: seq<string>, tok: string) {
    && i <= |src|
    && |done| <= 3
    && (forall k :: 0 <= k < |done| ==> IsOctet(done[k]))
    && AllDec(tok) && DecVal(tok) <= 255
    && Split(src, '.') == done + Split(tok + src[i..], '.')
  }

  lemma ScanStart(src: string)
    ensures Scanning(src, 0, [], "")
  {
    assert "" + src[0..] == src;
  }

  lemma ScanDigit(src: string, i: nat, done: seq<string>, tok: string)
    requires Scanning(src, i, done, tok) && i < |src| && IsDec(src[i])
    ensures AllDec(tok + [src[i]]) && DecVal(tok + [src[i]]) == 10 * DecVal(tok) + HexDigit(src[i])
    ensures if DecVal(tok + [src[i]]) <= 255 then Scanning(src, i + 1, done, tok + [src[i]]) else Quad(src) == None
  {
    var tok' := tok + [src[i]];
    DecSnoc(tok, src[i]);
    assert tok + src[i..] == tok' + src[i + 1..];
    if DecVal(tok') > 255 {
      SplitPrefix(tok', src[i + 1..], '.');
      var f := Split(src, '.')[|done|];
      assert f[..|tok'|] == tok';
      if AllDec(f) {
        DecMonotone(f, |tok'|);
      }
      assert !IsOctet(f);
    }
  }

  lemma ScanDot(src: string, i: nat, done: seq<string>, tok: string)
    requires Scanning(src, i, done, tok) && i < |src| && src[i] == '.'
    ensures tok != "" && |done| < 3 ==> Scanning(src, i + 1, done + [tok], "")
    ensures tok == "" || |done| == 3 ==> Quad(src) == None
  {
    assert tok + src[i..] == tok + ['.'] + src[i + 1..];
    SplitAt(tok, src[i + 1..], '.');
    assert "" + src[i + 1..] == src[i + 1..];
    var fs := Split(src, '.');
    assert fs == done + [tok] + Split(src[i + 1..], '.');
    if tok == "" {
      assert !IsOctet(fs[|done|]);
    }
  }

  lemma ScanOther(src: string, i: nat, done: seq<string>, tok: string)
    requires Scanning(src, i, done, tok) && i < |src| && !IsDec(src[i]) && src[i] != '.'
    ensures Quad(src) == None
  {
    var tok' := tok + [src[i]];
    assert tok + src[i..] == tok' + src[i + 1..];
    SplitPrefix(tok', src[i + 1..], '.');
    var f := Split(src, '.')[|done|];
    assert f[|tok|] == src[i];
    assert !IsOctet(f);
  }

  lemma ScanEnd(src: string, done: seq<string>, tok: string)
    requires Scanning(src, |src|, done, tok)
    ensures Quad(src) == if |done| == 3 && tok != "" then Some(OctetValues(done) + [DecVal(tok)]) else None
  {
    assert tok + src[|src|..] == tok;
    SplitPlain(tok, '.');
    var fs := Split(src, '.');
    assert fs == done + [tok];
    if |done| == 3 && tok != "" {
      assert IsOctet(fs[3]) && forall k :: 0 <= k < 3 ==> IsOctet(fs[k]);
      assert OctetValues(done) + [DecVal(tok)] == [DecVal(fs[0]), DecVal(fs[1]), DecVal(fs[2]), DecVal(fs[3])];
    } else if |done| == 3 {
      assert !IsOctet(fs[3]);
    }
  }

  /** The locals of inet_pton4 after i characters, cells being the contents of tmp. */
  ghost predicate Storing(src: string, i: nat, done: seq<string>, tok: string, cells: seq<Byte>, tp: nat, octets: nat, sawDigit: bool) {
    && Scanning(src, i, done, tok) && |cells| == 4
    && tp == |done| && octets == tp + (if sawDigit then 1 else 0)
    && cells[..tp] == OctetValues(done) && cells[tp] == DecVal(tok) && sawDigit == (tok != "")
  }

  lemma StoreStart(src: string, cells: seq<Byte>)
    requires |cells| == 4 && cells[0] == 0
    ensures Storing(src, 0, [], "", cells, 0, 0, false)
  {
    ScanStart(src);
    assert cells[..0] == OctetValues([]);
  }

  lemma StoreDigit(src: string, i: nat, done: seq<string>, tok: string, cells: seq<Byte>, tp: nat, octets: nat, sawDigit: bool)
    requires Storing(src, i, done, tok, cells, tp, octets, sawDigit) && i < |src| && IsDec(src[i])
    ensures var n := cells[tp] as int * 10 + HexDigit(src[i]);
            if n > 255 then Quad(src) == None
            else Storing(src, i + 1, done, tok + [src[i]], cells[tp := n], tp, tp + 1, true)
  {
    ScanDigit(src, i, done, tok);
    var n := cells[tp] as int * 10 + HexDigit(src[i]);
    if n <= 255 { assert cells[tp := n][..tp] == cells[..tp]; }
  }

  lemma StoreDot(src: string, i: nat, done: seq<string>, tok: string, cells: seq<Byte>, tp: nat, octets: nat)
    requires Storing(src, i, done, tok, cells, tp, octets, true) && i < |src| && src[i] == '.'
    ensures if octets == 4 then Quad(src) == None
            else Storing(src, i + 1, done + [tok], "", cells[tp + 1 := 0], tp + 1, octets, false)
  {
    ScanDot(src, i, done, tok);
    if octets != 4 {
      assert cells[tp + 1 := 0][..tp + 1] == cells[..tp] + [cells[tp]] == OctetValues(done + [tok]);
    }
  }

  lemma StoreEnd(src: string, done: seq<string>, tok: string, cells: seq<Byte>, tp: nat, octets: nat, sawDigit: bool)
    requires Storing(src, |src|, done, tok, cells, tp, octets, sawDigit)
    ensures Quad(src) == if octets < 4 then None else Some(cells)
  {
    ScanEnd(src, done, tok);
    if octets >= 4 { assert cells == cells[..3] + [cells[3]]; }
  }

  /** memcpy of the four octets. */
  method CopyQuad(tmp: array<Byte>, dst: array<Byte>, at: nat)
    requires tmp.Length == 4 && at + 4 <= dst.Length && tmp != dst
    modifies dst
    ensures dst[..] == old(dst[..at]) + tmp[..] + old(dst[at + 4..])
  {
    dst[at], dst[at + 1], dst[at + 2], dst[at + 3] := tmp[0], tmp[1], tmp[2], tmp[3];
  }

  /** A digit continues the octet at tp, or starts it. */
  method OnDigit(src: CString, i: nat, tmp: array<Byte>, tp: nat, octets0: nat, sawDigit: bool, ghost done: seq<string>, ghost tok: string)
    returns (ok: bool, octets: nat)
    requires i < |src| && IsDec(src[i]) && Storing(src, i, done, tok, tmp[..], tp, octets0, sawDigit)
    modifies tmp
    ensures if ok then Storing(src, i + 1, done, tok + [src[i]], tmp[..], tp, octets, true) else Quad(src) == None
  {
    StoreDigit(src, i, done, tok, tmp[..], tp, octets0, sawDigit);
    octets := octets0;
    var n := tmp[tp] as int * 10 + HexDigit(src[i]);
    if n > 255 {
      return false, octets;
    }
    tmp[tp] := n;
    assert tmp[..] == old(tmp[..])[tp := n];
    if !sawDigit {
      octets := octets + 1;
      if octets > 4 {
        return false, octets;
      }
    }
    ok := true;
  }

  method InetPton4(src: CString, dst: array<Byte>, at: nat) returns (ok: bool)
    requires at + 4 <= dst.Length
    modifies dst
    ensures ok == Quad(src).Some?
    ensures ok ==> dst[..] == old(dst[..at]) + Quad(src).value + old(dst[at + 4..])
    ensures !ok ==> dst[..] == old(dst[..])
  {
    var tmp := new Byte[4];
    ok := ScanOctets(src, tmp);
    if ok {
      CopyQuad(tmp, dst, at);
    }
  }

  /** Everything before the memcpy. */
  method ScanOctets(src: CString, tmp: array<Byte>) returns (ok: bool)
    requires tmp.Length == 4
    modifies tmp
    ensures ok == Quad(src).Some?
    ensures ok ==> tmp[..] == Quad(src).value
  {
    var sawDigit: bool, octets: nat, tp: nat, i: nat := false, 0, 0, 0;
    tmp[tp] := 0;
    ghost var done: seq<string> := [];
    ghost var tok: string := "";
    StoreStart(src, tmp[..]);
    while i < |src|
      invariant Storing(src, i, done, tok, tmp[..], tp, octets, sawDigit)
    {
      ok, tp, octets, sawDigit, done, tok := OnChar(src, i, tmp, tp, octets, sawDigit, done, tok);
      if !ok {
        return false;
      }
      i := i + 1;
    }
    StoreEnd(src, done, tok, tmp[..], tp, octets, sawDigit);
    ok := octets >= 4;
  }

  /** One character: a digit, the dot after an octet, or a refusal. */
  method OnChar(src: CString, i: nat, tmp: array<Byte>, tp0: nat, octets0: nat, sawDigit0: bool, ghost done0: seq<string>, ghost tok0: string)
    returns (ok: bool, tp: nat, octets: nat, sawDigit: bool, ghost done: seq<string>, ghost tok: string)
    requires i < |src| && Storing(src, i, done0, tok0, tmp[..], tp0, octets0, sawDigit0)
    modifies tmp
    ensures if ok then Storing(src, i + 1, done, tok, tmp[..], tp, octets, sawDigit) else Quad(src) == None
  {
    tp, octets, sawDigit, done, tok := tp0, octets0, sawDigit0, done0, tok0;
    if IsDec(src[i]) {
      ok, octets := OnDigit(src, i, tmp, tp, octets, sawDigit, done, tok);
      sawDigit, tok := true, tok + [src[i]];
    } else if src[i] == '.' && sawDigit {
      ok := OnDot(src, i, tmp, tp, octets, done, tok);
      tp, sawDigit, done, tok := tp + 1, false, done + [tok], "";
    } else {
      Refused(src, i, done, tok);
      ok := false;
    }
  }

  lemma Refused(src: string, i: nat, done: seq<string>, tok: string)
    requires Scanning(src, i, done, tok) && i < |src| && !IsDec(src[i]) && (src[i] == '.' ==> tok == "")
    ensures Quad(src) == None
  {
    if src[i] == '.' { ScanDot(src, i, done, tok); } else { ScanOther(src, i, done, tok); }
  }

  /** A dot ends an octet, unless that was the fourth. */
  method OnDot(src: CString, i: nat, tmp: array<Byte>, tp: nat, octets: nat, ghost done: seq<string>, ghost tok: string)
    returns (ok: bool)
    requires i < |src| && src[i] == '.' && Storing(src, i, done, tok, tmp[..], tp, octets, true)
    modifies tmp
    ensures if ok then Storing(src, i + 1, done + [tok], "", tmp[..], tp + 1, octets, false) else Quad(src) == None
  {
    StoreDot(src, i, done, tok, tmp[..], tp, octets);
    ok := octets != 4;
    if ok {
      tmp[tp + 1] := 0;
      assert tmp[..] == old(tmp[..])[tp + 1 := 0];
    }
  }

  lemma JoinFour(a: string, b: string, c: string, d: string)
    ensures Join([a, b, c, d], '.') == a + ['.'] + (b + ['.'] + (c + ['.'] + d))
  {
    assert [a, b, c, d][1..] == [b, c, d];
    assert [b, c, d][1..] == [c, d];
    assert [c, d][1..] == [d];
    assert Join([c, d], '.') == c + ['.'] + d;
    assert Join([b, c, d], '.') == b + ['.'] + Join([c, d], '.');
  }

  /** What inet_ntop4 prints. */
  function QuadText(q: seq<Byte>): (s: string)
    requires |q| == 4
    ensures |s| <= 15
  {
    DecTextLength(q[0]);
    DecTextLength(q[1]);
    DecTextLength(q[2]);
    DecTextLength(q[3]);
    JoinFour(DecText(q[0]), DecText(q[1]), DecText(q[2]), DecText(q[3]));
    Join([DecText(q[0]), DecText(q[1]), DecText(q[2]), DecText(q[3])], '.')
  }

  /** Printing an IPv4 address and parsing the text gives the address back. */
  lemma QuadRoundTrip(q: seq<Byte>)
    requires |q| == 4
    ensures Quad(QuadText(q)) == Some(q)
  {
    var fs := [DecText(q[0]), DecText(q[1]), DecText(q[2]), DecText(q[3])];
    SplitJoin(fs, '.');
    assert forall k :: 0 <= k < 4 ==> IsOctet(fs[k]);
    assert [DecVal(fs[0]), DecVal(fs[1]), DecVal(fs[2]), DecVal(fs[3])] == q;
  }

  /** A dotted quad is written with digits and dots only. */
  lemma QuadAlphabet(s: string)
    requires Quad(s).Some?
    ensures forall c :: c in s ==> IsDec(c) || c == '.'
  {
    JoinSplit(s, '.');
    var fs := Split(s, '.');
    assert fs == [fs[0], fs[1], fs[2], fs[3]];
    JoinFour(fs[0], fs[1], fs[2], fs[3]);
    assert forall k :: 0 <= k < 4 ==> IsOctet(fs[k]);
  }

  /** Octets of a 32-bit value in network order. */
  function Octets(a: nat): seq<Byte>
    requires a < 0x1_0000_0000
  {
    [a / 0x100_0000, a / 0x1_0000 % 256, a / 256 % 256, a % 256]
  }

  function BigEndian(s: seq<Byte>): nat {
    if s == [] then 0 else 256 * BigEndian(s[..|s| - 1]) + s[|s| - 1]
  }

  /** The two widths of u_long. */
  datatype ULong = Bits32 | Bits64

  /** What a u_long keeps of x. */
  function Wrap(x: nat, w: ULong): (r: nat)
    ensures x < 0x1_0000_0000 ==> r == x
  {
    match w
    case Bits32 => x % 0x1_0000_0000
    case Bits64 => x % 0x1_0000_0000_0000_0000
  }

  /** A piece inet_aton lets through: possibly empty digits whose wrapped value is an octet. */
  predicate AtonField(f: string, w: ULong)
  {
    AllDec(f) && Wrap(DecVal(f), w) <= 255
  }

  /** inet_aton, piece by piece: missing pieces are zero octets on the right. */
  function Aton(s: string, w: ULong): (r: Option<seq<Byte>>)
    ensures r.Some? ==> |r.value| == 4
  {
    var fs := Split(s, '.');
    if |fs| <= 4 && forall k :: 0 <= k < |fs| ==> AtonField(fs[k], w) then
      Some(Values(fs, w) + Zeros(4 - |fs|))
    else
      None
  }

  function Values(fs: seq<string>, w: ULong): (v: seq<Byte>)
    requires forall k :: 0 <= k < |fs| ==> AtonField(fs[k], w)
    ensures |v| == |fs|
  {
    seq(|fs|, k requires 0 <= k < |fs| && AtonField(fs[k], w) => Wrap(DecVal(fs[k]), w))
  }

  lemma MulApart(m: nat, k: int)
    ensures k > 0 ==> m * k >= m
    ensures k < 0 ==> m * k + m <= 0
  {
  }

  lemma ModUnique(x: nat, m: nat, q: nat, r: nat)
    requires r < m && x == m * q + r
    ensures x % m == r
  {
    var k := q - x / m;
    MulApart(m, k);
    assert m * k == m * q - m * (x / m);
  }

  lemma MulSplit(m: nat, q: nat, a: nat)
    ensures m * (10 * q + a) == 10 * (m * q) + m * a
  {
  }

  lemma ModStep(v: nat, d: nat, m: nat)
    requires m > 0
    ensures (v % m * 10 + d) % m == (10 * v + d) % m
  {
    var q, r := v / m, v % m;
    var a, b := (r * 10 + d) / m, (r * 10 + d) % m;
    assert v == m * q + r && r * 10 + d == m * a + b;
    MulSplit(m, q, a);
    ModUnique(10 * v + d, m, 10 * q + a, b);
  }

  /** Wrapping at every digit is the same as wrapping once. */
  lemma WrappedStep(v: nat, d: nat, w: ULong)
    ensures Wrap(Wrap(v, w) * 10 + d, w) == Wrap(10 * v + d, w)
  {
    match w
    case Bits32 => ModStep(v, d, 0x1_0000_0000);
    case Bits64 => ModStep(v, d, 0x1_0000_0000_0000_0000);
  }

  lemma BigEndianSnoc(s: seq<Byte>, b: Byte)
    ensures BigEndian(s + [b]) == 256 * BigEndian(s) + b
  {
    assert (s + [b])[..|s|] == s;
  }

  function Pow256(n: nat): nat {
    if n == 0 then 1 else 256 * Pow256(n - 1)
  }

  lemma {:induction false} BigEndianBound(s: seq<Byte>)
    ensures BigEndian(s) < Pow256(|s|)
  {
    if s != [] {
      BigEndianBound(s[..|s| - 1]);
    }
  }

  /** x << 8 * n */
  function Shift8(x: nat, n: nat): nat {
    if n == 0 then x else 256 * Shift8(x, n - 1)
  }

  /** Zero octets on the right are left shifts by eight. */
  lemma {:induction false} BigEndianPad(s: seq<Byte>, n: nat)
    ensures BigEndian(s + Zeros(n)) == Shift8(BigEndian(s), n)
  {
    if n == 0 {
      assert s + Zeros(0) == s;
    } else {
      BigEndianPad(s, n - 1);
      assert s + Zeros(n) == s + Zeros(n - 1) + [0];
      BigEndianSnoc(s + Zeros(n - 1), 0);
    }
  }

  lemma OctetsOfSum(a: Byte, b: Byte, c: Byte, d: Byte)
    ensures var x: int := ((a as int * 256 + b as int) * 256 + c as int) * 256 + d as int;
            x < 0x1_0000_0000 && Octets(x) == [a, b, c, d]
  {
    var x: int := ((a as int * 256 + b as int) * 256 + c as int) * 256 + d as int;
    var y: int := (a as int * 256 + b as int) * 256 + c as int;
    var z: int := a as int * 256 + b as int;
    assert x / 256 == y && x % 256 == d;
    assert x / 0x1_0000 == y / 256 == z && y % 256 == c;
    assert x / 0x100_0000 == z / 256 == a && z % 256 == b;
  }

  lemma OctetsOfBigEndian(v: seq<Byte>)
    requires |v| == 4
    ensures BigEndian(v) < 0x1_0000_0000 && Octets(BigEndian(v)) == v
  {
    assert v[..3][..2] == v[..2] && v[..2][..1] == v[..1] && v[..1][..0] == [];
    assert BigEndian(v[..1]) == v[0];
    assert BigEndian(v[..2]) == 256 * BigEndian(v[..1]) + v[1];
    assert BigEndian(v[..3]) == 256 * BigEndian(v[..2]) + v[2];
    OctetsOfSum(v[0], v[1], v[2], v[3]);
    assert v == [v[0], v[1], v[2], v[3]];
  }

  /** inet_aton after i characters. */
  ghost predicate Accumulating(cp: string, i: nat, done: seq<string>, tok: string, w: ULong) {
    && i <= |cp|
    && |done| <= 3
    && (forall k :: 0 <= k < |done| ==> AtonField(done[k], w))
    && AllDec(tok)
    && Split(cp, '.') == done + Split(tok + cp[i..], '.')
  }

  lemma SplitAtDot(cp: string, i: nat, done: seq<string>, tok: string)
    requires i < |cp| && cp[i] == '.' && '.' !in tok && Split(cp, '.') == done + Split(tok + cp[i..], '.')
    ensures Split(cp, '.') == done + [tok] + Split(cp[i + 1..], '.')
  {
    assert tok + cp[i..] == tok + ['.'] + cp[i + 1..];
    SplitAt(tok, cp[i + 1..], '.');
  }

  lemma AtonDot(cp: string, i: nat, done: seq<string>, tok: string, w: ULong)
    requires Accumulating(cp, i, done, tok, w) && i < |cp| && cp[i] == '.'
    ensures |done| < 3 && AtonField(tok, w) ==> Accumulating(cp, i + 1, done + [tok], "", w)
    ensures |done| == 3 || !AtonField(tok, w) ==> Aton(cp, w) == None
  {
    SplitAtDot(cp, i, done, tok);
    assert "" + cp[i + 1..] == cp[i + 1..];
    assert Split(cp, '.')[|done|] == tok;
  }

  lemma AtonOther(cp: string, i: nat, done: seq<string>, tok: string, w: ULong)
    requires Accumulating(cp, i, done, tok, w) && i < |cp| && !IsDec(cp[i]) && cp[i] != '.'
    ensures Aton(cp, w) == None
  {
    var tok' := tok + [cp[i]];
    assert tok + cp[i..] == tok' + cp[i + 1..];
    SplitPrefix(tok', cp[i + 1..], '.');
    var f := Split(cp, '.')[|done|];
    assert f[|tok|] == cp[i];
    assert !AtonField(f, w);
  }

  lemma AtonEnd(cp: string, done: seq<string>, tok: string, w: ULong)
    requires Accumulating(cp, |cp|, done, tok, w)
    ensures Aton(cp, w) == if AtonField(tok, w) then Some(Values(done + [tok], w) + Zeros(3 - |done|)) else None
  {
    assert tok + cp[|cp|..] == tok;
    SplitPlain(tok, '.');
    var fs := Split(cp, '.');
    assert fs == done + [tok];
    assert fs[|done|] == tok;
  }

  lemma BigEndianSmall(s: seq<Byte>)
    requires |s| <= 3
    ensures 256 * BigEndian(s) < 0x1_0000_0000
  {
    BigEndianBound(s);
    assert Pow256(1) == 256 && Pow256(2) == 0x1_0000 && Pow256(3) == 0x100_0000;
  }

  lemma PushField(done: seq<string>, tok: string, w: ULong)
    requires AtonField(tok, w)
    requires |done| <= 3 && forall k :: 0 <= k < |done| ==> AtonField(done[k], w)
    ensures 256 * BigEndian(Values(done, w)) < 0x1_0000_0000
    ensures BigEndian(Values(done + [tok], w)) == 256 * BigEndian(Values(done, w)) + Wrap(DecVal(tok), w)
  {
    BigEndianSmall(Values(done, w));
    assert Values(done + [tok], w) == Values(done, w) + [Wrap(DecVal(tok), w)];
    BigEndianSnoc(Values(done, w), Wrap(DecVal(tok), w));
  }

  /** The shift by 8 * (3 - dots), then network order. */
  function Normalise(addr: nat, dots: nat, ghost v: seq<Byte>): (r: seq<Byte>)
    requires dots <= 3 && |v| == dots + 1 && addr == BigEndian(v)
    ensures r == v + Zeros(3 - dots)
  {
    BigEndianPad(v, 3 - dots);
    OctetsOfBigEndian(v + Zeros(3 - dots));
    Octets(if dots < 3 then Shift8(addr, 3 - dots) else addr)
  }

  /** The arm shared by '.' and NUL: check the piece and push it. */
  method PushPiece(acc: nat, addr: nat, w: ULong, ghost done: seq<string>, ghost tok: string)
    returns (ok: bool, addr': nat)
    requires |done| <= 3 && forall k :: 0 <= k < |done| ==> AtonField(done[k], w)
    requires AllDec(tok) && acc == Wrap(DecVal(tok), w) && addr == BigEndian(Values(done, w))
    ensures ok == AtonField(tok, w)
    ensures ok ==> addr' == BigEndian(Values(done + [tok], w))
  {
    if acc > 255 {
      return false, addr;
    }
    PushField(done, tok, w);
    return true, Wrap(addr * 256, w) + acc;
  }

  method InetAton(cp: CString, w: ULong) returns (r: Option<seq<Byte>>)
    ensures r == Aton(cp, w)
  {
    var dots, acc, addr, i := 0, 0, 0, 0;
    ghost var done: seq<string> := [];
    ghost var tok: string := "";
    assert tok + cp[0..] == cp;
    while i < |cp|
      invariant Accumulating(cp, i, done, tok, w)
      invariant dots == |done| && acc == Wrap(DecVal(tok), w)
      invariant addr == BigEndian(Values(done, w))
    {
      var cc := cp[i];
      if IsDec(cc) {
        acc := AtonDigit(cp, i, done, tok, w, acc);
        tok := tok + [cc];
      } else if cc == '.' {
        AtonDot(cp, i, done, tok, w);
        dots := dots + 1;
        if dots > 3 {
          return None;
        }
        var ok;
        ok, addr := PushPiece(acc, addr, w, done, tok);
        if !ok {
          return None;
        }
        acc := 0;
        done, tok := done + [tok], "";
      } else {
        AtonOther(cp, i, done, tok, w);
        return None;
      }
      i := i + 1;
    }
    r := AtonNul(cp, w, done, tok, dots, acc, addr);
  }

  /** acc = acc * 10 + (cc - '0'), in a u_long. */
  method AtonDigit(cp: CString, i: nat, ghost done: seq<string>, ghost tok: string, w: ULong, acc: nat)
    returns (acc': nat)
    requires Accumulating(cp, i, done, tok, w) && i < |cp| && IsDec(cp[i]) && acc == Wrap(DecVal(tok), w)
    ensures Accumulating(cp, i + 1, done, tok + [cp[i]], w) && acc' == Wrap(DecVal(tok + [cp[i]]), w)
  {
    DecSnoc(tok, cp[i]);
    WrappedStep(DecVal(tok), HexDigit(cp[i]), w);
    assert tok + cp[i..] == tok + [cp[i]] + cp[i + 1..];
    acc' := Wrap(acc * 10 + HexDigit(cp[i]), w);
  }

  /** The terminating NUL pushes the last piece; then the address is normalised. */
  method AtonNul(cp: CString, w: ULong, ghost done: seq<string>, ghost tok: string, dots: nat, acc: nat, addr: nat)
    returns (r: Option<seq<Byte>>)
    requires Accumulating(cp, |cp|, done, tok, w)
    requires dots == |done| && acc == Wrap(DecVal(tok), w) && addr == BigEndian(Values(done, w))
    ensures r == Aton(cp, w)
  {
    AtonEnd(cp, done, tok, w);
    var ok, all := PushPiece(acc, addr, w, done, tok);
    if !ok {
      return None;
    }
    r := Some(Normalise(all, dots, Values(done + [tok], w)));
  }

  /** A missing piece is a zero octet on the right, just as an empty one is. */
  lemma AtonMissingPiece(s: string, w: ULong)
    requires |Split(s, '.')| <= 3
    ensures Aton(s + ".", w) == Aton(s, w)
  {
    var fs, gs := Split(s, '.'), Split(s + ".", '.');
    SplitAppend(s, '.');
    assert gs == fs + [""];
    assert AtonField("", w) && Wrap(DecVal(""), w) == 0;
    if forall k :: 0 <= k < |fs| ==> AtonField(fs[k], w) {
      assert Values(gs, w) == Values(fs, w) + [0];
      assert [0] + Zeros(3 - |fs|) == Zeros(4 - |fs|);
      ConcatAssoc(Values(fs, w), [0], Zeros(3 - |fs|));
    } else {
      var k :| 0 <= k < |fs| && !AtonField(fs[k], w);
      assert gs[k] == fs[k];
    }
  }

  /**
    * inet_pton4's language is exactly inet_aton's cut down to four non-empty pieces
    * that do not wrap u_long, and on it the two agree octet for octet.
    */
  lemma QuadVersusAton(s: string, w: ULong)
    ensures Quad(s).Some? ==> Aton(s, w) == Quad(s)
    ensures Quad(s).Some? <==>
            Aton(s, w).Some? && |Split(s, '.')| == 4 &&
            forall f :: f in Split(s, '.') ==> f != "" && (AllDec(f) ==> Wrap(DecVal(f), w) == DecVal(f))
  {
    var fs := Split(s, '.');
    if Quad(s).Some? {
      forall k | 0 <= k < 4 ensures AtonField(fs[k], w) && Wrap(DecVal(fs[k]), w) == DecVal(fs[k]) {
        assert IsOctet(fs[k]);
      }
      assert Values(fs, w) + Zeros(0) == Quad(s).value;
    }
    if Aton(s, w).Some? && |fs| == 4 && forall f :: f in fs ==> f != "" && (AllDec(f) ==> Wrap(DecVal(f), w) == DecVal(f)) {
      forall k | 0 <= k < 4 ensures IsOctet(fs[k]) {
        assert AtonField(fs[k], w) && fs[k] in fs;
      }
    }
  }
}
