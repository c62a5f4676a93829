/** Splitting text at a separator, and the numerals found between separators. */
module TextFields {

  /** The pieces of s between occurrences of sep; always at least one. */
  function Split(s: string, sep: char): (fs: seq<string>)
    ensures |fs| >= 1
  {
    if s == [] then
      [[]]
    else
      var rest := Split(s[1..], sep);
      if s[0] == sep then [[]] + rest else [[s[0]] + rest[0]] + rest[1..]
  }

  function Join(fs: seq<string>, sep: char): string
    requires |fs| >= 1
  {
    if |fs| == 1 then fs[0] else fs[0] + [sep] + Join(fs[1..], sep)
  }

  lemma {:induction false} JoinSplit(s: string, sep: char)
    ensures Join(Split(s, sep), sep) == s
    ensures forall f :: f in Split(s, sep) ==> sep !in f
  {
    SplitRejoins(s, sep);
    forall f | f in Split(s, sep) ensures sep !in f {
      var i :| 0 <= i < |Split(s, sep)| && Split(s, sep)[i] == f;
      SplitPieces(s, sep, i);
    }
  }

  /** A character in front of the first piece is in front of the whole. */
  lemma JoinLonger(c: char, fs: seq<string>, sep: char)
    requires |fs| >= 1
    ensures Join([[c] + fs[0]] + fs[1..], sep) == [c] + Join(fs, sep)
  {
    var gs := [[c] + fs[0]] + fs[1..];
    if |fs| > 1 {
      var rest := Join(fs[1..], sep);
      assert gs[1..] == fs[1..];
      assert ([c] + fs[0]) + [sep] + rest == [c] + (fs[0] + [sep] + rest);
    }
  }

  lemma {:induction false} SplitRejoins(s: string, sep: char)
    ensures Join(Split(s, sep), sep) == s
  {
    if s != [] {
      var rest := Split(s[1..], sep);
      SplitRejoins(s[1..], sep);
      if s[0] == sep {
        assert ([[]] + rest)[1..] == rest;
      } else {
        JoinLonger(s[0], rest, sep);
      }
      assert s == [s[0]] + s[1..];
    }
  }

  lemma {:induction false} SplitPieces(s: string, sep: char, i: nat)
    requires i < |Split(s, sep)|
    ensures sep !in Split(s, sep)[i]
  {
    if s != [] {
      if s[0] != sep {
        SplitPieces(s[1..], sep, i);
      } else if i > 0 {
        SplitPieces(s[1..], sep, i - 1);
      }
    }
  }

  lemma {:induction false} SplitAppend(b: string, sep: char)
    ensures Split(b + [sep], sep) == Split(b, sep) + [""]
  {
    if b == "" {
      assert b + [sep] == [sep] && [sep][1..] == "";
    } else {
      SplitAppend(b[1..], sep);
      assert (b + [sep])[1..] == b[1..] + [sep];
    }
  }

  lemma {:induction false} SplitPlain(c: string, sep: char)
    requires sep !in c
    ensures Split(c, sep) == [c]
  {
    if c != [] {
      SplitPlain(c[1..], sep);
      assert c == [c[0]] + c[1..];
    }
  }

  /** Text without a separator in front of s only lengthens its first piece. */
  lemma {:induction false} SplitPrefix(c: string, s: string, sep: char)
    requires sep !in c
    ensures Split(c + s, sep) == [c + Split(s, sep)[0]] + Split(s, sep)[1..]
  {
    var fs := Split(s, sep);
    if c == [] {
      assert c + s == s && c + fs[0] == fs[0];
    } else {
      var rest := Split(c[1..] + s, sep);
      assert rest == [c[1..] + fs[0]] + fs[1..] by {
        SplitPrefix(c[1..], s, sep);
      }
      assert (c + s)[1..] == c[1..] + s && (c + s)[0] == c[0] != sep;
      calc {
        Split(c + s, sep);
        [[c[0]] + rest[0]] + rest[1..];
        { assert rest[1..] == fs[1..]; assert [c[0]] + (c[1..] + fs[0]) == c + fs[0]; }
        [c + fs[0]] + fs[1..];
      }
    }
  }

  /** A piece followed by a separator stands alone. */
  lemma {:induction false} SplitAt(c: string, s: string, sep: char)
    requires sep !in c
    ensures Split(c + [sep] + s, sep) == [c] + Split(s, sep)
  {
    assert c + [sep] + s == c + ([sep] + s);
    SplitPrefix(c, [sep] + s, sep);
    assert ([sep] + s)[1..] == s;
    assert c + [] == c;
  }

  lemma {:induction false} SplitJoin(fs: seq<string>, sep: char)
    requires |fs| >= 1
    requires forall f :: f in fs ==> sep !in f
    ensures Split(Join(fs, sep), sep) == fs
  {
    if |fs| == 1 {
      SplitPlain(fs[0], sep);
    } else {
      SplitJoin(fs[1..], sep);
      SplitAt(fs[0], Join(fs[1..], sep), sep);
      assert fs == [fs[0]] + fs[1..];
    }
  }

  lemma {:induction false} JoinSnoc(fs: seq<string>, f: string, sep: char)
    requires |fs| >= 1
    ensures Join(fs + [f], sep) == Join(fs, sep) + [sep] + f
  {
    assert (fs + [f])[1..] == fs[1..] + [f];
    if |fs| > 1 {
      JoinSnoc(fs[1..], f, sep);
    }
  }

  predicate IsDec(c: char) {
    '0' <= c <= '9'
  }

  predicate IsHex(c: char) {
    IsDec(c) || 'a' <= c <= 'f' || 'A' <= c <= 'F'
  }

  /** Position of c in the digit tables 0-9a-f and 0-9A-F. */
  function HexDigit(c: char): (d: nat)
    requires IsHex(c)
    ensures d < 16 && (d < 10 <==> IsDec(c))
  {
    if IsDec(c) then c as int - '0' as int
    else if 'a' <= c <= 'f' then c as int - 'a' as int + 10
    else c as int - 'A' as int + 10
  }

  predicate AllDec(s: string) {
    forall i :: 0 <= i < |s| ==> IsDec(s[i])
  }

  predicate AllHex(s: string) {
    forall i :: 0 <= i < |s| ==> IsHex(s[i])
  }

  function DecVal(s: string): nat
    requires AllDec(s)
  {
    if s == [] then 0 else 10 * DecVal(s[..|s| - 1]) + HexDigit(s[|s| - 1])
  }

  function HexVal(s: string): nat
    requires AllHex(s)
  {
    if s == [] then 0 else 16 * HexVal(s[..|s| - 1]) + HexDigit(s[|s| - 1])
  }

  lemma DecSnoc(s: string, c: char)
    requires AllDec(s) && IsDec(c)
    ensures AllDec(s + [c]) && DecVal(s + [c]) == 10 * DecVal(s) + HexDigit(c)
  {
    assert (s + [c])[..|s|] == s;
  }

  lemma HexSnoc(s: string, c: char)
    requires AllHex(s) && IsHex(c)
    ensures AllHex(s + [c]) && HexVal(s + [c]) == 16 * HexVal(s) + HexDigit(c)
  {
    assert (s + [c])[..|s|] == s;
  }

  lemma {:induction false} DecMonotone(s: string, n: nat)
    requires AllDec(s) && n <= |s|
    ensures DecVal(s[..n]) <= DecVal(s)
  {
    if n == |s| {
      assert s[..n] == s;
    } else {
      DecMonotone(s[..|s| - 1], n);
      assert s[..|s| - 1][..n] == s[..n];
    }
  }

  lemma {:induction false} HexMonotone(s: string, n: nat)
    requires AllHex(s) && n <= |s|
    ensures HexVal(s[..n]) <= HexVal(s)
  {
    if n == |s| {
      assert s[..n] == s;
    } else {
      HexMonotone(s[..|s| - 1], n);
      assert s[..|s| - 1][..n] == s[..n];
    }
  }

  /** The number whose hexadecimal digits are the decimal digits of n. */
  function Bcd(n: nat): nat {
    if n < 10 then n else 16 * Bcd(n / 10) + n % 10
  }

  lemma BcdSnoc(v: nat, d: nat)
    requires d < 10
    ensures Bcd(10 * v + d) == 16 * Bcd(v) + d
  {
    assert (10 * v + d) / 10 == v && (10 * v + d) % 10 == d;
  }

  lemma {:induction false} HexOfDec(s: string)
    requires AllDec(s)
    ensures HexVal(s) == Bcd(DecVal(s))
  {
    if s != [] {
      HexOfDec(s[..|s| - 1]);
      BcdSnoc(DecVal(s[..|s| - 1]), HexDigit(s[|s| - 1]));
    }
  }

  function DigitChar(d: nat): (c: char)
    requires d < 16
    ensures IsHex(c) && HexDigit(c) == d && (d < 10 ==> IsDec(c))
  {
    if d < 10 then ('0' as int + d) as char else ('a' as int + d - 10) as char
  }

  /** What printf writes for %u. */
  function DecText(n: nat): (s: string)
    ensures s != [] && AllDec(s) && DecVal(s) == n
  {
    if n < 10 then
      var s := [DigitChar(n)];
      assert DecVal(s[..0]) == 0;
      s
    else
      DecSnoc(DecText(n / 10), DigitChar(n % 10));
      DecText(n / 10) + [DigitChar(n % 10)]
  }

  /** What printf writes for %x. */
  function HexText(n: nat): (s: string)
    ensures s != [] && AllHex(s) && HexVal(s) == n
  {
    if n < 16 then
      var s := [DigitChar(n)];
      assert HexVal(s[..0]) == 0;
      s
    else
      HexSnoc(HexText(n / 16), DigitChar(n % 16));
      HexText(n / 16) + [DigitChar(n % 16)]
  }

  lemma DecTextLength(n: nat)
    requires n < 256
    ensures |DecText(n)| <= 3
  {
    if n >= 10 {
      assert |DecText(n / 10)| <= 2 by {
        assert n / 10 / 10 < 10;
      }
    }
  }

  lemma HexTextLength(n: nat)
    requires n < 0x1_0000
    ensures |HexText(n)| <= 4
  {
    var m := n / 16;
    assert |HexText(m)| <= 3 by {
      var k := m / 16;
      assert |HexText(k)| <= 2 by {
        assert k / 16 < 16;
      }
    }
  }

  // ----- the digits, by their tables -----

  const DIGITS_L: string := "0123456789abcdef"
  const DIGITS_U: string := "0123456789ABCDEF"

  /** strchr in the two tables: the value of a digit is its place in the lower- or the upper-case one. */
  lemma HexDigitTables(c: char, d: nat)
    requires d < 16
    ensures IsHex(c) && HexDigit(c) == d <==> DIGITS_L[d] == c || DIGITS_U[d] == c
  {
    TableEntries(d);
  }

  lemma TableEntries(d: nat)
    requires d < 16
    ensures d < 10 ==> DIGITS_L[d] == DIGITS_U[d] == ('0' as int + d) as char
    ensures d >= 10 ==> DIGITS_L[d] == ('a' as int + d - 10) as char && DIGITS_U[d] == ('A' as int + d - 10) as char
  {
  }

  /** printf writes the lower-case digit. */
  lemma DigitCharTable(d: nat)
    requires d < 16
    ensures DigitChar(d) == DIGITS_L[d]
  {
    TableEntries(d);
  }

  function Power(b: nat, n: nat): nat {
    if n == 0 then 1 else b * Power(b, n - 1)
  }

  lemma Regroup(b: nat, d: nat, p: nat, v: nat, e: nat)
    ensures b * (d * p + v) + e == d * (b * p) + (b * v + e)
  {
  }

  /** Positional notation: the first digit counts a power of the base. */
  lemma {:induction false} HexValFront(c: char, s: string)
    requires IsHex(c) && AllHex(s)
    ensures AllHex([c] + s) && HexVal([c] + s) == HexDigit(c) * Power(16, |s|) + HexVal(s)
  {
    if s == [] {
      assert ([c] + s)[..0] == [] && [c] + s == [c];
    } else {
      var n := |s| - 1;
      HexValFront(c, s[..n]);
      assert ([c] + s)[..|s|] == [c] + s[..n];
      Regroup(16, HexDigit(c), Power(16, n), HexVal(s[..n]), HexDigit(s[n]));
    }
  }

  lemma {:induction false} DecValFront(c: char, s: string)
    requires IsDec(c) && AllDec(s)
    ensures AllDec([c] + s) && DecVal([c] + s) == HexDigit(c) * Power(10, |s|) + DecVal(s)
  {
    if s == [] {
      assert ([c] + s)[..0] == [] && [c] + s == [c];
    } else {
      var n := |s| - 1;
      DecValFront(c, s[..n]);
      assert ([c] + s)[..|s|] == [c] + s[..n];
      Regroup(10, HexDigit(c), Power(10, n), DecVal(s[..n]), HexDigit(s[n]));
    }
  }

  /** What %x writes is the one text of the value in lower-case digits without a leading zero. */
  predicate Minimal(s: string) {
    s != [] && (|s| > 1 ==> s[0] != '0') && AllHex(s) && NoUpper(s)
  }

  predicate NoUpper(s: string) {
    forall i :: 0 <= i < |s| ==> !('A' <= s[i] <= 'F')
  }

  lemma {:induction false} HexTextMinimal(n: nat)
    ensures Minimal(HexText(n)) && (n > 0 ==> HexText(n)[0] != '0')
  {
    if n >= 16 {
      HexTextMinimal(n / 16);
    }
  }

  lemma LastDigit(c: char, d: nat)
    requires IsHex(c) && !('A' <= c <= 'F') && d == HexDigit(c)
    ensures DigitChar(d) == c
  {
  }

  lemma HexTextSnoc(v: nat, d: nat)
    requires v > 0 && d < 16
    ensures HexText(16 * v + d) == HexText(v) + [DigitChar(d)]
  {
    assert (16 * v + d) / 16 == v && (16 * v + d) % 16 == d;
  }

  lemma DecTextSnoc(v: nat, d: nat)
    requires v > 0 && d < 10
    ensures DecText(10 * v + d) == DecText(v) + [DigitChar(d)]
  {
    assert (10 * v + d) / 10 == v && (10 * v + d) % 10 == d;
  }

  lemma HexUniqueStep(pre: string, c: char)
    requires AllHex(pre) && pre == HexText(HexVal(pre)) && HexVal(pre) > 0 && IsHex(c) && !('A' <= c <= 'F')
    ensures AllHex(pre + [c]) && pre + [c] == HexText(HexVal(pre + [c])) && HexVal(pre + [c]) > 0
  {
    HexSnoc(pre, c);
    HexTextSnoc(HexVal(pre), HexDigit(c));
    LastDigit(c, HexDigit(c));
  }

  lemma HexUniqueOne(c: char)
    requires IsHex(c) && !('A' <= c <= 'F')
    ensures AllHex([c]) && [c] == HexText(HexVal([c])) && (c != '0' ==> HexVal([c]) > 0)
  {
    LastDigit(c, HexDigit(c));
    assert [c][..0] == [];
  }

  lemma {:induction false} HexTextUnique(s: string)
    requires Minimal(s)
    ensures s == HexText(HexVal(s)) && (s[0] != '0' ==> HexVal(s) > 0)
  {
    var n := |s| - 1;
    if n == 0 {
      HexUniqueOne(s[0]);
      assert s == [s[0]];
    } else {
      var pre := s[..n];
      assert Minimal(pre) && pre[0] == s[0];
      HexTextUnique(pre);
      HexUniqueStep(pre, s[n]);
      assert s == pre + [s[n]];
    }
  }

  lemma DecUniqueStep(pre: string, c: char)
    requires AllDec(pre) && pre == DecText(DecVal(pre)) && DecVal(pre) > 0 && IsDec(c)
    ensures AllDec(pre + [c]) && pre + [c] == DecText(DecVal(pre + [c])) && DecVal(pre + [c]) > 0
  {
    DecSnoc(pre, c);
    DecTextSnoc(DecVal(pre), HexDigit(c));
    LastDigit(c, HexDigit(c));
  }

  lemma DecUniqueOne(c: char)
    requires IsDec(c)
    ensures AllDec([c]) && [c] == DecText(DecVal([c])) && (c != '0' ==> DecVal([c]) > 0)
  {
    LastDigit(c, HexDigit(c));
    assert [c][..0] == [];
  }

  /** Likewise %u. */
  lemma {:induction false} DecTextUnique(s: string)
    requires s != [] && AllDec(s) && (|s| > 1 ==> s[0] != '0')
    ensures s == DecText(DecVal(s)) && (s[0] != '0' ==> DecVal(s) > 0)
  {
    var n := |s| - 1;
    if n == 0 {
      DecUniqueOne(s[0]);
      assert s == [s[0]];
    } else {
      var pre := s[..n];
      assert AllDec(pre) && pre[0] == s[0];
      DecTextUnique(pre);
      DecUniqueStep(pre, s[n]);
      assert s == pre + [s[n]];
    }
  }

  lemma {:induction false} DecTextMinimal(n: nat)
    ensures |DecText(n)| > 1 ==> DecText(n)[0] != '0'
    ensures n > 0 ==> DecText(n)[0] != '0'
  {
    if n >= 10 {
      DecTextMinimal(n / 10);
    }
  }
}
