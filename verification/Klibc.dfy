/** The kernel library's number printing and parsing. */
module Klibc {
  import opened Options

  const TWO32: int := 0x1_0000_0000
  const ULONG_MAX: u32 := 0xffff_ffff

  type u8 = x: int | 0 <= x < 256
  type u32 = x: int | 0 <= x < 0x1_0000_0000

  // ----- numerals -----

  /** The value of a digit or letter, in either case. */
  function DigitValue(c: u8): Option<nat> {
    if '0' as int <= c <= '9' as int then Some(c - '0' as int)
    else if 'a' as int <= c <= 'z' as int then Some(c - 'a' as int + 10)
    else if 'A' as int <= c <= 'Z' as int then Some(c - 'A' as int + 10)
    else None
  }

  predicate IsDigit(c: u8, base: nat) { DigitValue(c).Some? && DigitValue(c).value < base }

  predicate AllDigits(ds: seq<u8>, base: nat) {
    forall i :: 0 <= i < |ds| ==> IsDigit(ds[i], base)
  }

  /** The number a string of digits stands for. */
  function Numeral(ds: seq<u8>, base: nat): nat
    requires AllDigits(ds, base)
  {
    if ds == [] then 0 else Numeral(ds[..|ds| - 1], base) * base + DigitValue(ds[|ds| - 1]).value
  }

  /** The end of the longest run of digits that starts at i. */
  function DigitRun(s: seq<u8>, i: nat, base: nat): (e: nat)
    requires i <= |s|
    ensures i <= e <= |s| && AllDigits(s[i..e], base) && (e < |s| ==> !IsDigit(s[e], base))
    decreases |s| - i
  {
    if i < |s| && IsDigit(s[i], base) then DigitRun(s, i + 1, base) else i
  }

  predicate IsSpace(c: u8) { 9 <= c < 14 || c == ' ' as int }

  /** The first character from i on that is not a space. */
  function SkipSpaces(s: seq<u8>, i: nat): (e: nat)
    requires i <= |s|
    ensures i <= e <= |s| && (forall k :: i <= k < e ==> IsSpace(s[k])) && (e < |s| ==> !IsSpace(s[e]))
    decreases |s| - i
  {
    if i < |s| && IsSpace(s[i]) then SkipSpaces(s, i + 1) else i
  }

  /** The character at i of a string that ends with a zero. */
  function CharAt(s: seq<u8>, i: nat): u8
    requires i <= |s|
  {
    if i < |s| then s[i] else 0
  }

  /** A hexadecimal prefix with a digit after it. */
  predicate HexPrefix(s: seq<u8>, i: nat) {
    i + 2 < |s| && s[i] == '0' as int && (s[i + 1] == 'x' as int || s[i + 1] == 'X' as int) && IsDigit(s[i + 2], 16)
  }

  /** The base a numeral at i is read in. */
  function Base(s: seq<u8>, i: nat, base: int): int
    requires i <= |s|
  {
    if base != 0 then base
    else if CharAt(s, i) != '0' as int then 10
    else if HexPrefix(s, i) then 16 else 8
  }

  /** Past the spaces and a sign, and whether the sign is a minus. */
  function Sign(s: seq<u8>): (r: (bool, nat))
    ensures r.1 <= |s|
  {
    var i := SkipSpaces(s, 0);
    var neg := CharAt(s, i) == '-' as int;
    (neg, if neg || CharAt(s, i) == '+' as int then i + 1 else i)
  }

  /** What strtoul is for: the exact value of the longest numeral, or the largest number when it is too big for
      the type; a minus sign negates modulo 2^32. The second result is where the numeral ends, the start when there
      is none, and nothing when the base is not one. */
  function Parsed(s: seq<u8>, base: int): (u32, Option<nat>) {
    var (neg, first) := Sign(s);
    var b := Base(s, first, base);
    if b < 2 || b > 36 then (0, None)
    else
      var start := if b == 16 && HexPrefix(s, first) then first + 2 else first;
      var end := DigitRun(s, start, b);
      if end == first then (0, Some(0))
      else
        var n := Numeral(s[start..end], b);
        (if n > ULONG_MAX then ULONG_MAX else if neg then (TWO32 - n) % TWO32 else n, Some(end))
  }

  // ----- what is read, on the string itself -----

  /** A string of blanks, a sign or none, a prefix 0x or none, digits and a rest that does not go on with a digit. The
      base is the one asked for; 0 asks for 16 after the prefix, 8 after another zero and 10 otherwise. */
  ghost predicate Reads(w: seq<u8>, g: seq<u8>, p: seq<u8>, ds: seq<u8>, rest: seq<u8>, base0: int, base: nat) {
    && 2 <= base <= 36 && (base0 == base || base0 == 0)
    && (forall i :: 0 <= i < |w| ==> w[i] in [9, 10, 11, 12, 13, 32])
    && g in [[], ['-' as int], ['+' as int]]
    && ds != [] && AllDigits(ds, base) && (rest == [] || !IsDigit(rest[0], base))
    && (if p == [] then
          && (base0 == 0 ==> base == if ds[0] == '0' as int then 8 else 10)
          && (base0 == 0 || base0 == 16 ==> !(ds == ['0' as int] && HexDigits(rest)))
        else p in [['0' as int, 'x' as int], ['0' as int, 'X' as int]] && base == 16)
  }

  /** The rest goes on like a hexadecimal prefix. */
  predicate HexDigits(rest: seq<u8>) {
    |rest| > 1 && (rest[0] == 'x' as int || rest[0] == 'X' as int) && IsDigit(rest[1], 16)
  }

  /** Such a string is worth its digits up to their end, negated after a minus sign, or the largest number. */
  lemma ParsedIs(w: seq<u8>, g: seq<u8>, p: seq<u8>, ds: seq<u8>, rest: seq<u8>, base0: int, base: nat)
    requires Reads(w, g, p, ds, rest, base0, base)
    ensures var n := Numeral(ds, base);
            Parsed(w + g + p + ds + rest, base0)
            == (if n > 0xffff_ffff then 0xffff_ffff else if g == ['-' as int] && n > 0 then 0x1_0000_0000 - n else n,
                Some(|w + g + p + ds|))
  {
    hide Numeral, Sign, Base, HexPrefix, DigitRun, IsDigit;
    var s := w + g + p + ds + rest;
    var e, first, start, end := |w|, |w| + |g|, |w| + |g| + |p|, |w| + |g| + |p| + |ds|;
    Parts(s, w, g, p, ds, rest);
    assert s[first] !in [9, 10, 11, 12, 13, 32, '-' as int, '+' as int] by {
      StartsWithDigit(p, ds, base);
      assert s[first..][0] == (p + ds + rest)[0] == (p + ds)[0];
    }
    SignRead(s, e, g);
    assert s == (w + g) + p + ds + rest;
    PrefixRead(s, w + g, p, ds, rest, base0, base);
    assert end < |s| ==> s[end] == s[end..][0];
    RunEnds(s, start, end, base);
    ParsedFrom(s, first, start, end, g == ['-' as int], base0, base);
  }

  lemma Parts(s: seq<u8>, w: seq<u8>, g: seq<u8>, p: seq<u8>, ds: seq<u8>, rest: seq<u8>)
    requires s == w + g + p + ds + rest
    ensures var e, first, start := |w|, |w| + |g|, |w| + |g| + |p|;
            && s[..e] == w && s[e..first] == g && s[first..] == p + ds + rest
            && s[start..start + |ds|] == ds && s[start + |ds|..] == rest
  {}

  lemma StartsWithDigit(p: seq<u8>, ds: seq<u8>, base: nat)
    requires ds != [] && AllDigits(ds, base) && (p != [] ==> p[0] == '0' as int)
    ensures (p + ds)[0] !in [9, 10, 11, 12, 13, 32, '-' as int, '+' as int]
  {
    assert IsDigit(ds[0], base);
  }

  lemma ParsedFrom(s: seq<u8>, first: nat, start: nat, end: nat, neg: bool, base0: int, base: nat)
    requires first <= start <= |s| && Sign(s) == (neg, first) && Base(s, first, base0) == base && 2 <= base <= 36
    requires start == if base == 16 && HexPrefix(s, first) then first + 2 else first
    requires start < end && DigitRun(s, start, base) == end
    ensures var n := Numeral(s[start..end], base);
            Parsed(s, base0)
            == (if n > 0xffff_ffff then 0xffff_ffff else if neg && n > 0 then 0x1_0000_0000 - n else n, Some(end))
  {
    hide Sign, Base, HexPrefix, DigitRun, Numeral;
  }

  lemma SignRead(s: seq<u8>, e: nat, g: seq<u8>)
    requires e + |g| < |s| && s[e..e + |g|] == g && g in [[], ['-' as int], ['+' as int]]
    requires forall i :: 0 <= i < e ==> s[i] in [9, 10, 11, 12, 13, 32]
    requires g == [] ==> s[e] !in [9, 10, 11, 12, 13, 32, '-' as int, '+' as int]
    ensures Sign(s) == (g == ['-' as int], e + |g|)
  {
    assert g != [] ==> s[e] == g[0];
    SpacesEnd(s, 0, e);
  }

  lemma PrefixRead(s: seq<u8>, front: seq<u8>, p: seq<u8>, ds: seq<u8>, rest: seq<u8>, base0: int, base: nat)
    requires Reads([], [], p, ds, rest, base0, base) && s == front + p + ds + rest
    ensures Base(s, |front|, base0) == base
    ensures p == [] ==> base != 16 || !HexPrefix(s, |front|)
    ensures p != [] ==> HexPrefix(s, |front|) && |p| == 2
  {
    var i := |front|;
    if p == [] {
      assert s[i] == ds[0] && (|ds| > 1 ==> s[i + 1] == ds[1]);
      if |ds| == 1 {
        assert (rest != [] ==> s[i + 1] == rest[0]) && (|rest| > 1 ==> s[i + 2] == rest[1]);
      }
    } else {
      assert s[i] == p[0] && s[i + 1] == p[1] && s[i + 2] == ds[0];
    }
  }

  lemma {:induction false} RunEnds(s: seq<u8>, i: nat, e: nat, base: nat)
    requires i <= e <= |s| && AllDigits(s[i..e], base) && (e < |s| ==> !IsDigit(s[e], base))
    ensures DigitRun(s, i, base) == e
    decreases e - i
  {
    if i < e {
      assert s[i..e][0] == s[i] && s[i..e][1..] == s[i + 1..e];
      RunEnds(s, i + 1, e, base);
    }
  }

  /** Where no digit follows the blanks and the sign nothing is read, and the end is the start. */
  lemma ParsedNothing(w: seq<u8>, g: seq<u8>, rest: seq<u8>, base0: int)
    requires base0 == 0 || 2 <= base0 <= 36
    requires forall i :: 0 <= i < |w| ==> w[i] in [9, 10, 11, 12, 13, 32]
    requires g in [[], ['-' as int], ['+' as int]]
    requires g == [] && rest != [] ==> rest[0] !in [9, 10, 11, 12, 13, 32, '-' as int, '+' as int]
    requires rest != [] ==> !IsDigit(rest[0], if base0 == 0 then 10 else base0)
    ensures Parsed(w + g + rest, base0) == (0, Some(0))
  {
    hide SkipSpaces, Numeral;
    var s, e := w + g + rest, |w|;
    if g == [] && rest == [] { AllSpaces(s, 0); } else { SpacesEnd(s, 0, e); }
    assert g != [] ==> s[e] == g[0];
    assert rest != [] ==> s[e + |g|] == rest[0];
  }

  lemma {:induction false} AllSpaces(s: seq<u8>, i: nat)
    requires i <= |s| && forall k :: i <= k < |s| ==> IsSpace(s[k])
    ensures SkipSpaces(s, i) == |s|
    decreases |s| - i
  {
    if i < |s| { AllSpaces(s, i + 1); }
  }

  // ----- strtoul -----

  /** The digit classification in unsigned char arithmetic. */
  function Classify(c: u8): u8 {
    (if c >= 'a' as int then c - 'a' as int + 10
     else if c >= 'A' as int then c - 'A' as int + 10
     else if c <= '9' as int then c - '0' as int else 0xff) % 256
  }

  lemma ClassifyIs(c: u8, base: nat)
    requires 2 <= base <= 36
    ensures Classify(c) < base <==> IsDigit(c, base)
    ensures IsDigit(c, base) ==> Classify(c) == DigitValue(c).value
  {}

  /** isxdigit, as the library computes it. */
  predicate IsXDigit(c: u8) {
    '0' as int <= c < '0' as int + 10 || 'a' as int <= (if (c / 32) % 2 == 0 then c + 32 else c) < 'a' as int + 6
  }

  lemma IsXDigitIs(c: u8)
    ensures IsXDigit(c) <==> IsDigit(c, 16)
  {}

  /** One digit more, in two pieces of 8 and 24 bits: exact modulo 2^32, and the high piece tells the overflow. */
  function LowPiece(v: u32, base: nat, c: nat): nat { (v % 256) * base + c }
  function HighPiece(v: u32, base: nat, c: nat): nat { (v / 256) * base + LowPiece(v, base, c) / 256 }

  function Recombine(w: nat, x: nat): u32 { ((w * 256) % TWO32 + x % 256) % TWO32 }

  function NextValue(v: u32, base: nat, c: nat): u32 { Recombine(HighPiece(v, base, c), LowPiece(v, base, c)) }

  function Overflows(v: u32, base: nat, c: nat): bool { HighPiece(v, base, c) > ULONG_MAX / 256 }

  lemma DigitStep(v: u32, base: nat, c: nat)
    requires 2 <= base <= 36 && c < base
    ensures LowPiece(v, base, c) < TWO32 && HighPiece(v, base, c) < TWO32
    ensures NextValue(v, base, c) == (v * base + c) % TWO32
    ensures Overflows(v, base, c) <==> v * base + c > ULONG_MAX
  {
    var x, w := LowPiece(v, base, c), HighPiece(v, base, c);
    Products(v, base);
    Pieces(v / 256, v % 256, base, c);
    Rejoin(v * base + c, w, x % 256);
  }

  lemma Rejoin(n: nat, w: nat, r: nat)
    requires n == w * 256 + r && r < 256
    ensures ((w * 256) % TWO32 + r) % TWO32 == n % TWO32
    ensures w > ULONG_MAX / 256 <==> n > ULONG_MAX
  {
    var k := w / 0x100_0000;
    Mod(w * 256, k, (w % 0x100_0000) * 256);
    Mod(n, k, (w % 0x100_0000) * 256 + r);
  }

  lemma Pieces(h: int, l: int, base: int, c: int)
    ensures (h * 256 + l) * base + c == (h * base) * 256 + (l * base + c)
  {}

  lemma Products(v: u32, base: nat)
    requires base <= 36
    ensures 0 <= (v % 256) * base <= 255 * 36 && 0 <= (v / 256) * base <= 0xff_ffff * 36
  {
    Product(v % 256, 255, base);
    Product(v / 256, 0xff_ffff, base);
  }

  lemma Product(x: nat, m: nat, base: nat)
    requires x <= m && base <= 36
    ensures x * base <= m * 36
  {
    assert x * base <= m * base <= m * 36;
  }

  lemma Mod(n: int, k: int, r: int)
    requires n == k * TWO32 + r && 0 <= r < TWO32
    ensures n % TWO32 == r
  {}

  /** What the loop keeps: the value so far modulo 2^32, and whether it was too big. */
  ghost predicate Accumulated(v: u32, overflow: bool, n: nat) {
    v == n % TWO32 && (overflow <==> n > ULONG_MAX)
  }

  lemma AccumulateStep(v: u32, overflow: bool, n: nat, base: nat, c: nat)
    requires Accumulated(v, overflow, n) && 2 <= base <= 36 && c < base
    ensures Accumulated(NextValue(v, base, c), overflow || Overflows(v, base, c), n * base + c)
  {
    hide NextValue, Overflows;
    DigitStep(v, base, c);
    var q := n / TWO32;
    assert n == q * TWO32 + v;
    Carry(q, v, base, c);
    if overflow {
      assert n * base >= n by { Grows(n, base); }
    } else {
      assert n == v;
    }
  }

  lemma Grows(n: nat, base: nat)
    requires base >= 1
    ensures n * base >= n
  {}

  lemma Carry(q: nat, v: nat, base: nat, c: nat)
    ensures ((q * TWO32 + v) * base + c) % TWO32 == (v * base + c) % TWO32
  {
    var m := v * base + c;
    assert (q * TWO32 + v) * base + c == (q * base + m / TWO32) * TWO32 + m % TWO32;
    Mod((q * TWO32 + v) * base + c, q * base + m / TWO32, m % TWO32);
  }

  lemma RunAtEnd(s: seq<u8>, base: nat)
    ensures DigitRun(s, |s|, base) == |s|
  {}

  lemma RunStep(s: seq<u8>, i: nat, base: nat)
    requires i < |s|
    ensures DigitRun(s, i, base) == if IsDigit(s[i], base) then DigitRun(s, i + 1, base) else i
  {}

  lemma NumeralStep(s: seq<u8>, i: nat, k: nat, base: nat)
    requires i <= k < |s| && AllDigits(s[i..k], base) && IsDigit(s[k], base)
    ensures AllDigits(s[i..k + 1], base)
    ensures Numeral(s[i..k + 1], base) == Numeral(s[i..k], base) * base + DigitValue(s[k]).value
  {
    assert s[i..k + 1] == s[i..k] + [s[k]];
    NumeralAppend(s[i..k], s[k], base);
  }

  method StrToUl(s: seq<u8>, base0: int) returns (value: u32, end: Option<nat>)
    requires 0 !in s && -0x8000_0000 <= base0 < 0x8000_0000
    ensures (value, end) == Parsed(s, base0)
    ensures base0 < 0 || base0 == 1 || base0 > 36 ==> value == 0 && end.None?
  {
    hide Numeral, HexPrefix, DigitRun, SkipSpaces, Accumulated;
    var neg, orig := SkipToDigits(s);
    var bad, base, nptr := ChooseBase(s, orig, base0);
    if bad { return 0, None; }
    ghost var start := nptr;
    var v, overflow;
    v, overflow, nptr := Digits(s, nptr, base);
    ghost var n := Numeral(s[start..nptr], base);
    AccumulatedMeans(v, overflow, n);
    if nptr == orig {
      nptr, v := 0, 0;
      NoDigits(s, start, orig, base);
    }
    end := Some(nptr);
    if overflow { return ULONG_MAX, end; }
    value := if neg then (TWO32 - v) % TWO32 else v;
  }

  lemma AccumulatedMeans(v: u32, overflow: bool, n: nat)
    requires Accumulated(v, overflow, n)
    ensures (overflow <==> n > ULONG_MAX) && (!overflow ==> v == n)
  {}

  lemma NoDigits(s: seq<u8>, start: nat, end: nat, base: nat)
    requires start <= end <= |s| && end <= start
    ensures AllDigits(s[start..end], base) && Numeral(s[start..end], base) == 0 && Accumulated(0, false, 0)
  {}

  method SkipToDigits(s: seq<u8>) returns (neg: bool, nptr: nat)
    ensures (neg, nptr) == Sign(s)
  {
    nptr := 0;
    while IsSpace(CharAt(s, nptr))
      invariant nptr <= |s| && SkipSpaces(s, 0) == SkipSpaces(s, nptr)
      decreases |s| - nptr
    {
      nptr := nptr + 1;
    }
    neg := false;
    if CharAt(s, nptr) == '-' as int {
      neg := true;
      nptr := nptr + 1;
    } else if CharAt(s, nptr) == '+' as int {
      nptr := nptr + 1;
    }
  }

  /** The base, and the place of the first digit: after a prefix 0x in base 16, or when the base is left open. */
  method ChooseBase(s: seq<u8>, first: nat, base0: int) returns (bad: bool, base: int, nptr: nat)
    requires 0 !in s && first <= |s| && -0x8000_0000 <= base0 < 0x8000_0000
    ensures var b := Base(s, first, base0);
            && (bad <==> b < 2 || b > 36)
            && (!bad ==> base == b && nptr == if b == 16 && HexPrefix(s, first) then first + 2 else first)
    ensures nptr <= |s|
  {
    base, nptr := base0, first;
    var skip0x := base == 16 && CharAt(s, nptr) == '0' as int;
    if !skip0x {
      if base != 0 {
        var b := (base - 2) % TWO32;
        if b > 34 { return true, base, nptr; }
      } else if CharAt(s, nptr) == '0' as int {
        base := 8;
        skip0x := true;
      } else {
        base := 10;
      }
    }
    bad := false;
    if skip0x {
      if CharAt(s, nptr + 1) == 'x' as int || CharAt(s, nptr + 1) == 'X' as int {
        IsXDigitIs(CharAt(s, nptr + 2));
        if IsXDigit(CharAt(s, nptr + 2)) {
          nptr := nptr + 2;
          base := 16;
        }
      }
    }
  }

  /** The digit loop. */
  method Digits(s: seq<u8>, start: nat, base: nat) returns (v: u32, overflow: bool, nptr: nat)
    requires start <= |s| && 2 <= base <= 36
    ensures nptr == DigitRun(s, start, base) && Accumulated(v, overflow, Numeral(s[start..nptr], base))
  {
    hide Accumulated, NextValue, Overflows, Classify, IsDigit, AllDigits, DigitRun, Numeral;
    v, overflow, nptr := 0, false, start;
    NoDigits(s, start, start, base);
    while nptr < |s|
      invariant start <= nptr <= |s| && DigitRun(s, start, base) == DigitRun(s, nptr, base)
      invariant AllDigits(s[start..nptr], base) && Accumulated(v, overflow, Numeral(s[start..nptr], base))
    {
      RunStep(s, nptr, base);
      ClassifyIs(s[nptr], base);
      var c := Classify(s[nptr]);
      if c >= base { return; }
      NumeralStep(s, start, nptr, base);
      AccumulateStep(v, overflow, Numeral(s[start..nptr], base), base, c);
      if Overflows(v, base, c) { overflow := true; }
      v := NextValue(v, base, c);
      nptr := nptr + 1;
    }
    RunAtEnd(s, base);
  }

  // ----- printing -----

  function DigitChar(d: nat): u8
    requires d < 16
  {
    if d < 10 then '0' as int + d else 'a' as int + (d - 10)
  }

  /** The numeral of u, most significant digit first and without leading zeros. */
  function Text(u: nat, base: nat): (s: seq<u8>)
    requires 2 <= base <= 16
    ensures |s| > 0
    decreases u
  {
    (if u < base then [] else (Shrinks(u, base); Text(u / base, base))) + [DigitChar(u % base)]
  }

  function Fill(fill: u8, n: int): (s: seq<u8>)
    ensures |s| == if n > 0 then n else 0
  {
    seq(if n > 0 then n else 0, _ => fill)
  }

  /** What %0w or % w prints of an unsigned value. */
  function Printed(u: nat, base: nat, width: nat, fill: u8): seq<u8>
    requires 2 <= base <= 16
  {
    Fill(fill, width - |Text(u, base)|) + Text(u, base)
  }

  function Pow10(k: nat): nat { if k == 0 then 1 else 10 * Pow10(k - 1) }

  lemma {:induction false} TextFits(u: nat, base: nat, k: nat)
    requires 10 <= base <= 16 && u < Pow10(k) && k > 0
    ensures |Text(u, base)| <= k
    decreases u
  {
    if u >= base {
      Quotient(u, base);
      TextFits(u / base, base, k - 1);
    }
  }

  lemma Quotient(u: nat, base: nat)
    requires 10 <= base && u >= base
    ensures 10 * (u / base) <= u && 0 < u / base < u
  {
    assert u == base * (u / base) + u % base;
    assert base * (u / base) >= 10 * (u / base);
  }

  /** A text of at most ten digits, none of them zero bytes. */
  lemma {:induction false} TextNonZero(u: nat, base: nat)
    requires 2 <= base <= 16
    ensures 0 !in Text(u, base)
    decreases u
  {
    hide Text;
    LastDigit(u, base);
    DigitCharNonZero(u % base);
    if u >= base { TextNonZero(u / base, base); }
  }

  lemma DigitCharNonZero(d: nat)
    requires d < 16
    ensures DigitChar(d) != 0
  {}

  lemma TextFitsScratch(u: u32, base: nat)
    requires 10 <= base <= 16
    ensures |Text(u, base)| <= 10
  {
    assert Pow10(10) == 10_000_000_000 by {
      assert Pow10(5) == 100_000;
    }
    TextFits(u, base, 10);
  }

  /** The conversion loop: the digits go backwards into the scratch buffer of twenty bytes and the padding before
      them; the text is sent from there up to the zero at its end. There is none when the padding does not fit the
      buffer, whose bounds the source does not check. */
  method Convert(u: u32, base: nat, width0: u8, fill: u8) returns (out: Option<seq<u8>>)
    requires base == 10 || base == 16
    requires width0 > 0 ==> fill == '0' as int || fill == ' ' as int
    ensures out == if width0 < 20 then Some(Printed(u, base, width0, fill)) else None
  {
    hide Text, Fill;
    var scratch := new u8[20];
    TextFitsScratch(u, base);
    TextNonZero(u, base);
    FillNonZero(fill, width0 - |Text(u, base)|);
    scratch[19] := 0;
    var ptr, width := PutDigits(scratch, u, base, width0);
    var fits;
    fits, ptr := PutFill(scratch, ptr, width, fill);
    if !fits { return None; }
    SliceNonZero(scratch, ptr, Fill(fill, width), Text(u, base));
    var text := Send(scratch, ptr);
    out := Some(text);
  }

  lemma SliceNonZero(scratch: array<u8>, from: nat, x: seq<u8>, y: seq<u8>)
    requires scratch.Length == 20 && from <= 19 && scratch[from..19] == x + y && 0 !in x && 0 !in y
    ensures forall k :: from <= k < 19 ==> scratch[k] != 0
  {
    forall k | from <= k < 19 ensures scratch[k] != 0 {
      assert scratch[k] == (x + y)[k - from];
    }
  }

  /** Sends what the buffer holds up to the first zero. */
  method Send(scratch: array<u8>, from: nat) returns (out: seq<u8>)
    requires scratch.Length == 20 && from <= 19 && scratch[19] == 0 && forall k :: from <= k < 19 ==> scratch[k] != 0
    ensures out == scratch[from..19]
  {
    out := [];
    var ptr := from;
    while scratch[ptr] != 0
      invariant from <= ptr <= 19 && out == scratch[from..ptr]
      decreases 19 - ptr
    {
      out := out + [scratch[ptr]];
      ptr := ptr + 1;
    }
  }

  lemma FillStep(fill: u8, n: nat)
    ensures Fill(fill, 0) == [] && Fill(fill, n + 1) == [fill] + Fill(fill, n)
  {}

  lemma FillNonZero(fill: u8, n: int)
    requires n > 0 ==> fill != 0
    ensures 0 !in Fill(fill, n)
  {}

  method ToChar(d: nat) returns (ch: u8)
    requires d < 16
    ensures ch == DigitChar(d)
  {
    var c := d + '0' as int;
    if c > '9' as int { c := c + ('a' as int - '9' as int - 1); }
    ch := c;
  }

  /** One byte more before the ptr-th. */
  method PutByte(scratch: array<u8>, ptr0: nat, v: u8) returns (ptr: nat)
    requires scratch.Length == 20 && 0 < ptr0 <= 19
    modifies scratch
    ensures ptr == ptr0 - 1 && scratch[ptr..19] == [v] + old(scratch[ptr0..19]) && scratch[19] == old(scratch[19])
  {
    ptr := ptr0 - 1;
    scratch[ptr] := v;
  }

  lemma Regroup(front: seq<u8>, c: u8, tail: seq<u8>)
    ensures (front + [c]) + tail == front + ([c] + tail)
  {}

  lemma FillMore(c: u8, fill: seq<u8>, tail: seq<u8>)
    ensures ([c] + fill) + tail == [c] + (fill + tail)
  {}

  /** The last digit of a value, and what is left of it. */
  method SplitDigit(val: nat, base: nat) returns (rest: nat, ch: u8)
    requires 2 <= base <= 16
    ensures Text(val, base) == (if rest == 0 then [] else Text(rest, base)) + [ch]
    ensures rest == 0 || rest < val
  {
    hide Text, DigitChar;
    LastDigit(val, base);
    ch := ToChar(val % base);
    rest := val / base;
  }

  /** The digits, least significant first. */
  method PutDigits(scratch: array<u8>, u: u32, base: nat, width0: nat) returns (ptr: nat, width: nat)
    requires scratch.Length == 20 && 10 <= base <= 16 && |Text(u, base)| < 20
    modifies scratch
    ensures ptr == 19 - |Text(u, base)| && scratch[ptr..19] == Text(u, base) && scratch[19] == old(scratch[19])
    ensures width == if width0 > |Text(u, base)| then width0 - |Text(u, base)| else 0
  {
    hide Text, DigitChar;
    var val: nat := u;
    ptr, width := 19, width0;
    ghost var text := Text(u, base);
    var more := true;
    while more
      invariant ptr <= 19 && scratch[19] == old(scratch[19]) && 19 - ptr <= |text|
      invariant text == (if more then Text(val, base) else []) + scratch[ptr..19]
      invariant width == if width0 > 19 - ptr then width0 - (19 - ptr) else 0
      decreases if more then 1 else 0, val
    {
      var rest, ch := SplitDigit(val, base);
      ghost var front, tail := if rest == 0 then [] else Text(rest, base), scratch[ptr..19];
      ptr := PutByte(scratch, ptr, ch);
      Regroup(front, ch, tail);
      val := rest;
      if width != 0 { width := width - 1; }
      more := val != 0;
    }
  }

  /** The padding before what the buffer holds from ptr on, if it fits. */
  method PutFill(scratch: array<u8>, ptr0: nat, width0: nat, fill: u8) returns (fits: bool, ptr: nat)
    requires scratch.Length == 20 && ptr0 <= 19
    modifies scratch
    ensures fits <==> width0 <= ptr0
    ensures fits ==> ptr == ptr0 - width0 && scratch[ptr..19] == Fill(fill, width0) + old(scratch[ptr0..19])
    ensures scratch[19] == old(scratch[19])
  {
    hide Fill;
    fits, ptr := true, ptr0;
    var width := width0;
    FillStep(fill, 0);
    while width > 0
      invariant 0 <= width <= width0 && ptr == ptr0 - (width0 - width) && scratch[19] == old(scratch[19])
      invariant scratch[ptr..19] == Fill(fill, width0 - width) + old(scratch[ptr0..19])
    {
      if ptr == 0 { return false, 0; }
      FillStep(fill, width0 - width);
      FillMore(fill, Fill(fill, width0 - width), old(scratch[ptr0..19]));
      width := width - 1;
      ptr := PutByte(scratch, ptr, fill);
    }
  }

  lemma LastDigit(u: nat, base: nat)
    requires 2 <= base <= 16
    ensures Text(u, base) == (if u < base then [] else Text(u / base, base)) + [DigitChar(u % base)]
    ensures u / base == 0 <==> u < base
    ensures u > 0 ==> u / base < u
  {
    Shrinks(u, base);
  }

  lemma Shrinks(u: nat, base: nat)
    requires base >= 2
    ensures (u / base == 0 <==> u < base) && (u > 0 ==> u / base < u)
  {}

  /** %d: a sign, then the magnitude. */
  function PrintedSigned(n: int, width: nat, fill: u8): seq<u8> {
    (if n < 0 then ['-' as int] else []) + Printed(if n < 0 then -n else n, 10, width, fill)
  }

  method ConvertSigned(n: int, width: u8, fill: u8) returns (out: Option<seq<u8>>)
    requires -0x8000_0000 <= n < 0x8000_0000
    requires width > 0 ==> fill == '0' as int || fill == ' ' as int
    ensures out == if width < 20 then Some(PrintedSigned(n, width, fill)) else None
  {
    var v := n;
    var sign := [];
    if v < 0 {
      v := -v;
      sign := ['-' as int];
    }
    out := Convert(v, 10, width, fill);
    if out.Some? { out := Some(sign + out.value); }
  }

  // ----- round trips -----

  lemma {:induction false} NumeralOfText(u: nat, base: nat)
    requires 2 <= base <= 16
    ensures AllDigits(Text(u, base), base)
    ensures Numeral(Text(u, base), base) == u
    decreases u
  {
    hide Text, Numeral, DigitValue, DigitChar, IsDigit;
    LastDigit(u, base);
    DigitCharIs(u % base, base);
    var front := if u < base then [] else Text(u / base, base);
    if u >= base {
      NumeralOfText(u / base, base);
    } else {
      NoNumeral(base);
    }
    NumeralAppend(front, DigitChar(u % base), base);
    DivMod(u, base);
  }

  lemma NoNumeral(base: nat)
    ensures Numeral([], base) == 0
  {}

  lemma DivMod(u: nat, base: nat)
    requires base > 0
    ensures (u / base) * base + u % base == u && (u < base ==> u % base == u)
  {}

  lemma NumeralAppend(front: seq<u8>, c: u8, base: nat)
    requires AllDigits(front, base) && IsDigit(c, base)
    ensures AllDigits(front + [c], base)
    ensures Numeral(front + [c], base) == Numeral(front, base) * base + DigitValue(c).value
  {
    assert (front + [c])[..|front + [c]| - 1] == front;
  }

  lemma DigitCharIs(d: nat, base: nat)
    requires d < base <= 16
    ensures DigitValue(DigitChar(d)) == Some(d) && IsDigit(DigitChar(d), base)
  {}

  lemma {:induction false} LeadingZeros(k: nat, ds: seq<u8>, base: nat)
    requires base >= 2 && AllDigits(ds, base)
    ensures AllDigits(Fill('0' as int, k) + ds, base)
    ensures Numeral(Fill('0' as int, k) + ds, base) == Numeral(ds, base)
    decreases k + |ds|
  {
    var z := Fill('0' as int, k);
    var s := z + ds;
    if ds != [] {
      LeadingZeros(k, ds[..|ds| - 1], base);
      assert s[..|s| - 1] == z + ds[..|ds| - 1];
    } else if k > 0 {
      LeadingZeros(k - 1, [], base);
      assert s[..|s| - 1] == Fill('0' as int, k - 1) + [];
    }
  }

  lemma {:induction false} RunToEnd(s: seq<u8>, i: nat, base: nat)
    requires i <= |s| && forall k :: i <= k < |s| ==> IsDigit(s[k], base)
    ensures DigitRun(s, i, base) == |s|
    decreases |s| - i
  {
    if i < |s| { RunToEnd(s, i + 1, base); }
  }

  lemma {:induction false} SpacesEnd(s: seq<u8>, i: nat, e: nat)
    requires i <= e < |s| && !IsSpace(s[e]) && forall k :: i <= k < e ==> IsSpace(s[k])
    ensures SkipSpaces(s, i) == e
    decreases e - i
  {
    if i < e { SpacesEnd(s, i + 1, e); }
  }

  /** Reading a numeral after spaces and perhaps a minus sign. */
  lemma ParsedNumeral(s: seq<u8>, spaces: nat, neg: bool, base: nat)
    requires base == 10 || base == 16
    requires spaces + (if neg then 1 else 0) < |s| && forall k :: 0 <= k < spaces ==> IsSpace(s[k])
    requires neg ==> s[spaces] == '-' as int
    requires forall k :: spaces + (if neg then 1 else 0) <= k < |s| ==> IsDigit(s[k], base)
    ensures var n := Numeral(s[spaces + (if neg then 1 else 0)..], base);
            n <= ULONG_MAX ==> Parsed(s, base) == (if neg then (TWO32 - n) % TWO32 else n, Some(|s|))
  {
    hide Sign, HexPrefix, DigitRun, Numeral;
    var first := spaces + (if neg then 1 else 0);
    SignIs(s, spaces, neg) by {
      assert IsDigit(s[first], base);
    }
    NotHex(s, first, base);
    RunToEnd(s, first, base);
    assert s[first..|s|] == s[first..];
  }

  lemma SignIs(s: seq<u8>, spaces: nat, neg: bool)
    requires spaces < |s| && forall k :: 0 <= k < spaces ==> IsSpace(s[k])
    requires if neg then s[spaces] == '-' as int else IsDigit(s[spaces], 16)
    ensures Sign(s) == (neg, spaces + (if neg then 1 else 0))
  {
    SpacesEnd(s, 0, spaces);
  }

  lemma NotHex(s: seq<u8>, i: nat, base: nat)
    requires base <= 16 && forall k :: i <= k < |s| ==> IsDigit(s[k], base)
    ensures !HexPrefix(s, i)
  {
    assert i + 1 < |s| ==> IsDigit(s[i + 1], base);
  }

  /** Every 32-bit value printed in base 10 or 16, with or without padding, reads back as itself. */
  lemma PrintThenParse(u: u32, base: nat, width: nat, fill: u8)
    requires base == 10 || base == 16
    requires width > 0 ==> fill == '0' as int || fill == ' ' as int
    ensures var s := Printed(u, base, width, fill); Parsed(s, base) == (u, Some(|s|))
  {
    hide Text, Numeral;
    var t, pad := Text(u, base), width - |Text(u, base)|;
    var s := Printed(u, base, width, fill);
    NumeralOfText(u, base);
    if pad <= 0 {
      assert s == t && s[0..] == t;
      ParsedNumeral(s, 0, false, base);
    } else if fill == ' ' as int {
      assert s[pad..] == t;
      ParsedNumeral(s, pad, false, base);
    } else {
      LeadingZeros(pad, t, base);
      assert s[0..] == s;
      ParsedNumeral(s, 0, false, base);
    }
  }

  /** A signed value reads back modulo 2^32, except that spaces between the sign and the digits of a negative one end
      the reading before it begins. */
  lemma PrintSignedThenParse(n: int, width: nat, fill: u8)
    requires -0x8000_0000 <= n < 0x8000_0000
    requires width > 0 ==> fill == '0' as int || fill == ' ' as int
    ensures var s := PrintedSigned(n, width, fill);
            Parsed(s, 10) == (n % TWO32, Some(|s|)) <==> n >= 0 || fill == '0' as int || width <= |Text(-n, 10)|
  {
    hide Text, Numeral, Parsed;
    var s := PrintedSigned(n, width, fill);
    if n >= 0 {
      assert s == Printed(n, 10, width, fill);
      PrintThenParse(n, 10, width, fill);
    } else if fill == ' ' as int && width > |Text(-n, 10)| {
      SpaceAfterSign(s);
    } else {
      NegativeNumeral(n, width, fill);
    }
  }

  lemma SpaceAfterSign(s: seq<u8>)
    requires |s| > 1 && s[0] == '-' as int && s[1] == ' ' as int
    ensures Parsed(s, 10) == (0, Some(0))
  {
    SpacesEnd(s, 0, 0);
  }

  lemma NegativeNumeral(n: int, width: nat, fill: u8)
    requires -0x8000_0000 <= n < 0 && (width > |Text(-n, 10)| ==> fill == '0' as int)
    ensures var s := PrintedSigned(n, width, fill); Parsed(s, 10) == (n % TWO32, Some(|s|))
  {
    hide Text, Numeral, Parsed;
    var s, t, pad := PrintedSigned(n, width, fill), Text(-n, 10), width - |Text(-n, 10)|;
    NumeralOfText(-n, 10);
    var k := if pad > 0 then pad else 0;
    LeadingZeros(k, t, 10);
    assert s[1..] == Fill('0' as int, k) + t;
    forall i | 1 <= i < |s| ensures IsDigit(s[i], 10) {
      assert s[i] == s[1..][i - 1];
    }
    ParsedNumeral(s, 0, true, 10);
  }
}
