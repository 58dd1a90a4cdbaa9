/** MD5 as RFC 1321 defines it, and the streaming implementation of the kernel. */
module Md5 {
  import opened Bits

  const TWO32: int := 0x1_0000_0000

  type u8 = x: int | 0 <= x < 256
  type u32 = x: int | 0 <= x < 0x1_0000_0000

  // ----- words and bytes -----

  /** Section 2 of RFC 1321: a word is four bytes, the low-order byte first. */
  function Word(b0: u8, b1: u8, b2: u8, b3: u8): u32 {
    var c0: int, c1: int, c2: int, c3: int := b0, b1, b2, b3;
    c0 + 0x100 * c1 + 0x10000 * c2 + 0x1000000 * c3
  }

  function Bytes(w: u32): (s: seq<u8>)
    ensures |s| == 4
  {
    [w % 0x100, (w / 0x100) % 0x100, (w / 0x10000) % 0x100, w / 0x1000000]
  }

  /** How the processor itself stores a word. */
  function NativeBytes(little: bool, w: u32): (s: seq<u8>)
    ensures |s| == 4
  {
    var b := Bytes(w);
    if little then b else [b[3], b[2], b[1], b[0]]
  }

  function NativeWord(little: bool, b: seq<u8>): u32
    requires |b| == 4
  {
    if little then Word(b[0], b[1], b[2], b[3]) else Word(b[3], b[2], b[1], b[0])
  }

  lemma WordOfBytes(w: u32)
    ensures var b := Bytes(w); Word(b[0], b[1], b[2], b[3]) == w
  {
    assert w == w % 0x100 + 0x100 * (w / 0x100);
    assert w / 0x100 == (w / 0x100) % 0x100 + 0x100 * ((w / 0x100) / 0x100) && (w / 0x100) / 0x100 == w / 0x10000;
    assert w / 0x10000 == (w / 0x10000) % 0x100 + 0x100 * ((w / 0x10000) / 0x100);
    assert (w / 0x10000) / 0x100 == w / 0x1000000;
  }

  lemma BytesOfWord(b0: u8, b1: u8, b2: u8, b3: u8)
    ensures Bytes(Word(b0, b1, b2, b3)) == [b0, b1, b2, b3]
  {
    var w: int := Word(b0, b1, b2, b3);
    assert w / 0x1000000 == b3 && w / 0x10000 == b2 + 0x100 * b3 && w / 0x100 == b1 + 0x100 * (b2 + 0x100 * b3);
  }

  /** Reading a stored word back, and the bytes of a word that was assembled from stored ones: on either kind
      of processor byteReverse turns the bytes of the message into its words, and the words of the state into
      the bytes of the digest. */
  lemma NativeRoundTrip(little: bool, w: u32)
    ensures NativeWord(little, NativeBytes(little, w)) == w
  {
    WordOfBytes(w);
  }

  lemma NativeReversed(little: bool, w: u32)
    ensures var b := NativeBytes(little, w); NativeBytes(little, Word(b[0], b[1], b[2], b[3])) == Bytes(w)
  {
    var b := NativeBytes(little, w);
    BytesOfWord(b[0], b[1], b[2], b[3]);
  }

  // ----- RFC 1321 -----

  datatype State = State(a: u32, b: u32, c: u32, d: u32)

  const INIT_STATE := State(0x67452301, 0xefcdab89, 0x98badcfe, 0x10325476)

  /** Section 3.3: low-order bytes first, the words of the initial state are 01 23 45 67, 89 ab cd ef, fe dc ba 98 and
      76 54 32 10. */
  lemma InitBytes()
    ensures Bytes(INIT_STATE.a) == [0x01, 0x23, 0x45, 0x67] && Bytes(INIT_STATE.b) == [0x89, 0xab, 0xcd, 0xef]
    ensures Bytes(INIT_STATE.c) == [0xfe, 0xdc, 0xba, 0x98] && Bytes(INIT_STATE.d) == [0x76, 0x54, 0x32, 0x10]
  {}

  lemma Pow2Word()
    ensures Pow2(32) == TWO32
  {
    assert Pow2(8) == 256;
    Pow2Sum(8, 8);
    Pow2Sum(16, 16);
  }

  /** The circular shift to the left. */
  function Rotl(x: u32, s: nat): u32
    requires s <= 32
  {
    Pow2Word();
    RotateIs(32, x, s);
    (x * Pow2(s)) % TWO32 + x / Pow2(32 - s)
  }

  // Section 3.4: the auxiliary functions, as the tables of what they do in each bit position. F is a conditional: if x
  // then y else z; G is one too: if z then x else y; H is a parity; I is y xor (x or not z).
  datatype Table = FTable | GTable | HTable | ITable

  predicate Entry(t: Table, x: bool, y: bool, z: bool) {
    match t
    case FTable => if x then y else z
    case GTable => if z then x else y
    case HTable => (x != y) != z
    case ITable => y != (x || !z)
  }

  /** The word of n bits with the table's entry for x, y and z in each position. */
  function Tabled(t: Table, n: nat, x: nat, y: nat, z: nat): (r: nat)
    ensures r < Pow2(n)
  {
    if n == 0 then 0
    else BitOf(Entry(t, x % 2 == 1, y % 2 == 1, z % 2 == 1)) + 2 * Tabled(t, n - 1, x / 2, y / 2, z / 2)
  }

  lemma {:induction false} TabledBit(t: Table, n: nat, x: nat, y: nat, z: nat, j: nat)
    requires j < n
    ensures Bit(Tabled(t, n, x, y, z), j) == Entry(t, Bit(x, j), Bit(y, j), Bit(z, j))
  {
    hide Bit;
    HalfOf(Entry(t, x % 2 == 1, y % 2 == 1, z % 2 == 1), Tabled(t, n - 1, x / 2, y / 2, z / 2));
    var i := if j == 0 then 0 else j - 1;
    NextBit(x, i);
    NextBit(y, i);
    NextBit(z, i);
    NextBit(Tabled(t, n, x, y, z), i);
    if j > 0 { TabledBit(t, n - 1, x / 2, y / 2, z / 2, j - 1); }
  }

  function Aux(i: nat, x: u32, y: u32, z: u32): u32 {
    Pow2Word();
    Tabled(if i < 16 then FTable else if i < 32 then GTable else if i < 48 then HTable else ITable, 32, x, y, z)
  }

  /** Which word of the block, and how far to rotate, in operation i + 1. */
  function K(i: nat): (k: nat)
    ensures k < 16
  {
    if i < 16 then i % 16 else if i < 32 then (5 * i + 1) % 16 else if i < 48 then (3 * i + 5) % 16 else (7 * i) % 16
  }

  function S(i: nat): (s: nat)
    ensures s <= 32
  {
    var r := i % 4;
    if i < 16 then (if r == 0 then 7 else if r == 1 then 12 else if r == 2 then 17 else 22)
    else if i < 32 then (if r == 0 then 5 else if r == 1 then 9 else if r == 2 then 14 else 20)
    else if i < 48 then (if r == 0 then 4 else if r == 1 then 11 else if r == 2 then 16 else 23)
    else (if r == 0 then 6 else if r == 1 then 10 else if r == 2 then 15 else 21)
  }

  /** The sine table: element i + 1 is the integer part of 4294967296 times abs(sin(i + 1)). */
  function T(i: nat): u32 {
    match i
    case 0 => 0xd76aa478 case 1 => 0xe8c7b756 case 2 => 0x242070db case 3 => 0xc1bdceee
    case 4 => 0xf57c0faf case 5 => 0x4787c62a case 6 => 0xa8304613 case 7 => 0xfd469501
    case 8 => 0x698098d8 case 9 => 0x8b44f7af case 10 => 0xffff5bb1 case 11 => 0x895cd7be
    case 12 => 0x6b901122 case 13 => 0xfd987193 case 14 => 0xa679438e case 15 => 0x49b40821
    case 16 => 0xf61e2562 case 17 => 0xc040b340 case 18 => 0x265e5a51 case 19 => 0xe9b6c7aa
    case 20 => 0xd62f105d case 21 => 0x02441453 case 22 => 0xd8a1e681 case 23 => 0xe7d3fbc8
    case 24 => 0x21e1cde6 case 25 => 0xc33707d6 case 26 => 0xf4d50d87 case 27 => 0x455a14ed
    case 28 => 0xa9e3e905 case 29 => 0xfcefa3f8 case 30 => 0x676f02d9 case 31 => 0x8d2a4c8a
    case 32 => 0xfffa3942 case 33 => 0x8771f681 case 34 => 0x6d9d6122 case 35 => 0xfde5380c
    case 36 => 0xa4beea44 case 37 => 0x4bdecfa9 case 38 => 0xf6bb4b60 case 39 => 0xbebfbc70
    case 40 => 0x289b7ec6 case 41 => 0xeaa127fa case 42 => 0xd4ef3085 case 43 => 0x04881d05
    case 44 => 0xd9d4d039 case 45 => 0xe6db99e5 case 46 => 0x1fa27cf8 case 47 => 0xc4ac5665
    case 48 => 0xf4292244 case 49 => 0x432aff97 case 50 => 0xab9423a7 case 51 => 0xfc93a039
    case 52 => 0x655b59c3 case 53 => 0x8f0ccc92 case 54 => 0xffeff47d case 55 => 0x85845dd1
    case 56 => 0x6fa87e4f case 57 => 0xfe2ce6e0 case 58 => 0xa3014314 case 59 => 0x4e0811a1
    case 60 => 0xf7537e82 case 61 => 0xbd3af235 case 62 => 0x2ad7d2bb case _ => 0xeb86d391
  }

  /** Operation i + 1 in the notation of section 3.4, a = b + ((a + f(b,c,d) + X[k] + T[i]) <<< s), followed by
      the renaming of the words for the next one. */
  function Operation(s: State, x: seq<u32>, i: nat): State
    requires |x| == 16
  {
    var sum := (s.a + Aux(i, s.b, s.c, s.d) + x[K(i)] + T(i)) % TWO32;
    State(s.d, (s.b + Rotl(sum, S(i))) % TWO32, s.b, s.c)
  }

  function Operations(s: State, x: seq<u32>, n: nat): State
    requires |x| == 16
  {
    if n == 0 then s else Operation(Operations(s, x, n - 1), x, n - 1)
  }

  lemma NoOperations(s: State, x: seq<u32>)
    requires |x| == 16
    ensures Operations(s, x, 0) == s
  {}

  function Compress(s: State, x: seq<u32>): State
    requires |x| == 16
  {
    var r := Operations(s, x, 64);
    State((s.a + r.a) % TWO32, (s.b + r.b) % TWO32, (s.c + r.c) % TWO32, (s.d + r.d) % TWO32)
  }

  function Decode(b: seq<u8>): (x: seq<u32>)
    requires |b| == 64
    ensures |x| == 16
  {
    seq(16, i requires 0 <= i < 16 => Word(b[4 * i], b[4 * i + 1], b[4 * i + 2], b[4 * i + 3]))
  }

  /** The state after all whole 64-byte blocks of b. */
  function Blocks(s: State, b: seq<u8>): State
    decreases |b|
  {
    if |b| < 64 then s else Blocks(Compress(s, Decode(b[..64])), b[64..])
  }

  function Zeros(n: nat): (s: seq<u8>)
    ensures |s| == n
  {
    seq(n, _ => 0)
  }

  /** Sections 3.1 and 3.2: a one bit and zeros up to 56 modulo 64 bytes, then the length in bits modulo 2^64, low
      word first. */
  function Padded(m: seq<u8>): (p: seq<u8>)
    ensures |p| % 64 == 0
  {
    var zeros := (119 - |m| % 64) % 64;
    var bits := 8 * |m|;
    assert (|m| + 1 + zeros + 8) % 64 == 0;
    m + [0x80] + Zeros(zeros) + Bytes(bits % TWO32) + Bytes((bits / TWO32) % TWO32)
  }

  /** The shortest padding there is room for: a one bit, zeros, and the length in bits modulo 2^64, low-order byte
      first. */
  lemma PaddedShortest(m: seq<u8>)
    ensures var p := Padded(m);
            && |p| % 64 == 0 && |m| + 9 <= |p| < |m| + 73
            && p[..|m|] == m && p[|m|] == 0x80 && (forall i :: |m| < i < |p| - 8 ==> p[i] == 0)
            && Spelled(p[|p| - 8..]) == (8 * |m|) % 0x1_0000_0000_0000_0000
  {
    hide Bytes, Spelled;
    var bits, p := 8 * |m|, Padded(m);
    var lo, hi := bits % TWO32, (bits / TWO32) % TWO32;
    assert p[|p| - 8..] == Bytes(lo) + Bytes(hi);
    SpelledWords(lo, hi);
    TwoWords(bits);
  }

  /** The number bytes spell, low-order byte first. */
  function Spelled(b: seq<u8>): nat {
    if b == [] then 0 else b[0] + 0x100 * Spelled(b[1..])
  }

  lemma SpelledWords(lo: u32, hi: u32)
    ensures Spelled(Bytes(lo) + Bytes(hi)) == lo + TWO32 * hi
  {
    SpelledWord(lo, Bytes(hi));
    SpelledWord(hi, []);
    assert Bytes(hi) + [] == Bytes(hi);
  }

  lemma SpelledWord(w: u32, rest: seq<u8>)
    ensures Spelled(Bytes(w) + rest) == w + TWO32 * Spelled(rest)
  {
    hide Bytes;
    var b := Bytes(w);
    var s := b + rest;
    var s1, s2, s3 := s[1..], s[2..], s[3..];
    assert s[0] == b[0] && s1[0] == b[1] && s2[0] == b[2] && s3[0] == b[3];
    assert s1[1..] == s2 && s2[1..] == s3 && s3[1..] == rest;
    assert Spelled(s3) == b[3] + 0x100 * Spelled(rest);
    assert Spelled(s2) == b[2] + 0x100 * Spelled(s3);
    assert Spelled(s1) == b[1] + 0x100 * Spelled(s2);
    assert Spelled(s) == b[0] + 0x100 * Spelled(s1);
    BytesSpell(w);
  }

  lemma BytesSpell(w: u32)
    ensures var b := Bytes(w); var b0: int, b1: int, b2: int, b3: int := b[0], b[1], b[2], b[3];
            b0 + 0x100 * (b1 + 0x100 * (b2 + 0x100 * b3)) == w
  {
    var w1 := w / 0x100;
    var w2 := w1 / 0x100;
    assert w / 0x10000 == w2 && w / 0x1000000 == w2 / 0x100;
  }

  lemma TwoWords(bits: nat)
    ensures bits % TWO32 + TWO32 * ((bits / TWO32) % TWO32) == bits % 0x1_0000_0000_0000_0000
  {
    var q, r := bits / TWO32, bits % TWO32;
    assert bits == q * TWO32 + r && q == (q / TWO32) * TWO32 + q % TWO32;
    assert bits == (q / TWO32) * 0x1_0000_0000_0000_0000 + ((q % TWO32) * TWO32 + r);
  }

  /** Sections 3.3 to 3.5. */
  function Digest(m: seq<u8>): (d: seq<u8>)
    ensures |d| == 16
  {
    var s := Blocks(INIT_STATE, Padded(m));
    Bytes(s.a) + Bytes(s.b) + Bytes(s.c) + Bytes(s.d)
  }

  lemma {:induction false} BlocksAppend(s: State, x: seq<u8>, y: seq<u8>)
    requires |x| % 64 == 0
    ensures Blocks(s, x + y) == Blocks(Blocks(s, x), y)
    decreases |x|
  {
    hide Compress, Decode;
    if |x| == 0 {
      assert x + y == y;
    } else {
      assert (x + y)[..64] == x[..64] && (x + y)[64..] == x[64..] + y;
      BlocksAppend(Compress(s, Decode(x[..64])), x[64..], y);
    }
  }

  // ----- the implementation: MD5Transform -----

  function Add(x: u32, y: u32): u32 { var a: int, b: int := x, y; (a + b) % TWO32 }

  function F1(x: u32, y: u32, z: u32): u32 { Pow2Word(); Xor(32, z, And(32, x, Xor(32, y, z))) }
  function F2(x: u32, y: u32, z: u32): u32 { F1(z, x, y) }
  function F3(x: u32, y: u32, z: u32): u32 { Pow2Word(); Xor(32, Xor(32, x, y), z) }
  function F4(x: u32, y: u32, z: u32): u32 { Pow2Word(); Xor(32, y, Or(32, x, Not(32, z))) }

  /** `w << s | w >> (32 - s)` */
  function Rotate(w: u32, s: nat): u32
    requires s <= 32
  {
    Pow2Word();
    Or(32, Shl(32, w, s), Shr(w, 32 - s))
  }

  /** MD5STEP: w += f + data, then w is rotated, then w += x. */
  function Md5Step(f: u32, w: u32, x: u32, data: u32, s: nat): u32
    requires s <= 32
  {
    Add(Rotate(Add(w, Add(f, data)), s), x)
  }

  function F1to4(i: nat, x: u32, y: u32, z: u32): u32 {
    if i < 16 then F1(x, y, z) else if i < 32 then F2(x, y, z) else if i < 48 then F3(x, y, z) else F4(x, y, z)
  }

  /** The optimised forms of the auxiliary functions compute the same words. */
  lemma AuxIs(i: nat, x: u32, y: u32, z: u32)
    ensures F1to4(i, x, y, z) == Aux(i, x, y, z)
  {
    hide Xor, And, Or, Not, Tabled;
    ChooseIs(32, x, y, z);
    ChooseIs(32, z, x, y);
    SwappedChoice(32, x, y, z);
    ParityIs(32, x, y, z);
    FourthIs(32, x, y, z);
  }

  lemma {:induction false} ChooseIs(n: nat, x: nat, y: nat, z: nat)
    ensures Xor(n, z, And(n, x, Xor(n, y, z))) == Tabled(FTable, n, x, y, z)
  {
    var e := Xor(n, y, z);
    if n > 0 {
      Halves(n, y, z);
      Halves(n, x, e);
      Halves(n, z, And(n, x, e));
      TabledHalves(FTable, n, x, y, z);
      ChooseIs(n - 1, x / 2, y / 2, z / 2);
      hide Xor, And, Tabled;
      SameHalves(Xor(n, z, And(n, x, e)), Tabled(FTable, n, x, y, z));
    }
  }

  lemma {:induction false} SwappedChoice(n: nat, x: nat, y: nat, z: nat)
    ensures Tabled(FTable, n, z, x, y) == Tabled(GTable, n, x, y, z)
  {
    if n > 0 { SwappedChoice(n - 1, x / 2, y / 2, z / 2); }
  }

  lemma {:induction false} ParityIs(n: nat, x: nat, y: nat, z: nat)
    ensures Xor(n, Xor(n, x, y), z) == Tabled(HTable, n, x, y, z)
  {
    var e := Xor(n, x, y);
    if n > 0 {
      Halves(n, x, y);
      Halves(n, e, z);
      TabledHalves(HTable, n, x, y, z);
      ParityIs(n - 1, x / 2, y / 2, z / 2);
      hide Xor, Tabled;
      SameHalves(Xor(n, e, z), Tabled(HTable, n, x, y, z));
    }
  }

  lemma {:induction false} FourthIs(n: nat, x: nat, y: nat, z: nat)
    ensures Xor(n, y, Or(n, x, Not(n, z))) == Tabled(ITable, n, x, y, z)
  {
    var m := Not(n, z);
    if n > 0 {
      Halves(n, z, 0);
      Halves(n, x, m);
      Halves(n, y, Or(n, x, m));
      TabledHalves(ITable, n, x, y, z);
      FourthIs(n - 1, x / 2, y / 2, z / 2);
      hide Xor, Or, Not, Tabled;
      SameHalves(Xor(n, y, Or(n, x, m)), Tabled(ITable, n, x, y, z));
    }
  }

  lemma TabledHalves(t: Table, n: nat, x: nat, y: nat, z: nat)
    requires n > 0
    ensures var r := Tabled(t, n, x, y, z);
            && (r % 2 == 1 <==> Entry(t, x % 2 == 1, y % 2 == 1, z % 2 == 1))
            && r / 2 == Tabled(t, n - 1, x / 2, y / 2, z / 2)
  {
    HalfOf(Entry(t, x % 2 == 1, y % 2 == 1, z % 2 == 1), Tabled(t, n - 1, x / 2, y / 2, z / 2));
  }

  lemma StepIs(f: u32, w: u32, x: u32, xk: u32, t: u32, s: nat)
    requires s <= 32
    ensures Md5Step(f, w, x, Add(xk, t), s) == (x + Rotl((w + f + xk + t) % TWO32, s)) % TWO32
  {
    hide Rotl, Rotate, Add;
    var sum := Add(w, Add(f, Add(xk, t)));
    RotationIs(sum, s);
    SumIs(w, f, xk, t);
    AddIs(Rotl(sum, s), x);
  }

  lemma RotationIs(w: u32, s: nat)
    requires s <= 32
    ensures Rotate(w, s) == Rotl(w, s)
  {
    Pow2Word();
    RotateIs(32, w, s);
  }

  lemma AddIs(x: u32, y: u32)
    ensures Add(x, y) == (y + x) % TWO32
  {}

  lemma SumIs(w: u32, f: u32, x: u32, t: u32)
    ensures Add(w, Add(f, Add(x, t))) == (w + f + x + t) % TWO32
  {
    var p, q := Add(x, t), Add(f, Add(x, t));
    assert x + t == ((x + t) / TWO32) * TWO32 + p;
    assert f + p == ((f + p) / TWO32) * TWO32 + q;
    SameRest(w + q, w + f + x + t, (x + t) / TWO32 + (f + p) / TWO32);
  }

  lemma SameRest(v: int, w: int, k: int)
    requires w == v + k * TWO32
    ensures w % TWO32 == v % TWO32
  {}

  /** The word an implementation step computes in operation i + 1. */
  function CodeStep(i: nat, input: seq<u32>, w: u32, x: u32, y: u32, z: u32): u32
    requires |input| == 16
  {
    Md5Step(F1to4(i, x, y, z), w, x, Add(input[K(i)], T(i)), S(i))
  }

  lemma OperationIs(s: State, input: seq<u32>, i: nat)
    requires |input| == 16
    ensures Operation(s, input, i) == State(s.d, CodeStep(i, input, s.a, s.b, s.c, s.d), s.b, s.c)
  {
    hide T, K, S, Aux, F1to4, Rotl, Md5Step, Add;
    AuxIs(i, s.b, s.c, s.d);
    StepIs(F1to4(i, s.b, s.c, s.d), s.a, s.b, input[K(i)], T(i), S(i));
  }

  /** Four implementation steps, after which every word has its own name again. */
  lemma FourOps(s: State, input: seq<u32>, i: nat)
    requires |input| == 16
    ensures var r := Operations(s, input, i);
            var a := CodeStep(i, input, r.a, r.b, r.c, r.d);
            var d := CodeStep(i + 1, input, r.d, a, r.b, r.c);
            var c := CodeStep(i + 2, input, r.c, d, a, r.b);
            var b := CodeStep(i + 3, input, r.b, c, d, a);
            Operations(s, input, i + 4) == State(a, b, c, d)
  {
    hide CodeStep, Operation;
    var r := Operations(s, input, i);
    OperationIs(r, input, i);
    var r1 := Operations(s, input, i + 1);
    OperationIs(r1, input, i + 1);
    var r2 := Operations(s, input, i + 2);
    OperationIs(r2, input, i + 2);
    var r3 := Operations(s, input, i + 3);
    OperationIs(r3, input, i + 3);
  }

  method Round1(ghost s: State, a0: u32, b0: u32, c0: u32, d0: u32, input: seq<u32>)
    returns (a: u32, b: u32, c: u32, d: u32)
    requires |input| == 16 && Operations(s, input, 0) == State(a0, b0, c0, d0)
    ensures Operations(s, input, 16) == State(a, b, c, d)
  {
    hide Md5Step, F1, Operations, Add;
    a, b, c, d := a0, b0, c0, d0;
    a := Md5Step(F1(b, c, d), a, b, Add(input[0], 0xd76aa478), 7);
    d := Md5Step(F1(a, b, c), d, a, Add(input[1], 0xe8c7b756), 12);
    c := Md5Step(F1(d, a, b), c, d, Add(input[2], 0x242070db), 17);
    b := Md5Step(F1(c, d, a), b, c, Add(input[3], 0xc1bdceee), 22);
    FourOps(s, input, 0);
    a := Md5Step(F1(b, c, d), a, b, Add(input[4], 0xf57c0faf), 7);
    d := Md5Step(F1(a, b, c), d, a, Add(input[5], 0x4787c62a), 12);
    c := Md5Step(F1(d, a, b), c, d, Add(input[6], 0xa8304613), 17);
    b := Md5Step(F1(c, d, a), b, c, Add(input[7], 0xfd469501), 22);
    FourOps(s, input, 4);
    a := Md5Step(F1(b, c, d), a, b, Add(input[8], 0x698098d8), 7);
    d := Md5Step(F1(a, b, c), d, a, Add(input[9], 0x8b44f7af), 12);
    c := Md5Step(F1(d, a, b), c, d, Add(input[10], 0xffff5bb1), 17);
    b := Md5Step(F1(c, d, a), b, c, Add(input[11], 0x895cd7be), 22);
    FourOps(s, input, 8);
    a := Md5Step(F1(b, c, d), a, b, Add(input[12], 0x6b901122), 7);
    d := Md5Step(F1(a, b, c), d, a, Add(input[13], 0xfd987193), 12);
    c := Md5Step(F1(d, a, b), c, d, Add(input[14], 0xa679438e), 17);
    b := Md5Step(F1(c, d, a), b, c, Add(input[15], 0x49b40821), 22);
    FourOps(s, input, 12);
  }

  method Round2(ghost s: State, a0: u32, b0: u32, c0: u32, d0: u32, input: seq<u32>)
    returns (a: u32, b: u32, c: u32, d: u32)
    requires |input| == 16 && Operations(s, input, 16) == State(a0, b0, c0, d0)
    ensures Operations(s, input, 32) == State(a, b, c, d)
  {
    hide Md5Step, F2, Operations, Add;
    a, b, c, d := a0, b0, c0, d0;
    a := Md5Step(F2(b, c, d), a, b, Add(input[1], 0xf61e2562), 5);
    d := Md5Step(F2(a, b, c), d, a, Add(input[6], 0xc040b340), 9);
    c := Md5Step(F2(d, a, b), c, d, Add(input[11], 0x265e5a51), 14);
    b := Md5Step(F2(c, d, a), b, c, Add(input[0], 0xe9b6c7aa), 20);
    FourOps(s, input, 16);
    a := Md5Step(F2(b, c, d), a, b, Add(input[5], 0xd62f105d), 5);
    d := Md5Step(F2(a, b, c), d, a, Add(input[10], 0x02441453), 9);
    c := Md5Step(F2(d, a, b), c, d, Add(input[15], 0xd8a1e681), 14);
    b := Md5Step(F2(c, d, a), b, c, Add(input[4], 0xe7d3fbc8), 20);
    FourOps(s, input, 20);
    a := Md5Step(F2(b, c, d), a, b, Add(input[9], 0x21e1cde6), 5);
    d := Md5Step(F2(a, b, c), d, a, Add(input[14], 0xc33707d6), 9);
    c := Md5Step(F2(d, a, b), c, d, Add(input[3], 0xf4d50d87), 14);
    b := Md5Step(F2(c, d, a), b, c, Add(input[8], 0x455a14ed), 20);
    FourOps(s, input, 24);
    a := Md5Step(F2(b, c, d), a, b, Add(input[13], 0xa9e3e905), 5);
    d := Md5Step(F2(a, b, c), d, a, Add(input[2], 0xfcefa3f8), 9);
    c := Md5Step(F2(d, a, b), c, d, Add(input[7], 0x676f02d9), 14);
    b := Md5Step(F2(c, d, a), b, c, Add(input[12], 0x8d2a4c8a), 20);
    FourOps(s, input, 28);
  }

  method Round3(ghost s: State, a0: u32, b0: u32, c0: u32, d0: u32, input: seq<u32>)
    returns (a: u32, b: u32, c: u32, d: u32)
    requires |input| == 16 && Operations(s, input, 32) == State(a0, b0, c0, d0)
    ensures Operations(s, input, 48) == State(a, b, c, d)
  {
    hide Md5Step, F3, Operations, Add;
    a, b, c, d := a0, b0, c0, d0;
    a := Md5Step(F3(b, c, d), a, b, Add(input[5], 0xfffa3942), 4);
    d := Md5Step(F3(a, b, c), d, a, Add(input[8], 0x8771f681), 11);
    c := Md5Step(F3(d, a, b), c, d, Add(input[11], 0x6d9d6122), 16);
    b := Md5Step(F3(c, d, a), b, c, Add(input[14], 0xfde5380c), 23);
    FourOps(s, input, 32);
    a := Md5Step(F3(b, c, d), a, b, Add(input[1], 0xa4beea44), 4);
    d := Md5Step(F3(a, b, c), d, a, Add(input[4], 0x4bdecfa9), 11);
    c := Md5Step(F3(d, a, b), c, d, Add(input[7], 0xf6bb4b60), 16);
    b := Md5Step(F3(c, d, a), b, c, Add(input[10], 0xbebfbc70), 23);
    FourOps(s, input, 36);
    a := Md5Step(F3(b, c, d), a, b, Add(input[13], 0x289b7ec6), 4);
    d := Md5Step(F3(a, b, c), d, a, Add(input[0], 0xeaa127fa), 11);
    c := Md5Step(F3(d, a, b), c, d, Add(input[3], 0xd4ef3085), 16);
    b := Md5Step(F3(c, d, a), b, c, Add(input[6], 0x04881d05), 23);
    FourOps(s, input, 40);
    a := Md5Step(F3(b, c, d), a, b, Add(input[9], 0xd9d4d039), 4);
    d := Md5Step(F3(a, b, c), d, a, Add(input[12], 0xe6db99e5), 11);
    c := Md5Step(F3(d, a, b), c, d, Add(input[15], 0x1fa27cf8), 16);
    b := Md5Step(F3(c, d, a), b, c, Add(input[2], 0xc4ac5665), 23);
    FourOps(s, input, 44);
  }

  method Round4(ghost s: State, a0: u32, b0: u32, c0: u32, d0: u32, input: seq<u32>)
    returns (a: u32, b: u32, c: u32, d: u32)
    requires |input| == 16 && Operations(s, input, 48) == State(a0, b0, c0, d0)
    ensures Operations(s, input, 64) == State(a, b, c, d)
  {
    hide Md5Step, F4, Operations, Add;
    a, b, c, d := a0, b0, c0, d0;
    a := Md5Step(F4(b, c, d), a, b, Add(input[0], 0xf4292244), 6);
    d := Md5Step(F4(a, b, c), d, a, Add(input[7], 0x432aff97), 10);
    c := Md5Step(F4(d, a, b), c, d, Add(input[14], 0xab9423a7), 15);
    b := Md5Step(F4(c, d, a), b, c, Add(input[5], 0xfc93a039), 21);
    FourOps(s, input, 48);
    a := Md5Step(F4(b, c, d), a, b, Add(input[12], 0x655b59c3), 6);
    d := Md5Step(F4(a, b, c), d, a, Add(input[3], 0x8f0ccc92), 10);
    c := Md5Step(F4(d, a, b), c, d, Add(input[10], 0xffeff47d), 15);
    b := Md5Step(F4(c, d, a), b, c, Add(input[1], 0x85845dd1), 21);
    FourOps(s, input, 52);
    a := Md5Step(F4(b, c, d), a, b, Add(input[8], 0x6fa87e4f), 6);
    d := Md5Step(F4(a, b, c), d, a, Add(input[15], 0xfe2ce6e0), 10);
    c := Md5Step(F4(d, a, b), c, d, Add(input[6], 0xa3014314), 15);
    b := Md5Step(F4(c, d, a), b, c, Add(input[13], 0x4e0811a1), 21);
    FourOps(s, input, 56);
    a := Md5Step(F4(b, c, d), a, b, Add(input[4], 0xf7537e82), 6);
    d := Md5Step(F4(a, b, c), d, a, Add(input[11], 0xbd3af235), 10);
    c := Md5Step(F4(d, a, b), c, d, Add(input[2], 0x2ad7d2bb), 15);
    b := Md5Step(F4(c, d, a), b, c, Add(input[9], 0xeb86d391), 21);
    FourOps(s, input, 60);
  }

  // ----- the implementation: streaming -----

  /** A length of whole blocks, and the whole blocks of a length. */
  predicate Aligned(n: nat) { n % 64 == 0 }

  function Whole(n: nat): (w: nat)
    ensures Aligned(w) && w <= n < w + 64
  {
    n - n % 64
  }

  lemma WholeIs(n: nat, w: nat)
    requires Aligned(w) && w <= n < w + 64
    ensures Whole(n) == w
  {}

  lemma ZeroAligned(n: nat)
    requires n == 0
    ensures Aligned(n)
  {}

  lemma CountsZero(lo: u32, hi: u32, n: nat)
    requires lo == hi == n == 0
    ensures Counts(lo, hi, n)
  {}

  lemma NothingYet(lo: u32, hi: u32, n: nat)
    requires lo == hi == n == 0
    ensures Whole(n) == 0 && Counts(lo, hi, n)
  {
    hide Whole, Aligned;
    WholeIs(n, n) by { ZeroAligned(n); }
    CountsZero(lo, hi, n);
  }

  lemma NoBlocks(s: State, b: seq<u8>)
    requires |b| < 64
    ensures Blocks(s, b) == s
  {}

  /** The next whole block of the message. */
  lemma NextBlock(m: seq<u8>, n: nat)
    requires Aligned(n) && n + 64 <= |m|
    ensures Compress(Blocks(INIT_STATE, m[..n]), Decode(m[n..n + 64])) == Blocks(INIT_STATE, m[..n + 64])
    ensures Aligned(n + 64)
  {
    hide Compress, Decode;
    var s := Blocks(INIT_STATE, m[..n]);
    assert m[..n + 64] == m[..n] + m[n..n + 64];
    BlocksAppend(INIT_STATE, m[..n], m[n..n + 64]);
    assert m[n..n + 64][..64] == m[n..n + 64] && m[n..n + 64][64..] == [];
    assert Blocks(s, m[n..n + 64]) == Blocks(Compress(s, Decode(m[n..n + 64])), []);
  }

  /** The 64-bit count of bits, kept in two words. */
  predicate Counts(lo: u32, hi: u32, n: nat) {
    lo == (8 * n) % TWO32 && hi == (8 * n / TWO32) % TWO32
  }

  lemma CountMore(lo: u32, hi: u32, n: nat, len: nat)
    requires Counts(lo, hi, n) && len < TWO32
    ensures var lo' := (lo + (len * 8) % TWO32) % TWO32;
            var carry := if lo' < lo then 1 else 0;
            Counts(lo', ((hi + carry) % TWO32 + len / 0x2000_0000) % TWO32, n + len)
  {
    hide Counts;
    var q, r, low := 8 * n / TWO32, len / 0x2000_0000, (len * 8) % TWO32;
    assert 8 * n == q * TWO32 + lo && hi == q % TWO32 by { CountWords(lo, hi, n); }
    assert 8 * len == r * TWO32 + low;
    var sum := lo + low;
    var carry := if sum < TWO32 then 0 else 1;
    assert sum % TWO32 == sum - carry * TWO32;
    assert 8 * (n + len) == (q + r + carry) * TWO32 + sum % TWO32;
    CountIs(n + len, q + r + carry, sum % TWO32);
    SumMod(q, carry, r);
  }

  lemma CountWords(lo: u32, hi: u32, n: nat)
    requires Counts(lo, hi, n)
    ensures 8 * n == (8 * n / TWO32) * TWO32 + lo && hi == (8 * n / TWO32) % TWO32
  {}

  lemma CountIs(n: nat, q: int, lo: u32)
    requires 8 * n == q * TWO32 + lo
    ensures Counts(lo, q % TWO32, n)
  {
    Split(8 * n, q, lo);
  }

  lemma Split(v: int, q: int, r: int)
    requires 0 <= r < TWO32
    ensures v == q * TWO32 + r <==> v / TWO32 == q && v % TWO32 == r
  {}

  lemma SumMod(q: int, c: int, r: int)
    ensures ((q % TWO32 + c) % TWO32 + r) % TWO32 == (q + r + c) % TWO32
  {
    var k, m := q / TWO32, (q % TWO32 + c) / TWO32;
    assert q == k * TWO32 + q % TWO32;
    assert q % TWO32 + c == m * TWO32 + (q % TWO32 + c) % TWO32;
    assert q + r + c == (k + m) * TWO32 + ((q % TWO32 + c) % TWO32 + r);
  }

  /** How many bytes of an incomplete block the low word of the count stands for. */
  lemma CountBytes(lo: u32, hi: u32, n: nat)
    requires Counts(lo, hi, n)
    ensures (lo / 8) % 64 == n - Whole(n)
  {
    hide Counts;
    CountWords(lo, hi, n);
    LowBytes(lo, n, 8 * n / TWO32);
    WholeRest(n);
  }

  lemma LowBytes(lo: u32, n: nat, q: int)
    requires 8 * n == q * TWO32 + lo
    ensures (lo / 8) % 64 == n % 64
  {
    assert lo == 8 * (n - q * 0x2000_0000);
    assert lo / 8 == n - q * 0x2000_0000;
    assert n == lo / 8 + 64 * (q * 0x80_0000);
  }

  lemma WholeRest(n: nat)
    ensures n - Whole(n) == n % 64
  {}

  /** The padding of a message whose incomplete block leaves room for the length, and of one whose does not. */
  lemma PaddedIs(m: seq<u8>, zeros: nat, lo: u32, hi: u32)
    requires Counts(lo, hi, |m|) && zeros == (119 - |m| % 64) % 64
    ensures Padded(m) == m + [0x80] + Zeros(zeros) + Bytes(lo) + Bytes(hi)
  {}

  lemma ZeroCount(len: nat, n: nat, zeros: nat)
    requires Aligned(n) && n <= len < n + 64 && zeros < 64 && (len - n + zeros == 55 || len - n + zeros == 119)
    ensures zeros == (119 - len % 64) % 64
  {
    assert len % 64 == len - n;
  }

  lemma PaddedOnce(m: seq<u8>, n: nat, lo: u32, hi: u32)
    requires Aligned(n) && n <= |m| < n + 56 && Counts(lo, hi, |m|)
    ensures Padded(m) == m[..n] + (m[n..] + [0x80] + Zeros(55 - (|m| - n)) + Bytes(lo) + Bytes(hi))
  {
    hide Bytes, Counts, Padded, Aligned;
    ZeroCount(|m|, n, 55 - (|m| - n));
    PaddedIs(m, 55 - (|m| - n), lo, hi);
    assert m == m[..n] + m[n..];
  }

  lemma PaddedTwice(m: seq<u8>, n: nat, lo: u32, hi: u32)
    requires Aligned(n) && n + 56 <= |m| < n + 64 && Counts(lo, hi, |m|)
    ensures Padded(m) == m[..n] + ((m[n..] + [0x80] + Zeros(63 - (|m| - n))) + (Zeros(56) + Bytes(lo) + Bytes(hi)))
  {
    hide Bytes, Counts, Padded, Aligned;
    ZeroCount(|m|, n, 63 - (|m| - n) + 56);
    PaddedIs(m, 63 - (|m| - n) + 56, lo, hi);
    assert m == m[..n] + m[n..];
    assert Zeros(63 - (|m| - n) + 56) == Zeros(63 - (|m| - n)) + Zeros(56);
  }

  /** The blocks of the padding, one after the other. */
  lemma OneMoreBlock(x: seq<u8>, block: seq<u8>)
    requires |x| % 64 == 0 && |block| == 64
    ensures Blocks(INIT_STATE, x + block) == Compress(Blocks(INIT_STATE, x), Decode(block))
  {
    hide Compress, Decode;
    var s := Blocks(INIT_STATE, x);
    BlocksAppend(INIT_STATE, x, block);
    assert block[..64] == block && block[64..] == [];
    assert Blocks(s, block) == Blocks(Compress(s, Decode(block)), []);
  }

  lemma TwoMoreBlocks(x: seq<u8>, b1: seq<u8>, b2: seq<u8>)
    requires |x| % 64 == 0 && |b1| == 64 && |b2| == 64
    ensures Blocks(INIT_STATE, x + (b1 + b2)) == Compress(Compress(Blocks(INIT_STATE, x), Decode(b1)), Decode(b2))
  {
    hide Compress, Decode, Blocks;
    assert x + (b1 + b2) == (x + b1) + b2;
    OneMoreBlock(x, b1);
    OneMoreBlock(x + b1, b2);
  }

  /** The words of a block whose last eight bytes are two words. */
  lemma DecodeTail(p: seq<u8>, lo: u32, hi: u32)
    requires |p| == 56
    ensures var x := Decode(p + Bytes(lo) + Bytes(hi));
            && x[14] == lo && x[15] == hi
            && forall i :: 0 <= i < 14 ==> x[i] == Word(p[4 * i], p[4 * i + 1], p[4 * i + 2], p[4 * i + 3])
  {
    hide Word, Bytes;
    WordOfBytes(lo);
    WordOfBytes(hi);
  }

  class DigestCtx {
    const little: bool        // how the processor stores words
    const input: array<u8>    // in[64]
    var buf: State
    var bits0: u32
    var bits1: u32
    ghost var msg: seq<u8>    // everything digested so far

    /** The state covers the whole blocks of the message, the buffer starts with the rest of it, and the
        counter is its length in bits modulo 2^64. */
    ghost predicate Valid()
      reads this, input
    {
      var n := Whole(|msg|);
      && input.Length == 64
      && buf == Blocks(INIT_STATE, msg[..n])
      && input[..|msg| - n] == msg[n..]
      && Counts(bits0, bits1, |msg|)
    }

    constructor (little: bool)
      ensures input.Length == 64 && fresh(input) && this.little == little
    {
      this.little := little;
      input := new u8[64](_ => 0);
      buf, bits0, bits1, msg := INIT_STATE, 0, 0, [];
    }

    method DigestInit()
      requires input.Length == 64
      modifies this
      ensures Valid() && msg == []
    {
      hide Blocks, Counts, Whole;
      buf := INIT_STATE;
      bits0, bits1 := 0, 0;
      msg := [];
      NothingYet(bits0, bits1, |msg|);
      NoBlocks(buf, msg[..0]);
    }

    /** The word stored at index i of the buffer, as the processor reads it. */
    function WordAt(i: nat): u32
      requires 4 * i + 4 <= input.Length
      reads input
    {
      NativeWord(little, input[4 * i..4 * i + 4])
    }

    method StoreWord(i: nat, w: u32)
      requires 4 * i + 4 <= input.Length
      modifies input
      ensures WordAt(i) == w
      ensures forall j :: 0 <= j < input.Length && !(4 * i <= j < 4 * i + 4) ==> input[j] == old(input[j])
    {
      var b := NativeBytes(little, w);
      input[4 * i], input[4 * i + 1], input[4 * i + 2], input[4 * i + 3] := b[0], b[1], b[2], b[3];
      assert input[4 * i..4 * i + 4] == b;
      NativeRoundTrip(little, w);
    }

    /** byteReverse over the first words of the buffer: each becomes the word its bytes spell in the message. */
    method ByteReverse(longs: nat)
      requires input.Length == 64 && 0 < longs <= 16
      modifies input
      ensures forall i :: 0 <= i < longs ==>
                WordAt(i) == old(Word(input[4 * i], input[4 * i + 1], input[4 * i + 2], input[4 * i + 3]))
      ensures forall j :: 4 * longs <= j < 64 ==> input[j] == old(input[j])
    {
      var n := 0;
      while n < longs
        invariant n <= longs
        invariant forall i :: 0 <= i < n ==>
                    WordAt(i) == old(Word(input[4 * i], input[4 * i + 1], input[4 * i + 2], input[4 * i + 3]))
        invariant forall j :: 4 * n <= j < 64 ==> input[j] == old(input[j])
      {
        hide Word, NativeWord;
        var t := Word(input[4 * n], input[4 * n + 1], input[4 * n + 2], input[4 * n + 3]);
        ghost var before := input[..];
        StoreWord(n, t);
        forall i | 0 <= i < n
          ensures WordAt(i) == old(Word(input[4 * i], input[4 * i + 1], input[4 * i + 2], input[4 * i + 3]))
        {
          assert input[4 * i..4 * i + 4] == before[4 * i..4 * i + 4];
        }
        n := n + 1;
      }
    }

    /** The buffer as the sixteen words MD5Transform reads. */
    function InputWords(): (x: seq<u32>)
      requires input.Length == 64
      reads input
      ensures |x| == 16 && forall i :: 0 <= i < 16 ==> x[i] == WordAt(i)
    {
      seq(16, i requires 0 <= i < 16 reads input => WordAt(i))
    }

    method MD5Transform()
      requires input.Length == 64
      modifies `buf
      ensures buf == Compress(old(buf), InputWords())
    {
      hide Operations, WordAt;
      var x := InputWords();
      ghost var s := buf;
      NoOperations(s, x);
      var a, b, c, d := buf.a, buf.b, buf.c, buf.d;
      a, b, c, d := Round1(s, a, b, c, d, x);
      a, b, c, d := Round2(s, a, b, c, d, x);
      a, b, c, d := Round3(s, a, b, c, d, x);
      a, b, c, d := Round4(s, a, b, c, d, x);
      buf := State(Add(buf.a, a), Add(buf.b, b), Add(buf.c, c), Add(buf.d, d));
    }

    /** One block: the buffer holds it byte by byte. */
    method Block(ghost block: seq<u8>)
      requires input.Length == 64 && input[..] == block
      modifies `buf, input
      ensures buf == Compress(old(buf), Decode(block))
    {
      hide Compress, Word, WordAt;
      ByteReverse(16);
      assert InputWords() == Decode(block);
      MD5Transform();
    }

    /** memmove into the buffer. */
    method Copy(at: nat, data: seq<u8>)
      requires at + |data| <= input.Length
      modifies input
      ensures input[..] == old(input[..])[..at] + data + old(input[..])[at + |data|..]
    {
      forall i | 0 <= i < |data| { input[at + i] := data[i]; }
    }

    /** Adding a length to the counter. */
    method CountLength(len: nat, ghost n: nat)
      requires len < TWO32 && Counts(bits0, bits1, n)
      modifies `bits0, `bits1
      ensures Counts(bits0, bits1, n + len)
    {
      hide Counts;
      CountMore(bits0, bits1, n, len);
      var t := bits0;
      bits0 := (t + (len * 8) % TWO32) % TWO32;
      if bits0 < t {
        bits1 := (bits1 + 1) % TWO32;
      }
      bits1 := (bits1 + len / 0x2000_0000) % TWO32;
    }

    /** Digests the whole blocks of the data from `off` on and keeps the rest; n bytes of the message m are
        digested already. */
    method Rest(data: seq<u8>, off0: nat, ghost m: seq<u8>, ghost n0: nat)
      requires input.Length == 64 && off0 <= |data| && Aligned(n0) && n0 + |data| - off0 == |m|
      requires m[n0..] == data[off0..] && buf == Blocks(INIT_STATE, m[..n0])
      modifies `buf, input
      ensures var n := Whole(|m|); buf == Blocks(INIT_STATE, m[..n]) && input[..|m| - n] == m[n..]
    {
      hide Compress, Decode, Blocks, Aligned, Whole;
      var off, len := off0, |data| - off0;
      ghost var n: nat := n0;
      while len >= 64
        invariant off <= |data| && len == |data| - off && Aligned(n) && n + len == |m|
        invariant m[n..] == data[off..] && buf == Blocks(INIT_STATE, m[..n])
      {
        Copy(0, data[off..off + 64]);
        BlockAt(m, n, data, off);
        Block(m[n..n + 64]);
        NextBlock(m, n);
        off, len := off + 64, len - 64;
        n := n + 64;
      }
      Copy(0, data[off..]);
      WholeIs(|m|, n);
    }

    lemma BlockAt(m: seq<u8>, n: nat, data: seq<u8>, off: nat)
      requires n + 64 <= |m| && off + 64 <= |data| && m[n..] == data[off..]
      ensures m[n..n + 64] == data[off..off + 64] && m[n + 64..] == data[off + 64..]
    {
      assert m[n..n + 64] == m[n..][..64] && data[off..off + 64] == data[off..][..64];
      assert m[n + 64..] == m[n..][64..] && data[off + 64..] == data[off..][64..];
    }

    /** Completes the block the buffer starts with and digests it. */
    method TopUp(t: nat, data: seq<u8>, ghost m: seq<u8>, ghost n: nat)
      requires input.Length == 64 && 0 < t < 64 && 64 - t <= |data| && Aligned(n) && n <= |m|
      requires m[n..] == input[..t] + data && buf == Blocks(INIT_STATE, m[..n])
      modifies `buf, input
      ensures n + 64 <= |m| && m[n + 64..] == data[64 - t..] && buf == Blocks(INIT_STATE, m[..n + 64])
      ensures Aligned(n + 64)
    {
      hide Compress, Decode, Blocks, Aligned, Whole;
      FirstBlock(m, n, input[..t], data, 64 - t);
      Copy(t, data[..64 - t]);
      Block(m[n..n + 64]);
      NextBlock(m, n);
    }

    /** DigestUpdate */
    method DigestUpdate(data: seq<u8>)
      requires Valid() && |data| < TWO32
      modifies this, input
      ensures Valid() && msg == old(msg) + data
    {
      hide Compress, Decode, Blocks, Counts, Aligned, Whole;
      var t := bits0;
      CountBytes(bits0, bits1, |msg|);
      CountLength(|data|, |msg|);
      t := (t / 8) % 64;
      ghost var m := msg + data;
      ghost var n := |msg| - t;
      assert m[..n] == msg[..n];
      assert m[n..] == msg[n..] + data;
      msg := m;
      if t != 0 {
        var room := 64 - t;
        if |data| < room {
          Copy(t, data);
          WholeIs(|m|, n);
          assert input[..t + |data|] == m[n..];
          return;
        }
        TopUp(t, data, m, n);
        Rest(data, room, m, n + 64);
      } else {
        assert m[n..] == data[0..];
        Rest(data, 0, m, n);
      }
    }

    lemma FirstBlock(m: seq<u8>, n: nat, rest: seq<u8>, data: seq<u8>, room: nat)
      requires n <= |m| && m[n..] == rest + data && |rest| + room == 64 && room <= |data|
      ensures n + 64 <= |m| && m[n..n + 64] == rest + data[..room] && m[n + 64..] == data[room..]
    {
      assert m[n..n + 64] == m[n..][..64];
      assert m[n + 64..] == m[n..][64..];
    }

    /** The last block: 56 bytes in the buffer, followed by the length. */
    method LastBlock(ghost p: seq<u8>)
      requires input.Length == 64 && |p| == 56 && input[..56] == p
      modifies `buf, input
      ensures buf == Compress(old(buf), Decode(p + Bytes(bits0) + Bytes(bits1)))
    {
      hide Compress, Word, NativeWord, Bytes, Decode;
      ByteReverse(14);
      ghost var w := seq(14, i requires 0 <= i < 14 reads input => WordAt(i));
      ghost var b := input[..];
      StoreWord(14, bits0);
      ghost var low := input[56..60];
      StoreWord(15, bits1);
      assert input[4 * 14..4 * 14 + 4] == low;
      forall i | 0 <= i < 14 ensures WordAt(i) == w[i] {
        assert input[4 * i..4 * i + 4] == b[4 * i..4 * i + 4];
      }
      DecodeTail(p, bits0, bits1);
      assert WordAt(14) == bits0;
      assert InputWords() == Decode(p + Bytes(bits0) + Bytes(bits1));
      MD5Transform();
    }

    /** Nothing is left of the message. */
    predicate Cleared()
      reads this, input
    {
      buf == State(0, 0, 0, 0) && bits0 == bits1 == 0 && forall i :: 0 <= i < input.Length ==> input[i] == 0
    }

    method Clear()
      modifies `buf, `bits0, `bits1, input
      ensures Cleared()
    {
      buf, bits0, bits1 := State(0, 0, 0, 0), 0, 0;
      forall i | 0 <= i < input.Length { input[i] := 0; }
    }

    /** DigestFinal: the digest of everything digested, by RFC 1321, whatever the byte order of the processor. */
    method DigestFinal() returns (digest: seq<u8>)
      requires Valid()
      modifies this, input
      ensures digest == Digest(old(msg))
      ensures Cleared()
    {
      hide Compress, Decode, Blocks, Counts, Padded, Bytes, NativeBytes, Word, Whole, Cleared;
      ghost var m := msg;
      CountBytes(bits0, bits1, |m|);
      var count := (bits0 / 8) % 64;
      ghost var n := |m| - count;
      ghost var r := m[n..];
      Copy(count, [0x80]);
      var rest := 63 - count;
      if rest < 8 {
        Copy(count + 1, Zeros(rest));
        assert input[..] == r + [0x80] + Zeros(rest);
        Block(r + [0x80] + Zeros(rest));
        Copy(0, Zeros(56));
        PaddedTwice(m, n, bits0, bits1);
        TwoMoreBlocks(m[..n], r + [0x80] + Zeros(rest), Zeros(56) + Bytes(bits0) + Bytes(bits1));
        LastBlock(Zeros(56));
      } else {
        Copy(count + 1, Zeros(rest - 8));
        assert input[..56] == r + [0x80] + Zeros(rest - 8);
        PaddedOnce(m, n, bits0, bits1);
        OneMoreBlock(m[..n], r + [0x80] + Zeros(rest - 8) + Bytes(bits0) + Bytes(bits1));
        LastBlock(r + [0x80] + Zeros(rest - 8));
      }
      var b := StateBytes();
      digest := b;
      Clear();
    }

    /** byteReverse over the four words of the state, and the copy of their bytes. */
    method StateBytes() returns (d: seq<u8>)
      ensures d == Bytes(buf.a) + Bytes(buf.b) + Bytes(buf.c) + Bytes(buf.d)
    {
      hide Bytes, NativeBytes, Word;
      var words := [buf.a, buf.b, buf.c, buf.d];
      d := [];
      for i := 0 to 4
        invariant d == (if i > 0 then Bytes(buf.a) else []) + (if i > 1 then Bytes(buf.b) else [])
                     + (if i > 2 then Bytes(buf.c) else []) + (if i > 3 then Bytes(buf.d) else [])
      {
        var b := NativeBytes(little, words[i]);
        var t := Word(b[0], b[1], b[2], b[3]);
        NativeReversed(little, words[i]);
        d := d + NativeBytes(little, t);
      }
    }
  }

  function Flatten(chunks: seq<seq<u8>>): seq<u8> {
    if chunks == [] then [] else Flatten(chunks[..|chunks| - 1]) + chunks[|chunks| - 1]
  }

  /** A message digested in any pieces has the digest of the whole. */
  method DigestPieces(little: bool, chunks: seq<seq<u8>>) returns (digest: seq<u8>)
    requires forall c <- chunks :: |c| < TWO32
    ensures digest == Digest(Flatten(chunks))
  {
    hide Digest, Counts, Blocks, Whole, Decode, Bytes;
    var ctx := new DigestCtx(little);
    ctx.DigestInit();
    for i := 0 to |chunks|
      invariant ctx.Valid() && ctx.msg == Flatten(chunks[..i]) && fresh(ctx) && fresh(ctx.input)
    {
      assert chunks[..i + 1][..i] == chunks[..i];
      ctx.DigestUpdate(chunks[i]);
    }
    assert chunks[..|chunks|] == chunks;
    digest := ctx.DigestFinal();
  }
}
