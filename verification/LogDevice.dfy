/** The storage under a log: a block of memory with a position, and the byte layout of the log header. */
module LogDevice {

  type byte = x: int | 0 <= x < 256

  /** One device write: the bytes and where they went. */
  datatype Store = Store(off: nat, bytes: seq<byte>)

  function Overwrite(b: seq<byte>, off: nat, w: seq<byte>): (r: seq<byte>)
    requires off + |w| <= |b|
    ensures |r| == |b|
  {
    b[..off] + w + b[off + |w|..]
  }

  predicate Fits(b: seq<byte>, ws: seq<Store>) {
    forall i :: 0 <= i < |ws| ==> ws[i].off + |ws[i].bytes| <= |b|
  }

  function Apply(b: seq<byte>, ws: seq<Store>): (r: seq<byte>)
    requires Fits(b, ws)
    ensures |r| == |b|
    decreases |ws|
  {
    if ws == [] then b else Apply(Overwrite(b, ws[0].off, ws[0].bytes), ws[1..])
  }

  lemma {:induction false} ApplyAppend(b: seq<byte>, ws: seq<Store>, vs: seq<Store>)
    requires Fits(b, ws) && Fits(b, vs)
    ensures Fits(b, ws + vs) && Apply(b, ws + vs) == Apply(Apply(b, ws), vs)
    decreases |ws|
  {
    if ws == [] {
      assert ws + vs == vs;
    } else {
      assert (ws + vs)[1..] == ws[1..] + vs;
      ApplyAppend(Overwrite(b, ws[0].off, ws[0].bytes), ws[1..], vs);
    }
  }

  /** A write leaves every stretch of bytes it does not touch, and its own stretch holds what it wrote. */
  lemma OverwriteElsewhere(b: seq<byte>, off: nat, w: seq<byte>, lo: nat, hi: nat)
    requires off + |w| <= |b| && lo <= hi <= |b|
    requires hi <= off || off + |w| <= lo
    ensures Overwrite(b, off, w)[lo..hi] == b[lo..hi]
  {
    var r := Overwrite(b, off, w);
    forall k | lo <= k < hi ensures r[k] == b[k] {}
  }

  lemma OverwriteHere(b: seq<byte>, off: nat, w: seq<byte>)
    requires off + |w| <= |b|
    ensures Overwrite(b, off, w)[off..off + |w|] == w
  {}

  // ----- 32-bit words, least significant byte first -----

  const U32: int := 0x1_0000_0000
  const S32_LIMIT: int := 0x8000_0000

  function Enc32(x: int): (s: seq<byte>)
    ensures |s| == 4
  {
    var u := x % U32;
    [u % 256, (u / 256) % 256, (u / 65536) % 256, u / 16777216]
  }

  function DecU32(s: seq<byte>): int
    requires |s| == 4
  {
    var b0: int, b1: int, b2: int, b3: int := s[0], s[1], s[2], s[3];
    b0 + 256 * b1 + 65536 * b2 + 16777216 * b3
  }

  function DecS32(s: seq<byte>): int
    requires |s| == 4
  {
    if DecU32(s) >= S32_LIMIT then DecU32(s) - U32 else DecU32(s)
  }

  lemma Enc32RoundTrip(x: int)
    ensures DecU32(Enc32(x)) == x % U32
    ensures -S32_LIMIT <= x < S32_LIMIT ==> DecS32(Enc32(x)) == x
  {
    var u := x % U32;
    assert u == u % 256 + 256 * (u / 256);
    assert u / 256 == (u / 256) % 256 + 256 * ((u / 256) / 256) && (u / 256) / 256 == u / 65536;
    assert u / 65536 == (u / 65536) % 256 + 256 * ((u / 65536) / 256) && (u / 65536) / 256 == u / 16777216;
  }

  // ----- the memory block -----

  datatype Whence = FromCurrent | FromStart | FromEnd

  /** drivers/memblock.c */
  class MemBlock {
    const data: array<byte>
    var pos: nat
    ghost var stores: seq<Store>  // every write that changed bytes

    ghost predicate Valid()
      reads this
    {
      pos <= data.Length
    }

    constructor (data: array<byte>)
      ensures Valid() && this.data == data && pos == 0 && stores == []
    {
      this.data := data;
      pos := 0;
      stores := [];
    }

    method Reset()
      modifies `pos
      ensures pos == 0
    {
      pos := 0;
    }

    method Seek(offset: int, whence: Whence) returns (off: int)
      requires Valid()
      modifies `pos
      ensures Valid() && off == pos
      ensures var target := offset + (match whence
                                      case FromStart => 0
                                      case FromCurrent => old(pos)
                                      case FromEnd => data.Length);
              pos == if target < 0 then 0 else if target > data.Length then data.Length else target
    {
      off := offset;
      match whence {
        case FromStart =>
        case FromCurrent => off := off + pos;
        case FromEnd => off := off + data.Length;
      }
      if off < 0 { off := 0; }
      if off > data.Length { off := data.Length; }
      pos := off;
    }

    method Read(len: nat) returns (buffer: seq<byte>)
      requires Valid()
      modifies `pos
      ensures Valid()
      ensures var n := if data.Length - old(pos) < len then data.Length - old(pos) else len;
              buffer == data[old(pos)..old(pos) + n] && pos == old(pos) + n
    {
      var n := len;
      if data.Length - pos - len < 0 {
        n := data.Length - pos;
      }
      buffer := [];
      for e := 0 to n
        invariant buffer == data[pos..pos + e]
      {
        buffer := buffer + [data[pos + e]];
      }
      pos := pos + n;
    }

    method Write(buffer: seq<byte>) returns (n: nat)
      requires Valid()
      modifies `pos, `stores, data
      ensures Valid()
      ensures n == if data.Length - old(pos) < |buffer| then data.Length - old(pos) else |buffer|
      ensures data[..] == Overwrite(old(data[..]), old(pos), buffer[..n]) && pos == old(pos) + n
      ensures stores == if n == 0 then old(stores) else old(stores) + [Store(old(pos), buffer[..n])]
    {
      n := |buffer|;
      if data.Length - pos - n < 0 {
        n := data.Length - pos;
      }
      if n == 0 { return; }
      forall e | 0 <= e < n { data[pos + e] := buffer[e]; }
      stores := stores + [Store(pos, buffer[..n])];
      pos := pos + n;
    }
  }
}
