/** The persistent log: a ring of records behind a header with two control blocks, the last committed one
    named by a word written after it. */
module LogStream {
  import opened LogDevice
  import opened Options

  const MAGIC1: int := 0xF9E8D7C6
  const MAGIC2: int := 0x1A2B3C4D

  // struct logStreamHdr: magic1, info {elemSize, maxNoElem, lock, cHdr}, ctrl[2] {tail, elem, head, d}, magic2
  const HDR_SIZE: int := 56
  const OFF_ELEM_SIZE: int := 4
  const OFF_MAX_ELEM: int := 8
  const OFF_LOCK: int := 12
  const OFF_CHDR: int := 16
  const OFF_MAGIC2: int := 52

  function OffCtrl(h: int): int { 20 + 16 * h }

  datatype Ctrl = Ctrl(tail: int, elem: int, head: int, d: int)

  const ZERO_CTRL := Ctrl(0, 0, 0, 0)

  predicate S32(x: int) { -S32_LIMIT <= x < S32_LIMIT }

  function EncCtrl(c: Ctrl): (s: seq<byte>)
    ensures |s| == 16
  {
    Enc32(c.tail) + Enc32(c.elem) + Enc32(c.head) + Enc32(c.d)
  }

  function Word(b: seq<byte>, off: int): int
    requires 0 <= off && off + 4 <= |b|
  {
    DecS32(b[off..off + 4])
  }

  function CtrlAt(b: seq<byte>, h: int): Ctrl
    requires |b| >= HDR_SIZE && 0 <= h <= 1
  {
    var o := OffCtrl(h);
    Ctrl(Word(b, o), Word(b, o + 4), Word(b, o + 8), Word(b, o + 12))
  }

  /** The header as first written. */
  function FreshHeader(elemSize: int, n: int): (s: seq<byte>)
    ensures |s| == HDR_SIZE
  {
    Enc32(MAGIC1) + Enc32(elemSize) + Enc32(n) + Enc32(0) + Enc32(0)
    + EncCtrl(ZERO_CTRL) + EncCtrl(ZERO_CTRL) + Enc32(MAGIC2)
  }

  predicate Matches(b: seq<byte>, elemSize: int, n: int)
    requires |b| >= HDR_SIZE
  {
    && DecU32(b[0..4]) == MAGIC1 && DecU32(b[OFF_MAGIC2..OFF_MAGIC2 + 4]) == MAGIC2
    && Word(b, OFF_MAX_ELEM) == n && Word(b, OFF_ELEM_SIZE) == elemSize
  }

  /** How many records a device of the given size holds. */
  function Capacity(size: nat, elemSize: nat): (n: nat)
    requires elemSize > 0
  {
    if size > HDR_SIZE then (size - HDR_SIZE) / elemSize else 0
  }

  // ----- the ring -----

  /** The ring index i places after head. */
  function Index(head: int, i: int, n: int): int { if head + i < n then head + i else head + i - n }

  predicate ValidCtrl(c: Ctrl, n: int) {
    && 0 <= c.d <= c.elem <= n
    && 0 <= c.head < n
    && c.tail == Index(c.head, c.elem, n)
  }

  function RecordOff(k: int, elemSize: nat): int { HDR_SIZE + k * elemSize }

  lemma RecordRegions(j: int, k: int, elemSize: nat, n: int)
    requires 0 <= j < n && 0 <= k < n
    ensures HDR_SIZE <= RecordOff(k, elemSize) && RecordOff(k, elemSize) + elemSize <= HDR_SIZE + n * elemSize
    ensures j < k ==> RecordOff(j, elemSize) + elemSize <= RecordOff(k, elemSize)
  {
    assert 0 <= k * elemSize;
    assert (k + 1) * elemSize <= n * elemSize;
    if j < k { assert (j + 1) * elemSize <= k * elemSize; }
  }

  function RecordAt(b: seq<byte>, k: int, elemSize: nat): (r: seq<byte>)
    requires 0 <= k && RecordOff(k, elemSize) + elemSize <= |b|
  {
    assert 0 <= k * elemSize;
    b[RecordOff(k, elemSize)..RecordOff(k, elemSize) + elemSize]
  }

  /** The device is large enough for the ring. */
  predicate Room(b: seq<byte>, elemSize: nat, n: nat) {
    n > 0 && elemSize > 0 && HDR_SIZE + n * elemSize <= |b|
  }

  lemma CapacityFits(b: seq<byte>, elemSize: nat)
    requires elemSize > 0 && Capacity(|b|, elemSize) > 0
    ensures |b| > HDR_SIZE && Capacity(|b|, elemSize) < |b| && Room(b, elemSize, Capacity(|b|, elemSize))
  {
    var n := (|b| - HDR_SIZE) / elemSize;
    assert n * elemSize <= |b| - HDR_SIZE;
    assert n * 1 <= n * elemSize;
  }

  ghost function Records(b: seq<byte>, c: Ctrl, elemSize: nat, n: nat): (r: seq<seq<byte>>)
    requires Room(b, elemSize, n) && ValidCtrl(c, n)
    ensures |r| == c.elem
  {
    seq(c.elem, i requires 0 <= i < c.elem =>
      (RecordRegions(0, Index(c.head, i, n), elemSize, n); RecordAt(b, Index(c.head, i, n), elemSize)))
  }

  // ----- what is written, and what a device is worth -----

  function CommitStores(cHdr: int, c: Ctrl): seq<Store>
    requires 0 <= cHdr <= 1
  {
    [Store(OffCtrl(cHdr), EncCtrl(c)), Store(OFF_CHDR, Enc32(cHdr))]
  }

  /** The device holds a log whose committed control block is c. */
  ghost predicate Holds(b: seq<byte>, elemSize: nat, n: nat, c: Ctrl) {
    && Room(b, elemSize, n) && S32(n) && S32(elemSize) && ValidCtrl(c, n)
    && Matches(b, elemSize, n)
    && 0 <= Word(b, OFF_CHDR) <= 1
    && CtrlAt(b, Word(b, OFF_CHDR)) == c
  }

  /** What a log is worth to its users: the stored records and the read cursor. */
  datatype View = View(records: seq<seq<byte>>, d: int)

  ghost function ViewOf(b: seq<byte>, elemSize: nat, n: nat, c: Ctrl): View
    requires Room(b, elemSize, n) && ValidCtrl(c, n)
  {
    View(Records(b, c, elemSize, n), c.d)
  }

  /** What LogStreamInit rebuilds from the device: the log of the committed control block. */
  ghost predicate Recovers(b: seq<byte>, elemSize: nat, n: nat, v: View) {
    exists c: Ctrl :: Holds(b, elemSize, n, c) && ViewOf(b, elemSize, n, c) == v
  }

  lemma RecoversOnce(b: seq<byte>, elemSize: nat, n: nat, v: View, w: View)
    requires Recovers(b, elemSize, n, v) && Recovers(b, elemSize, n, w)
    ensures v == w
  {}

  lemma CtrlRoundTrip(b: seq<byte>, h: int, c: Ctrl)
    requires |b| >= HDR_SIZE && 0 <= h <= 1
    requires b[OffCtrl(h)..OffCtrl(h) + 16] == EncCtrl(c)
    requires S32(c.tail) && S32(c.elem) && S32(c.head) && S32(c.d)
    ensures CtrlAt(b, h) == c
  {
    hide Enc32, DecU32, DecS32;
    var o, e := OffCtrl(h), EncCtrl(c);
    assert e[0..4] == Enc32(c.tail) && e[4..8] == Enc32(c.elem) && e[8..12] == Enc32(c.head) && e[12..16] == Enc32(c.d);
    SubSlice(b, o, 0);
    SubSlice(b, o, 4);
    SubSlice(b, o, 8);
    SubSlice(b, o, 12);
    Enc32RoundTrip(c.tail);
    Enc32RoundTrip(c.elem);
    Enc32RoundTrip(c.head);
    Enc32RoundTrip(c.d);
  }

  lemma SubSlice(b: seq<byte>, o: nat, i: nat)
    requires o + 16 <= |b| && i + 4 <= 16
    ensures b[o..o + 16][i..i + 4] == b[o + i..o + i + 4]
  {
    var x, y := b[o..o + 16][i..i + 4], b[o + i..o + i + 4];
    assert x[0] == y[0] && x[1] == y[1] && x[2] == y[2] && x[3] == y[3];
  }

  /** Header words and records outside a write keep their values. */
  lemma WordElsewhere(b: seq<byte>, off: nat, w: seq<byte>, at: nat)
    requires off + |w| <= |b| && at + 4 <= |b| && (at + 4 <= off || off + |w| <= at)
    ensures Word(Overwrite(b, off, w), at) == Word(b, at)
    ensures DecU32(Overwrite(b, off, w)[at..at + 4]) == DecU32(b[at..at + 4])
  {
    OverwriteElsewhere(b, off, w, at, at + 4);
  }

  lemma CtrlElsewhere(b: seq<byte>, off: nat, w: seq<byte>, h: int)
    requires |b| >= HDR_SIZE && 0 <= h <= 1
    requires off + |w| <= |b| && (OffCtrl(h) + 16 <= off || off + |w| <= OffCtrl(h))
    ensures CtrlAt(Overwrite(b, off, w), h) == CtrlAt(b, h)
  {
    var o := OffCtrl(h);
    WordElsewhere(b, off, w, o);
    WordElsewhere(b, off, w, o + 4);
    WordElsewhere(b, off, w, o + 8);
    WordElsewhere(b, off, w, o + 12);
  }

  /** A write inside the header leaves all records alone. */
  lemma HeaderWriteKeepsRecords(b: seq<byte>, off: nat, w: seq<byte>, c: Ctrl, elemSize: nat, n: nat)
    requires Room(b, elemSize, n) && ValidCtrl(c, n) && off + |w| <= HDR_SIZE
    ensures Room(Overwrite(b, off, w), elemSize, n)
    ensures Records(Overwrite(b, off, w), c, elemSize, n) == Records(b, c, elemSize, n)
  {
    var b' := Overwrite(b, off, w);
    forall i | 0 <= i < c.elem ensures Records(b', c, elemSize, n)[i] == Records(b, c, elemSize, n)[i] {
      var k := Index(c.head, i, n);
      RecordRegions(0, k, elemSize, n);
      OverwriteElsewhere(b, off, w, RecordOff(k, elemSize), RecordOff(k, elemSize) + elemSize);
    }
  }

  /** A write to the slot at the tail of a log that is not full leaves the stored records alone, and is the
      record one longer log ends with. */
  lemma TailWriteKeepsRecords(b: seq<byte>, r: seq<byte>, c: Ctrl, elemSize: nat, n: nat)
    requires Room(b, elemSize, n) && ValidCtrl(c, n) && c.elem < n && |r| == elemSize
    ensures 0 <= c.tail < n && HDR_SIZE <= RecordOff(c.tail, elemSize) && RecordOff(c.tail, elemSize) + elemSize <= |b|
    ensures var b' := Overwrite(b, RecordOff(c.tail, elemSize), r);
            var c' := Ctrl(Index(c.tail, 1, n), c.elem + 1, c.head, c.d);
            && Room(b', elemSize, n) && ValidCtrl(c', n)
            && Records(b', c, elemSize, n) == Records(b, c, elemSize, n)
            && Records(b', c', elemSize, n) == Records(b, c, elemSize, n) + [r]
  {
    RecordRegions(0, c.tail, elemSize, n);
    var off := RecordOff(c.tail, elemSize);
    var b' := Overwrite(b, off, r);
    var c' := Ctrl(Index(c.tail, 1, n), c.elem + 1, c.head, c.d);
    forall i | 0 <= i < c.elem ensures Records(b', c, elemSize, n)[i] == Records(b, c, elemSize, n)[i] {
      var k := Index(c.head, i, n);
      RecordRegions(k, c.tail, elemSize, n);
      RecordRegions(c.tail, k, elemSize, n);
      OverwriteElsewhere(b, off, r, RecordOff(k, elemSize), RecordOff(k, elemSize) + elemSize);
    }
    OverwriteHere(b, off, r);
    assert Records(b', c', elemSize, n)[c.elem] == r;
    assert forall i :: 0 <= i < c.elem ==> Records(b', c', elemSize, n)[i] == Records(b', c, elemSize, n)[i];
  }

  // ----- commit and recovery -----

  /** The device after the first write of a commit, the control block, and after the second, the word that
      names it. */
  function BlockWritten(b: seq<byte>, cHdr: int, c: Ctrl): (r: seq<byte>)
    requires |b| >= HDR_SIZE && 0 <= cHdr <= 1
    ensures |r| == |b|
  {
    Overwrite(b, OffCtrl(cHdr), EncCtrl(c))
  }

  function WordWritten(b: seq<byte>, cHdr: int): (r: seq<byte>)
    requires |b| >= HDR_SIZE
    ensures |r| == |b|
  {
    Overwrite(b, OFF_CHDR, Enc32(cHdr))
  }

  /** After the first write the device holds the old log, unless the block written is the committed one:
      then, which happens only for the first commit after a fresh header, it holds the new one. */
  lemma CommitBlock(b: seq<byte>, elemSize: nat, n: nat, c: Ctrl, cHdr: int, c': Ctrl)
    requires |b| >= HDR_SIZE && Holds(b, elemSize, n, c) && 0 <= cHdr <= 1 && ValidCtrl(c', n)
    ensures Holds(BlockWritten(b, cHdr, c'), elemSize, n, if Word(b, OFF_CHDR) == cHdr then c' else c)
    ensures CtrlAt(BlockWritten(b, cHdr, c'), cHdr) == c'
  {
    hide Enc32, DecU32, DecS32, EncCtrl, CtrlAt;
    var w := EncCtrl(c');
    HeaderKept(b, OffCtrl(cHdr), w, elemSize, n);
    WordElsewhere(b, OffCtrl(cHdr), w, OFF_CHDR);
    OverwriteHere(b, OffCtrl(cHdr), w);
    CtrlRoundTrip(Overwrite(b, OffCtrl(cHdr), w), cHdr, c');
    CtrlElsewhere(b, OffCtrl(cHdr), w, 1 - cHdr);
  }

  lemma CommitWord(b: seq<byte>, elemSize: nat, n: nat, c: Ctrl, cHdr: int, c': Ctrl)
    requires |b| >= HDR_SIZE && Holds(b, elemSize, n, c) && 0 <= cHdr <= 1 && CtrlAt(b, cHdr) == c' && ValidCtrl(c', n)
    ensures Holds(WordWritten(b, cHdr), elemSize, n, c') && Word(WordWritten(b, cHdr), OFF_CHDR) == cHdr
  {
    hide DecU32, DecS32, CtrlAt;
    var w := Enc32(cHdr);
    HeaderKept(b, OFF_CHDR, w, elemSize, n);
    OverwriteHere(b, OFF_CHDR, w);
    Enc32RoundTrip(cHdr);
    CtrlElsewhere(b, OFF_CHDR, w, cHdr);
  }

  /** A commit, stopped after any prefix of its writes, leaves the old log or the new one, and the new one
      when it is complete. */
  lemma CommitSteps(b: seq<byte>, elemSize: nat, n: nat, c: Ctrl, cHdr: int, c': Ctrl)
    requires Holds(b, elemSize, n, c) && 0 <= cHdr <= 1 && ValidCtrl(c', n)
    ensures Fits(b, CommitStores(cHdr, c'))
    ensures Holds(Apply(b, CommitStores(cHdr, c')), elemSize, n, c')
    ensures Word(Apply(b, CommitStores(cHdr, c')), OFF_CHDR) == cHdr
    ensures Records(Apply(b, CommitStores(cHdr, c')), c', elemSize, n) == Records(b, c', elemSize, n)
    ensures forall k :: 0 <= k <= 2 ==>
              || Recovers(Apply(b, CommitStores(cHdr, c')[..k]), elemSize, n, ViewOf(b, elemSize, n, c))
              || Recovers(Apply(b, CommitStores(cHdr, c')[..k]), elemSize, n, ViewOf(b, elemSize, n, c'))
  {
    hide Enc32, EncCtrl, Word, CtrlAt, Matches, Records;
    var w1, w2 := EncCtrl(c'), Enc32(cHdr);
    var b1 := Overwrite(b, OffCtrl(cHdr), w1);
    var b2 := Overwrite(b1, OFF_CHDR, w2);
    CommitBlock(b, elemSize, n, c, cHdr, c');
    CommitWord(b1, elemSize, n, if Word(b, OFF_CHDR) == cHdr then c' else c, cHdr, c');
    HeaderWriteKeepsRecords(b, OffCtrl(cHdr), w1, c, elemSize, n);
    HeaderWriteKeepsRecords(b, OffCtrl(cHdr), w1, c', elemSize, n);
    HeaderWriteKeepsRecords(b1, OFF_CHDR, w2, c', elemSize, n);
    var ws := CommitStores(cHdr, c');
    assert ws[1..] == [Store(OFF_CHDR, w2)] && ws[1..][1..] == [] && ws[..0] == [] && ws[..2] == ws;
    assert ws[..1] == [Store(OffCtrl(cHdr), w1)] && ws[..1][1..] == [];
    assert Apply(b, ws[..1]) == b1;
    assert Apply(b, ws) == Apply(b1, ws[1..]) == Apply(b2, []);
  }

  /** Writes to a control block or to the commit word leave the rest of the header as it is. */
  lemma HeaderKept(b: seq<byte>, off: nat, w: seq<byte>, elemSize: nat, n: nat)
    requires Room(b, elemSize, n) && OFF_CHDR <= off && off + |w| <= OFF_MAGIC2
    ensures Matches(Overwrite(b, off, w), elemSize, n) == Matches(b, elemSize, n)
    ensures Word(Overwrite(b, off, w), OFF_LOCK) == Word(b, OFF_LOCK)
  {
    WordElsewhere(b, off, w, 0);
    WordElsewhere(b, off, w, OFF_ELEM_SIZE);
    WordElsewhere(b, off, w, OFF_MAX_ELEM);
    WordElsewhere(b, off, w, OFF_LOCK);
    WordElsewhere(b, off, w, OFF_MAGIC2);
  }

  /** The three writes of an insertion: the record in the slot at the tail, then the commit. Into a log that
      is not full they may stop anywhere without tearing it; in a full log the first of them already
      replaces the oldest record. */
  lemma InsertSteps(b: seq<byte>, elemSize: nat, n: nat, c: Ctrl, cHdr: int, r: seq<byte>)
    requires Holds(b, elemSize, n, c) && 0 <= cHdr <= 1 && |r| == elemSize && c.elem < n
    ensures 0 <= c.tail < n && 0 <= RecordOff(c.tail, elemSize)
    ensures var c' := Ctrl(Index(c.tail, 1, n), c.elem + 1, c.head, c.d);
            var ws := [Store(RecordOff(c.tail, elemSize), r)] + CommitStores(cHdr, c');
            && ValidCtrl(c', n) && Fits(b, ws) && Holds(Apply(b, ws), elemSize, n, c')
            && Records(Apply(b, ws), c', elemSize, n) == Records(b, c, elemSize, n) + [r]
            && forall k :: 0 <= k <= 3 ==>
                 || Recovers(Apply(b, ws[..k]), elemSize, n, ViewOf(b, elemSize, n, c))
                 || Recovers(Apply(b, ws[..k]), elemSize, n, View(Records(b, c, elemSize, n) + [r], c.d))
  {
    hide Enc32, EncCtrl, Word, CtrlAt, Matches, Records, RecordOff;
    TailWriteKeepsRecords(b, r, c, elemSize, n);
    var off := RecordOff(c.tail, elemSize);
    var c' := Ctrl(Index(c.tail, 1, n), c.elem + 1, c.head, c.d);
    var b1 := Overwrite(b, off, r);
    RecordWriteKeepsHeader(b, off, r, elemSize, n, c);
    CommitSteps(b1, elemSize, n, c, cHdr, c');
    var vs := CommitStores(cHdr, c');
    var ws := [Store(off, r)] + vs;
    forall k | 0 <= k <= 3
      ensures || Recovers(Apply(b, ws[..k]), elemSize, n, ViewOf(b, elemSize, n, c))
              || Recovers(Apply(b, ws[..k]), elemSize, n, View(Records(b, c, elemSize, n) + [r], c.d))
    {
      StoresPrefix(b, Store(off, r), vs, k);
    }
    StoresPrefix(b, Store(off, r), vs, 3);
    assert ws[..3] == ws && vs[..2] == vs;
  }

  lemma StoresPrefix(b: seq<byte>, w: Store, vs: seq<Store>, k: nat)
    requires w.off + |w.bytes| <= |b| && Fits(b, vs) && k <= 1 + |vs|
    ensures Fits(b, [w] + vs)
    ensures Apply(b, ([w] + vs)[..k]) == if k == 0 then b else Apply(Overwrite(b, w.off, w.bytes), vs[..k - 1])
  {
    hide Overwrite;
    if k > 0 {
      assert ([w] + vs)[..k] == [w] + vs[..k - 1];
      assert ([w] + vs[..k - 1])[1..] == vs[..k - 1];
    }
  }

  /** Writes behind the header leave the committed log's header as it is. */
  lemma RecordWriteKeepsHeader(b: seq<byte>, off: nat, w: seq<byte>, elemSize: nat, n: nat, c: Ctrl)
    requires Holds(b, elemSize, n, c) && HDR_SIZE <= off && off + |w| <= |b|
    ensures Holds(Overwrite(b, off, w), elemSize, n, c)
    ensures Word(Overwrite(b, off, w), OFF_CHDR) == Word(b, OFF_CHDR)
  {
    hide DecU32, DecS32;
    WordElsewhere(b, off, w, 0);
    WordElsewhere(b, off, w, OFF_ELEM_SIZE);
    WordElsewhere(b, off, w, OFF_MAX_ELEM);
    WordElsewhere(b, off, w, OFF_LOCK);
    WordElsewhere(b, off, w, OFF_CHDR);
    WordElsewhere(b, off, w, OFF_MAGIC2);
    CtrlElsewhere(b, off, w, 0);
    CtrlElsewhere(b, off, w, 1);
  }

  /** In a full log the record write lands on the oldest record: until the commit completes the device is
      worth the old log with its oldest record replaced by the newest. */
  lemma FullInsertSteps(b: seq<byte>, elemSize: nat, n: nat, c: Ctrl, cHdr: int, r: seq<byte>)
    requires Holds(b, elemSize, n, c) && 0 <= cHdr <= 1 && |r| == elemSize && c.elem == n
    ensures c.tail == c.head && 0 <= RecordOff(c.tail, elemSize)
    ensures var c' := Ctrl(Index(c.tail, 1, n), n, Index(c.head, 1, n), if c.d > 0 then c.d - 1 else c.d);
            var ws := [Store(RecordOff(c.tail, elemSize), r)] + CommitStores(cHdr, c');
            var old_ := Records(b, c, elemSize, n);
            && ValidCtrl(c', n) && Fits(b, ws) && Holds(Apply(b, ws), elemSize, n, c')
            && Records(Apply(b, ws), c', elemSize, n) == old_[1..] + [r]
            && Recovers(Apply(b, ws[..1]), elemSize, n, View(old_[0 := r], c.d))
            && forall k :: 1 <= k <= 3 ==>
                 || Recovers(Apply(b, ws[..k]), elemSize, n, View(old_[0 := r], c.d))
                 || Recovers(Apply(b, ws[..k]), elemSize, n, View(old_[1..] + [r], c'.d))
  {
    hide Enc32, EncCtrl, Word, CtrlAt, Matches, Records, RecordOff;
    var c' := Ctrl(Index(c.tail, 1, n), n, Index(c.head, 1, n), if c.d > 0 then c.d - 1 else c.d);
    var old_ := Records(b, c, elemSize, n);
    RecordRegions(0, c.tail, elemSize, n);
    var off := RecordOff(c.tail, elemSize);
    var b1 := Overwrite(b, off, r);
    RecordWriteKeepsHeader(b, off, r, elemSize, n, c);
    OldestOverwritten(b, r, c, elemSize, n);
    CommitSteps(b1, elemSize, n, c, cHdr, c');
    var vs := CommitStores(cHdr, c');
    var ws := [Store(off, r)] + vs;
    forall k | 1 <= k <= 3
      ensures || Recovers(Apply(b, ws[..k]), elemSize, n, View(old_[0 := r], c.d))
              || Recovers(Apply(b, ws[..k]), elemSize, n, View(old_[1..] + [r], c'.d))
    {
      StoresPrefix(b, Store(off, r), vs, k);
    }
    StoresPrefix(b, Store(off, r), vs, 1);
    StoresPrefix(b, Store(off, r), vs, 3);
    assert ws[..3] == ws && vs[..2] == vs && vs[..0] == [];
    assert ViewOf(b1, elemSize, n, c) == View(old_[0 := r], c.d);
  }

  lemma OldestOverwritten(b: seq<byte>, r: seq<byte>, c: Ctrl, elemSize: nat, n: nat)
    requires Room(b, elemSize, n) && ValidCtrl(c, n) && c.elem == n && |r| == elemSize
    requires 0 <= RecordOff(c.tail, elemSize) && RecordOff(c.tail, elemSize) + elemSize <= |b|
    ensures c.tail == c.head
    ensures var b' := Overwrite(b, RecordOff(c.tail, elemSize), r);
            var c' := Ctrl(Index(c.tail, 1, n), n, Index(c.head, 1, n), if c.d > 0 then c.d - 1 else c.d);
            && ValidCtrl(c', n)
            && Records(b', c, elemSize, n) == Records(b, c, elemSize, n)[0 := r]
            && Records(b', c', elemSize, n) == Records(b, c, elemSize, n)[1..] + [r]
  {
    var off := RecordOff(c.tail, elemSize);
    var b' := Overwrite(b, off, r);
    var c' := Ctrl(Index(c.tail, 1, n), n, Index(c.head, 1, n), if c.d > 0 then c.d - 1 else c.d);
    OverwriteHere(b, off, r);
    forall i | 1 <= i < n ensures Records(b', c, elemSize, n)[i] == Records(b, c, elemSize, n)[i] {
      var k := Index(c.head, i, n);
      RecordRegions(k, c.tail, elemSize, n);
      RecordRegions(c.tail, k, elemSize, n);
      OverwriteElsewhere(b, off, r, RecordOff(k, elemSize), RecordOff(k, elemSize) + elemSize);
    }
    assert Records(b', c, elemSize, n)[0] == r;
    assert forall i :: 0 <= i < n - 1 ==> Index(c'.head, i, n) == Index(c.head, i + 1, n);
    assert Index(c'.head, n - 1, n) == c.head;
  }

  lemma PrefixWord(b: seq<byte>, hdr: seq<byte>, o: nat)
    requires |hdr| <= |b| && hdr == b[0..|hdr|] && o + 4 <= |hdr|
    ensures hdr[o..o + 4] == b[o..o + 4]
  {}

  lemma PrefixCtrl(b: seq<byte>, hdr: seq<byte>, h: int)
    requires HDR_SIZE <= |hdr| <= |b| && hdr == b[0..|hdr|] && 0 <= h <= 1
    ensures CtrlAt(hdr, h) == CtrlAt(b, h)
  {
    hide DecU32, DecS32;
    PrefixWord(b, hdr, OffCtrl(h));
    PrefixWord(b, hdr, OffCtrl(h) + 4);
    PrefixWord(b, hdr, OffCtrl(h) + 8);
    PrefixWord(b, hdr, OffCtrl(h) + 12);
  }

  /** The header read at once is the header on the device. */
  lemma HeaderBytes(b: seq<byte>, hdr: seq<byte>, elemSize: nat, n: nat)
    requires |b| >= HDR_SIZE && hdr == b[0..HDR_SIZE]
    ensures Matches(hdr, elemSize, n) == Matches(b, elemSize, n)
    ensures Word(hdr, OFF_CHDR) == Word(b, OFF_CHDR) && Word(hdr, OFF_LOCK) == Word(b, OFF_LOCK)
    ensures CtrlAt(hdr, 0) == CtrlAt(b, 0) && CtrlAt(hdr, 1) == CtrlAt(b, 1)
  {
    hide DecU32, DecS32;
    PrefixWord(b, hdr, 0);
    PrefixWord(b, hdr, OFF_ELEM_SIZE);
    PrefixWord(b, hdr, OFF_MAX_ELEM);
    PrefixWord(b, hdr, OFF_LOCK);
    PrefixWord(b, hdr, OFF_CHDR);
    PrefixWord(b, hdr, OFF_MAGIC2);
    PrefixCtrl(b, hdr, 0);
    PrefixCtrl(b, hdr, 1);
  }

  /** A fresh header makes the device an empty log. */
  lemma FreshHolds(b: seq<byte>, elemSize: nat, n: nat)
    requires Room(b, elemSize, n) && S32(n) && S32(elemSize)
    ensures Holds(Overwrite(b, 0, FreshHeader(elemSize, n)), elemSize, n, ZERO_CTRL)
  {
    hide Enc32, DecU32, DecS32;
    var h := FreshHeader(elemSize, n);
    var b' := Overwrite(b, 0, h);
    assert b'[0..|h|] == h;
    FreshWords(elemSize, n);
    HeaderBytes(b', h, elemSize, n);
    assert ValidCtrl(ZERO_CTRL, n);
  }

  lemma FreshWords(elemSize: nat, n: nat)
    requires S32(n) && S32(elemSize)
    ensures Matches(FreshHeader(elemSize, n), elemSize, n)
    ensures Word(FreshHeader(elemSize, n), OFF_LOCK) == 0 && Word(FreshHeader(elemSize, n), OFF_CHDR) == 0
    ensures CtrlAt(FreshHeader(elemSize, n), 0) == ZERO_CTRL
  {
    hide Enc32, DecU32, DecS32;
    var h, z := FreshHeader(elemSize, n), EncCtrl(ZERO_CTRL);
    assert h[0..4] == Enc32(MAGIC1) && h[4..8] == Enc32(elemSize) && h[8..12] == Enc32(n);
    assert h[12..16] == Enc32(0) && h[16..20] == Enc32(0) && h[20..36] == z && h[52..56] == Enc32(MAGIC2);
    Enc32RoundTrip(MAGIC1);
    Enc32RoundTrip(MAGIC2);
    Enc32RoundTrip(elemSize);
    Enc32RoundTrip(n);
    Enc32RoundTrip(0);
    CtrlRoundTrip(h, 0, ZERO_CTRL);
  }

  // ----- the words of the header themselves -----

  /** The word whose lowest byte is at off. */
  function Unsigned(b: seq<byte>, off: nat): int
    requires off + 4 <= |b|
  {
    var b0: int, b1: int, b2: int, b3: int := b[off], b[off + 1], b[off + 2], b[off + 3];
    b0 + 0x100 * b1 + 0x1_0000 * b2 + 0x100_0000 * b3
  }

  function Signed(b: seq<byte>, off: nat): int
    requires off + 4 <= |b|
  {
    if Unsigned(b, off) < 0x8000_0000 then Unsigned(b, off) else Unsigned(b, off) - 0x1_0000_0000
  }

  lemma WordIs(b: seq<byte>, off: nat)
    requires off + 4 <= |b|
    ensures Word(b, off) == Signed(b, off) && DecU32(b[off..off + 4]) == Unsigned(b, off)
  {}

  /** A header matches when the four words at 0, 4, 8 and 52 do. */
  lemma MatchesExactly(b: seq<byte>, elemSize: nat, n: nat)
    requires |b| >= 56 && elemSize < 0x8000_0000 && n < 0x8000_0000
    ensures Matches(b, elemSize, n) <==>
              && Unsigned(b, 0) == 0xF9E8D7C6 && Unsigned(b, 4) == elemSize
              && Unsigned(b, 8) == n && Unsigned(b, 52) == 0x1A2B3C4D
  {
    hide Word, DecU32;
    WordIs(b, 0);
    WordIs(b, 4);
    WordIs(b, 8);
    WordIs(b, 52);
  }

  /** Where the committed block number, the lock and the control blocks stand. */
  lemma HeaderIs(b: seq<byte>)
    requires |b| >= 56
    ensures Word(b, OFF_CHDR) == Signed(b, 16) && Word(b, OFF_LOCK) == Signed(b, 12)
    ensures CtrlAt(b, 0) == Ctrl(Signed(b, 20), Signed(b, 24), Signed(b, 28), Signed(b, 32))
    ensures CtrlAt(b, 1) == Ctrl(Signed(b, 36), Signed(b, 40), Signed(b, 44), Signed(b, 48))
  {
    hide Word, Signed;
    for i := 3 to 13
      invariant forall k :: 3 <= k < i ==> Word(b, 4 * k) == Signed(b, 4 * k)
    {
      WordIs(b, 4 * i);
    }
    assert Word(b, 4 * 3) == Signed(b, 4 * 3) && Word(b, 4 * 4) == Signed(b, 4 * 4);
    assert Word(b, 4 * 5) == Signed(b, 4 * 5) && Word(b, 4 * 6) == Signed(b, 4 * 6);
    assert Word(b, 4 * 7) == Signed(b, 4 * 7) && Word(b, 4 * 8) == Signed(b, 4 * 8);
    assert Word(b, 4 * 9) == Signed(b, 4 * 9) && Word(b, 4 * 10) == Signed(b, 4 * 10);
    assert Word(b, 4 * 11) == Signed(b, 4 * 11) && Word(b, 4 * 12) == Signed(b, 4 * 12);
  }

  /** A fresh header has those four words, nothing between the sizes and the second magic number, and leaves the rest
      of the device alone. */
  lemma FreshIs(b: seq<byte>, elemSize: nat, n: nat)
    requires |b| >= 56 && elemSize < 0x8000_0000 && n < 0x8000_0000
    ensures var b' := Overwrite(b, 0, FreshHeader(elemSize, n));
            && Unsigned(b', 0) == 0xF9E8D7C6 && Unsigned(b', 4) == elemSize
            && Unsigned(b', 8) == n && Unsigned(b', 52) == 0x1A2B3C4D
            && (forall i :: 12 <= i < 52 ==> b'[i] == 0) && b'[56..] == b[56..]
  {
    hide FreshHeader, Matches, Unsigned, Overwrite, Word, CtrlAt;
    var h := FreshHeader(elemSize, n);
    var b' := Overwrite(b, 0, h);
    OverwriteHere(b, 0, h);
    OverwriteElsewhere(b, 0, h, 56, |b|);
    FreshWords(elemSize, n);
    HeaderBytes(b', h, elemSize, n);
    MatchesExactly(b', elemSize, n);
    FreshZeros(elemSize, n);
    assert b'[56..] == b'[56..|b|] && b[56..] == b[56..|b|];
    forall i | 12 <= i < 52 ensures b'[i] == 0 { assert b'[0..56][i] == h[i]; }
  }

  lemma FreshZeros(elemSize: nat, n: nat)
    ensures forall i :: 12 <= i < 52 ==> FreshHeader(elemSize, n)[i] == 0
  {
    hide EncCtrl;
    ZeroBytes();
  }

  lemma ZeroBytes()
    ensures Enc32(0) == [0, 0, 0, 0]
    ensures EncCtrl(ZERO_CTRL) == Enc32(0) + Enc32(0) + Enc32(0) + Enc32(0)
  {}

  lemma CommitApplied(b: seq<byte>, cHdr: int, c: Ctrl)
    requires |b| >= HDR_SIZE && 0 <= cHdr <= 1
    ensures Fits(b, CommitStores(cHdr, c))
    ensures Apply(b, CommitStores(cHdr, c)) == Overwrite(Overwrite(b, OffCtrl(cHdr), EncCtrl(c)), OFF_CHDR, Enc32(cHdr))
  {
    hide EncCtrl, Enc32, Overwrite;
    var ws := CommitStores(cHdr, c);
    assert ws[1..] == [Store(OFF_CHDR, Enc32(cHdr))] && ws[1..][1..] == [];
    assert Apply(b, ws) == Apply(Overwrite(b, OffCtrl(cHdr), EncCtrl(c)), ws[1..]);
  }

  lemma SlotRegion(b: seq<byte>, k: int, elemSize: nat, n: nat)
    requires Room(b, elemSize, n) && 0 <= k < n
    ensures HDR_SIZE <= RecordOff(k, elemSize) && RecordOff(k, elemSize) + elemSize <= |b|
  {
    RecordRegions(0, k, elemSize, n);
  }

  // ----- the log as a queue with a history -----

  /** The record under the cursor is the next of the history. */
  lemma StoredRecord(b: seq<byte>, elemSize: nat, n: nat, c: Ctrl, history: seq<seq<byte>>)
    requires Stored(b, elemSize, n, c, history) && c.d < c.elem
    ensures var off := 56 + (c.d + c.head) % n * elemSize;
            56 <= off <= |b| - elemSize && b[off..off + elemSize] == history[|history| - c.elem + c.d]
  {
    hide Stored;
    RecordStored(b, elemSize, n, c, history);
  }

  lemma RecordStored(b: seq<byte>, elemSize: nat, n: nat, c: Ctrl, history: seq<seq<byte>>)
    requires Stored(b, elemSize, n, c, history) && c.d < c.elem
    ensures var off := RecordOff((c.d + c.head) % n, elemSize);
            56 <= off <= |b| - elemSize && b[off..off + elemSize] == history[|history| - c.elem + c.d]
  {
    hide Holds, RecordOff, Room;
    HoldsRoom(b, elemSize, n, c);
    var ptr := Index(c.head, c.d, n);
    IndexIsMod(c.head, c.d, n);
    SlotRegion(b, ptr, elemSize, n);
    assert Records(b, c, elemSize, n)[c.d] == RecordAt(b, ptr, elemSize);
  }

  lemma IndexIsMod(head: int, i: int, n: int)
    requires 0 <= head < n && 0 <= i < n
    ensures Index(head, i, n) == (i + head) % n
  {}

  lemma HoldsRoom(b: seq<byte>, elemSize: nat, n: nat, c: Ctrl)
    requires Holds(b, elemSize, n, c)
    ensures Room(b, elemSize, n) && |b| >= HDR_SIZE && ValidCtrl(c, n)
  {
    hide Matches, Word, CtrlAt;
  }

  function Min(x: int, y: int): int { if x < y then x else y }

  /** The device and the control block hold the last records of the history, as many as fit. */
  ghost predicate Stored(b: seq<byte>, elemSize: nat, n: nat, c: Ctrl, history: seq<seq<byte>>) {
    && Holds(b, elemSize, n, c)
    && c.elem == Min(|history|, n)
    && Records(b, c, elemSize, n) == history[|history| - c.elem..]
  }

  /** However few of the stores reach the device, reopening it finds v or w. */
  ghost predicate Untorn(b: seq<byte>, ws: seq<Store>, elemSize: nat, n: nat, v: View, w: View) {
    && Fits(b, ws)
    && forall k :: 0 <= k <= |ws| ==>
         Recovers(Apply(b, ws[..k]), elemSize, n, v) || Recovers(Apply(b, ws[..k]), elemSize, n, w)
  }

  lemma StoredFacts(b: seq<byte>, elemSize: nat, n: nat, c: Ctrl, history: seq<seq<byte>>)
    requires Stored(b, elemSize, n, c, history)
    ensures Room(b, elemSize, n) && |b| >= HDR_SIZE && ValidCtrl(c, n) && c.elem == Min(|history|, n)
  {
    hide Holds, Records, Room, ValidCtrl;
    HoldsRoom(b, elemSize, n, c);
  }

  lemma EmptyStored(b: seq<byte>, elemSize: nat, n: nat)
    requires Holds(b, elemSize, n, ZERO_CTRL)
    ensures Stored(b, elemSize, n, ZERO_CTRL, [])
    ensures Room(b, elemSize, n) && ValidCtrl(ZERO_CTRL, n) && ViewOf(b, elemSize, n, ZERO_CTRL) == View([], 0)
  {}

  /** Committing a moved cursor. */
  lemma CommitStored(b: seq<byte>, elemSize: nat, n: nat, c: Ctrl, cHdr: int, c': Ctrl, history: seq<seq<byte>>)
    requires Stored(b, elemSize, n, c, history) && 0 <= cHdr <= 1
    requires 0 <= c'.d <= c.elem && c' == c.(d := c'.d)
    ensures Room(b, elemSize, n) && ValidCtrl(c, n) && ValidCtrl(c', n) && Fits(b, CommitStores(cHdr, c'))
    ensures Stored(Apply(b, CommitStores(cHdr, c')), elemSize, n, c', history)
    ensures Untorn(b, CommitStores(cHdr, c'), elemSize, n, ViewOf(b, elemSize, n, c), ViewOf(b, elemSize, n, c'))
    ensures ViewOf(Apply(b, CommitStores(cHdr, c')), elemSize, n, c') == ViewOf(b, elemSize, n, c')
  {
    CommitSteps(b, elemSize, n, c, cHdr, c');
    assert Records(b, c', elemSize, n) == Records(b, c, elemSize, n);
  }

  function InsertStores(c: Ctrl, cHdr: int, c': Ctrl, elemSize: nat, r: seq<byte>): seq<Store>
    requires 0 <= cHdr <= 1 && 0 <= RecordOff(c.tail, elemSize)
  {
    [Store(RecordOff(c.tail, elemSize), r)] + CommitStores(cHdr, c')
  }

  /** The control block after an insertion. */
  function InsertCtrl(c: Ctrl, n: int): Ctrl {
    if c.elem < n then Ctrl(Index(c.tail, 1, n), c.elem + 1, c.head, c.d)
    else Ctrl(Index(c.tail, 1, n), c.elem, Index(c.head, 1, n), if c.d > 0 then c.d - 1 else c.d)
  }

  /** A full log hides the moment between the record write and the commit: the record written over the oldest one is
      equal to it, or to all the others, none of them read. */
  predicate Unnoticed(v: View, r: seq<byte>) {
    v.records != [] &&
    (v.records[0] == r || (v.d == 0 && forall i :: 1 <= i < |v.records| ==> v.records[i] == r))
  }

  lemma ShiftedIsOverwritten(o: seq<seq<byte>>, r: seq<byte>)
    requires o != []
    ensures o[0 := r] == o[1..] + [r] <==> forall i :: 1 <= i < |o| ==> o[i] == r
  {
    var x, y := o[0 := r], o[1..] + [r];
    if x == y { ShiftedAll(o, r, |o| - 1); }
    if forall i :: 1 <= i < |o| ==> o[i] == r {
      assert forall i :: 0 <= i < |o| ==> x[i] == r && y[i] == r;
    }
  }

  lemma {:induction false} ShiftedAll(o: seq<seq<byte>>, r: seq<byte>, k: nat)
    requires k < |o| && o[0 := r] == o[1..] + [r]
    ensures forall i :: 1 <= i <= k ==> o[i] == r
  {
    if k > 0 {
      ShiftedAll(o, r, k - 1);
      assert o[0 := r][k - 1] == (o[1..] + [r])[k - 1] == o[k];
    }
  }

  /** An insertion into a full log can be torn exactly when the moment in between can be noticed. */
  lemma FullInsertUntorn(b: seq<byte>, elemSize: nat, n: nat, c: Ctrl, cHdr: int, r: seq<byte>)
    requires Holds(b, elemSize, n, c) && 0 <= cHdr <= 1 && |r| == elemSize && c.elem == n
    ensures 0 <= RecordOff(c.tail, elemSize) && Room(b, elemSize, n) && ValidCtrl(c, n)
    ensures var c' := InsertCtrl(c, n);
            var ws := InsertStores(c, cHdr, c', elemSize, r);
            var v := ViewOf(b, elemSize, n, c);
            && Fits(b, ws) && ValidCtrl(c', n) && Room(Apply(b, ws), elemSize, n)
            && (Untorn(b, ws, elemSize, n, v, ViewOf(Apply(b, ws), elemSize, n, c')) <==> Unnoticed(v, r))
  {
    hide Holds, Records, Apply, RecordOff, CommitStores, Recovers;
    HoldsRoom(b, elemSize, n, c);
    FullInsertSteps(b, elemSize, n, c, cHdr, r);
    var c' := InsertCtrl(c, n);
    var ws := InsertStores(c, cHdr, c', elemSize, r);
    HoldsRoom(Apply(b, ws), elemSize, n, c');
    var o := Records(b, c, elemSize, n);
    var v, w, mid := View(o, c.d), View(o[1..] + [r], c'.d), View(o[0 := r], c.d);
    ShiftedIsOverwritten(o, r);
    HoldsRecovers(b, elemSize, n, c);
    NothingApplied(b, ws);
    assert |ws| == 3 by { CommitIsTwo(cHdr, c'); }
    assert Unnoticed(v, r) <==> mid == v || mid == w;
    if Untorn(b, ws, elemSize, n, v, w) {
      if Recovers(Apply(b, ws[..1]), elemSize, n, v) {
        RecoversOnce(Apply(b, ws[..1]), elemSize, n, v, mid);
      } else {
        RecoversOnce(Apply(b, ws[..1]), elemSize, n, w, mid);
      }
    }
  }

  lemma CommitIsTwo(cHdr: int, c: Ctrl)
    requires 0 <= cHdr <= 1
    ensures |CommitStores(cHdr, c)| == 2
  {}

  lemma HoldsRecovers(b: seq<byte>, elemSize: nat, n: nat, c: Ctrl)
    requires Holds(b, elemSize, n, c)
    ensures Room(b, elemSize, n) && ValidCtrl(c, n) && Recovers(b, elemSize, n, ViewOf(b, elemSize, n, c))
  {}

  lemma NothingApplied(b: seq<byte>, ws: seq<Store>)
    requires Fits(b, ws)
    ensures Apply(b, ws[..0]) == b
  {}

  /** Inserting a record: the history grows by it, and it can be torn exactly when the log is full and the moment
      between its first write and the commit can be noticed. */
  lemma InsertStored(b: seq<byte>, elemSize: nat, n: nat, c: Ctrl, cHdr: int, r: seq<byte>, history: seq<seq<byte>>)
    requires Stored(b, elemSize, n, c, history) && 0 <= cHdr <= 1 && |r| == elemSize
    ensures 0 <= RecordOff(c.tail, elemSize) && Room(b, elemSize, n) && ValidCtrl(c, n)
    ensures var c' := InsertCtrl(c, n);
            var ws := InsertStores(c, cHdr, c', elemSize, r);
            && Fits(b, ws) && ValidCtrl(c', n) && Stored(Apply(b, ws), elemSize, n, c', history + [r])
            && (Untorn(b, ws, elemSize, n, ViewOf(b, elemSize, n, c), ViewOf(Apply(b, ws), elemSize, n, c'))
                <==> c.elem < n || Unnoticed(ViewOf(b, elemSize, n, c), r))
            && (c.elem == n ==> Recovers(Apply(b, ws[..1]), elemSize, n, View(Records(b, c, elemSize, n)[0 := r], c.d)))
  {
    hide Holds, Records, Recovers, Apply, RecordOff, Unnoticed;
    StoredFacts(b, elemSize, n, c, history);
    var old_ := Records(b, c, elemSize, n);
    if c.elem < n {
      InsertSteps(b, elemSize, n, c, cHdr, r);
      assert old_ + [r] == (history + [r])[|history + [r]| - (c.elem + 1)..];
    } else {
      FullInsertSteps(b, elemSize, n, c, cHdr, r);
      FullInsertUntorn(b, elemSize, n, c, cHdr, r);
      assert old_[1..] + [r] == (history + [r])[|history + [r]| - n..];
    }
  }

  lemma HoldsNamed(b: seq<byte>, elemSize: nat, n: nat)
    requires Room(b, elemSize, n) && S32(n) && S32(elemSize) && Matches(b, elemSize, n)
    ensures var h := Word(b, OFF_CHDR);
            (exists c: Ctrl :: Holds(b, elemSize, n, c)) <==> 0 <= h <= 1 && ValidCtrl(CtrlAt(b, h), n)
    ensures forall c: Ctrl :: Holds(b, elemSize, n, c) <==>
              var h := Word(b, OFF_CHDR); 0 <= h <= 1 && ValidCtrl(CtrlAt(b, h), n) && c == CtrlAt(b, h)
  {
    hide Matches, Word, CtrlAt, ValidCtrl;
    var h := Word(b, OFF_CHDR);
    if 0 <= h <= 1 && ValidCtrl(CtrlAt(b, h), n) { assert Holds(b, elemSize, n, CtrlAt(b, h)); }
  }

  lemma StoredIs(b: seq<byte>, elemSize: nat, n: nat, c: Ctrl, history: seq<seq<byte>>)
    ensures Stored(b, elemSize, n, c, history) ==> Holds(b, elemSize, n, c)
    ensures Holds(b, elemSize, n, c) && history == Records(b, c, elemSize, n) ==>
              Stored(b, elemSize, n, c, history) && Recovers(b, elemSize, n, ViewOf(b, elemSize, n, c))
  {
    hide Matches, Word, CtrlAt;
    if Holds(b, elemSize, n, c) && history == Records(b, c, elemSize, n) {
      HoldsRecovers(b, elemSize, n, c);
      assert history[|history| - c.elem..] == history;
    }
  }

  lemma FreshStored(b: seq<byte>, elemSize: nat, n: nat)
    requires Room(b, elemSize, n) && S32(n) && S32(elemSize) && |b| >= HDR_SIZE
    ensures var b' := Overwrite(b, 0, FreshHeader(elemSize, n));
            && Holds(b', elemSize, n, ZERO_CTRL) && Stored(b', elemSize, n, ZERO_CTRL, [])
            && Room(b', elemSize, n) && ValidCtrl(ZERO_CTRL, n) && ViewOf(b', elemSize, n, ZERO_CTRL) == View([], 0)
  {
    hide FreshHeader, Holds, Stored, Overwrite;
    FreshHolds(b, elemSize, n);
    EmptyStored(Overwrite(b, 0, FreshHeader(elemSize, n)), elemSize, n);
  }

  class LogStream {
    const kDev: MemBlock
    const elemSize: nat
    var maxNoElem: nat
    var locked: bool
    var cHdr: int
    var ctrl: Ctrl
    ghost var history: seq<seq<byte>>  // every record accepted since the log was opened, after those found on it

    /** The device holds the log that the control block in memory describes, and the records stored are the
        last of the history. */
    ghost predicate Valid()
      reads this, kDev, kDev.data
    {
      && kDev.Valid() && elemSize > 0 && S32(elemSize) && S32(kDev.data.Length)
      && maxNoElem == Capacity(kDev.data.Length, elemSize)
      && 0 <= cHdr <= 1
      && (if maxNoElem > 0 then Stored(kDev.data[..], elemSize, maxNoElem, ctrl, history)
          else ctrl == ZERO_CTRL && kDev.pos == kDev.data.Length && history == [])
    }

    /** The place in the history of the record the next get returns. */
    ghost function Next(): int
      reads this
    {
      |history| - ctrl.elem + ctrl.d
    }

    ghost function Value(): View
      requires Valid() && maxNoElem > 0
      reads this, kDev, kDev.data
    {
      ViewOf(kDev.data[..], elemSize, maxNoElem, ctrl)
    }

    /** The records stored are the last of the history. */
    lemma ValueIs()
      requires Valid() && maxNoElem > 0
      ensures ctrl.elem == Min(|history|, maxNoElem) && Value() == View(history[|history| - ctrl.elem..], ctrl.d)
    {}

    constructor (dev: MemBlock, size: nat)
      ensures kDev == dev && elemSize == size
    {
      kDev, elemSize := dev, size;
      locked, cHdr, ctrl, maxNoElem := false, 0, ZERO_CTRL, 0;
      history := [];
    }

    /** LogStreamInit: reopens the log found on the device, or makes the device an empty one. Of a device with the right
        header it takes the control block named there as it is: there is none when the name is neither 0 nor 1, which
        the source does not check. Reopening succeeds exactly when the device holds a log. */
    method Init() returns (named: bool)
      requires kDev.Valid() && elemSize > 0 && S32(elemSize) && S32(kDev.data.Length)
      modifies this, kDev`pos, kDev`stores, kDev.data
      ensures kDev.Valid()
      ensures maxNoElem == if kDev.data.Length > 56 then (kDev.data.Length - 56) / elemSize else 0
      ensures maxNoElem == 0 ==> Valid() && named && !locked && kDev.data[..] == old(kDev.data[..])
      ensures maxNoElem > 0 ==>
                && kDev.data.Length > 56
                && var b := old(kDev.data[..]);
                   if Unsigned(b, 0) == 0xF9E8D7C6 && Unsigned(b, 4) == elemSize
                      && Unsigned(b, 8) == maxNoElem && Unsigned(b, 52) == 0x1A2B3C4D
                   then kDev.data[..] == b && Reopened(named)
                   else Valid() && named && !locked && Value() == View([], 0) && Emptied(b)
    {
      hide Matches, Word, CtrlAt, Records, Holds, Recovers, Room, Stored, Unsigned;
      named, locked, cHdr, ctrl := true, false, 0, ZERO_CTRL;
      history := [];
      kDev.Reset();
      var end := kDev.Seek(0, FromEnd);
      maxNoElem := Capacity(end, elemSize);
      if maxNoElem > 0 {
        CapacityFits(kDev.data[..], elemSize);
        var _ := kDev.Seek(0, FromStart);
        var hdr := kDev.Read(HDR_SIZE);
        HeaderBytes(kDev.data[..], hdr, elemSize, maxNoElem);
        MatchesExactly(kDev.data[..], elemSize, maxNoElem);
        if Matches(hdr, elemSize, maxNoElem) {
          named := LoadHeader(hdr);
        } else {
          MakeEmpty();
        }
      }
    }

    /** The device is an empty log and keeps what it had behind the header. */
    ghost predicate Emptied(b: seq<byte>)
      requires |b| == kDev.data.Length >= 56
      reads this, kDev, kDev.data
    {
      var b' := kDev.data[..];
      && Unsigned(b', 0) == 0xF9E8D7C6 && Unsigned(b', 4) == elemSize
      && Unsigned(b', 8) == maxNoElem && Unsigned(b', 52) == 0x1A2B3C4D
      && (forall i :: 12 <= i < 52 ==> b'[i] == 0) && b'[56..] == b[56..]
    }

    /** What is taken over from a device with the right header, with the block number at 16, the lock at 12 and the
        control blocks at 20 and 36; a log exactly when the device holds one. */
    ghost predicate Reopened(named: bool)
      requires kDev.data.Length >= 56
      reads this, kDev, kDev.data
    {
      var b := kDev.data[..];
      var h := Signed(b, 16);
      && (named <==> h == 0 || h == 1)
      && (locked <==> Signed(b, 12) != 0)
      && (h == 0 ==> ctrl == Ctrl(Signed(b, 20), Signed(b, 24), Signed(b, 28), Signed(b, 32)) && cHdr == 1)
      && (h == 1 ==> ctrl == Ctrl(Signed(b, 36), Signed(b, 40), Signed(b, 44), Signed(b, 48)) && cHdr == 0)
      && (Valid() <==> exists c: Ctrl :: Holds(b, elemSize, maxNoElem, c))
      && (Valid() <==> named && ValidCtrl(ctrl, maxNoElem))
      && (Valid() && maxNoElem > 0 ==> Recovers(b, elemSize, maxNoElem, Value()))
    }

    method LoadHeader(hdr: seq<byte>) returns (named: bool)
      requires kDev.Valid() && elemSize > 0 && S32(elemSize) && S32(kDev.data.Length)
      requires maxNoElem == Capacity(kDev.data.Length, elemSize) && Room(kDev.data[..], elemSize, maxNoElem)
      requires S32(maxNoElem) && ctrl == ZERO_CTRL && cHdr == 0 && Matches(kDev.data[..], elemSize, maxNoElem)
      requires |hdr| == HDR_SIZE && Word(hdr, OFF_CHDR) == Word(kDev.data[..], OFF_CHDR)
      requires Word(hdr, OFF_LOCK) == Word(kDev.data[..], OFF_LOCK)
      requires CtrlAt(hdr, 0) == CtrlAt(kDev.data[..], 0) && CtrlAt(hdr, 1) == CtrlAt(kDev.data[..], 1)
      modifies `locked, `cHdr, `ctrl, `history
      ensures Reopened(named)
    {
      hide Matches, Word, CtrlAt, Records, Capacity, Holds, Stored, ValidCtrl, Recovers, Signed;
      assert |kDev.data[..]| >= HDR_SIZE;
      HeaderIs(kDev.data[..]);
      var h := Word(hdr, OFF_CHDR);
      locked := Word(hdr, OFF_LOCK) != 0;
      cHdr := if h == 0 then 1 else 0;
      named := 0 <= h <= 1;
      if named {
        ctrl := CtrlAt(hdr, h);
        history := if ValidCtrl(ctrl, maxNoElem) then Records(kDev.data[..], ctrl, elemSize, maxNoElem) else [];
      }
      HoldsNamed(kDev.data[..], elemSize, maxNoElem);
      StoredIs(kDev.data[..], elemSize, maxNoElem, ctrl, history);
    }

    method MakeEmpty()
      requires kDev.Valid() && elemSize > 0 && S32(elemSize) && S32(kDev.data.Length) && kDev.data.Length >= HDR_SIZE
      requires maxNoElem == Capacity(kDev.data.Length, elemSize) && maxNoElem > 0 && S32(maxNoElem)
      requires Room(kDev.data[..], elemSize, maxNoElem) && ctrl == ZERO_CTRL && history == [] && 0 <= cHdr <= 1
      modifies kDev`pos, kDev`stores, kDev.data
      ensures Valid() && Value() == View([], 0) && Emptied(old(kDev.data[..]))
    {
      hide FreshHeader, Holds, Stored, Capacity, Overwrite, Room, ViewOf, ValidCtrl, Unsigned;
      FreshStored(kDev.data[..], elemSize, maxNoElem);
      FreshIs(kDev.data[..], elemSize, maxNoElem);
      WriteHeader();
    }

    method WriteHeader()
      requires kDev.Valid() && kDev.data.Length >= HDR_SIZE
      modifies kDev`pos, kDev`stores, kDev.data
      ensures kDev.Valid() && kDev.data[..] == Overwrite(old(kDev.data[..]), 0, FreshHeader(elemSize, maxNoElem))
    {
      hide FreshHeader, Overwrite;
      var _ := kDev.Seek(0, FromStart);
      var header := FreshHeader(elemSize, maxNoElem);
      var n := kDev.Write(header);
      assert header[..n] == header;
    }

    /** LogStreamCommit: writes the control block in memory to the slot not in use, then the word that names
        it. */
    method Commit()
      requires kDev.Valid() && 0 <= cHdr <= 1 && (maxNoElem > 0 ==> kDev.data.Length >= HDR_SIZE)
      modifies `cHdr, kDev`pos, kDev`stores, kDev.data
      ensures kDev.Valid() && 0 <= cHdr <= 1
      ensures maxNoElem == 0 ==> cHdr == old(cHdr) && kDev.pos == old(kDev.pos) && kDev.data[..] == old(kDev.data[..])
                                 && kDev.stores == old(kDev.stores)
      ensures maxNoElem > 0 ==>
                && cHdr == 1 - old(cHdr)
                && kDev.stores == old(kDev.stores) + CommitStores(old(cHdr), ctrl)
                && Fits(old(kDev.data[..]), CommitStores(old(cHdr), ctrl))
                && kDev.data[..] == Apply(old(kDev.data[..]), CommitStores(old(cHdr), ctrl))
    {
      hide EncCtrl, Enc32;
      if maxNoElem != 0 {
        var w1, w2 := EncCtrl(ctrl), Enc32(cHdr);
        CommitApplied(kDev.data[..], cHdr, ctrl);
        var _ := kDev.Seek(OffCtrl(cHdr), FromStart);
        var n1 := kDev.Write(w1);
        assert w1[..n1] == w1;
        var _ := kDev.Seek(OFF_CHDR, FromStart);
        var n2 := kDev.Write(w2);
        assert w2[..n2] == w2;
        cHdr := if cHdr == 0 then 1 else 0;
      }
    }

    /** The stores recorded since s0 made the device from the bytes b. */
    ghost predicate Written(b: seq<byte>, s0: seq<Store>)
      reads kDev, kDev.data
    {
      s0 <= kDev.stores && Fits(b, kDev.stores[|s0|..]) && kDev.data[..] == Apply(b, kDev.stores[|s0|..])
    }

    /** LogStreamInsert. A locked full log refuses; otherwise the record joins the end of the history, and
        the next record to get stays the same unless it is the one overwritten. */
    method Insert(log: seq<byte>) returns (smashed: int)
      requires Valid() && |log| == elemSize
      modifies this, kDev`pos, kDev`stores, kDev.data
      ensures Valid() && maxNoElem == old(maxNoElem) && locked == old(locked)
      ensures smashed == -1 <==> old(maxNoElem > 0 && ctrl.elem == maxNoElem && locked)
      ensures smashed == -1 || maxNoElem == 0 ==>
                ctrl == old(ctrl) && history == old(history) && kDev.data[..] == old(kDev.data[..])
      ensures smashed != -1 && maxNoElem > 0 ==>
                && history == old(history) + [log]
                && smashed == (if old(ctrl.elem) == maxNoElem then 1 else 0)
                && Next() == (if old(Next()) < |history| - maxNoElem then |history| - maxNoElem else old(Next()))
      ensures smashed != -1 && maxNoElem > 0 ==>
                && Written(old(kDev.data[..]), old(kDev.stores))
                && (Untorn(old(kDev.data[..]), kDev.stores[|old(kDev.stores)|..], elemSize, maxNoElem,
                           old(Value()), Value())
                    <==> smashed == 0 || Unnoticed(old(Value()), log))
    {
      hide Stored, Untorn, Capacity, Apply, RecordOff, Unnoticed, Records, Recovers, InsertStores;
      smashed := 0;
      if maxNoElem != 0 {
        ghost var b, c, s0 := kDev.data[..], ctrl, kDev.stores;
        StoredFacts(b, elemSize, maxNoElem, ctrl, history);
        InsertStored(b, elemSize, maxNoElem, ctrl, cHdr, log, history);
        if ctrl.elem >= maxNoElem {
          if locked {
            return -1;
          }
          ctrl := ctrl.(head := if ctrl.head + 1 < maxNoElem then ctrl.head + 1 else 0);
          if ctrl.d > 0 {
            ctrl := ctrl.(d := ctrl.d - 1);
          }
          ctrl := ctrl.(elem := ctrl.elem - 1);
          smashed := smashed + 1;
        }
        Append(log, c);
        history := history + [log];
        assert kDev.stores[|s0|..] == InsertStores(c, old(cHdr), ctrl, elemSize, log);
      } else {
        var n := kDev.Write(log);
        assert Overwrite(old(kDev.data[..]), kDev.pos, log[..0]) == old(kDev.data[..]);
        Commit();
      }
    }

    /** The record write, the advance of the tail and the commit of an insertion; c is the control block
        committed before it. */
    method Append(log: seq<byte>, ghost c: Ctrl)
      requires kDev.Valid() && 0 <= cHdr <= 1 && |log| == elemSize
      requires Room(kDev.data[..], elemSize, maxNoElem) && ValidCtrl(c, maxNoElem)
      requires ctrl == c.(head := InsertCtrl(c, maxNoElem).head, d := InsertCtrl(c, maxNoElem).d,
                          elem := InsertCtrl(c, maxNoElem).elem - 1)
      modifies `ctrl, `cHdr, kDev`pos, kDev`stores, kDev.data
      ensures kDev.Valid() && 0 <= cHdr <= 1 && ctrl == InsertCtrl(c, maxNoElem) && 0 <= RecordOff(c.tail, elemSize)
      ensures var ws := InsertStores(c, old(cHdr), ctrl, elemSize, log);
              && kDev.stores == old(kDev.stores) + ws && Fits(old(kDev.data[..]), ws)
              && kDev.data[..] == Apply(old(kDev.data[..]), ws)
    {
      hide Apply, RecordOff, CommitStores, Overwrite;
      ghost var b := kDev.data[..];
      PutRecord(log);
      ctrl := ctrl.(tail := if ctrl.tail + 1 < maxNoElem then ctrl.tail + 1 else 0);
      ctrl := ctrl.(elem := ctrl.elem + 1);
      ghost var vs := CommitStores(cHdr, ctrl);
      Commit();
      StoresPrefix(b, Store(RecordOff(c.tail, elemSize), log), vs, 1 + |vs|);
      assert ([Store(RecordOff(c.tail, elemSize), log)] + vs)[..1 + |vs|]
             == [Store(RecordOff(c.tail, elemSize), log)] + vs;
      assert vs[..|vs|] == vs;
    }

    /** The record write. */
    method PutRecord(log: seq<byte>)
      requires kDev.Valid() && |log| == elemSize
      requires Room(kDev.data[..], elemSize, maxNoElem) && 0 <= ctrl.tail < maxNoElem
      modifies kDev`pos, kDev`stores, kDev.data
      ensures kDev.Valid() && 0 <= RecordOff(ctrl.tail, elemSize) && kDev.data.Length >= HDR_SIZE
      ensures RecordOff(ctrl.tail, elemSize) + elemSize <= kDev.data.Length
      ensures kDev.data[..] == Overwrite(old(kDev.data[..]), RecordOff(ctrl.tail, elemSize), log)
      ensures elemSize > 0 ==> kDev.stores == old(kDev.stores) + [Store(RecordOff(ctrl.tail, elemSize), log)]
    {
      hide RecordOff, Overwrite;
      SlotRegion(kDev.data[..], ctrl.tail, elemSize, maxNoElem);
      var _ := kDev.Seek(RecordOff(ctrl.tail, elemSize), FromStart);
      var n := kDev.Write(log);
      assert log[..n] == log;
    }

    /** LogStreamGet: the next record of the history, as long as the cursor has not reached the end. */
    method Get() returns (status: int, log: seq<byte>)
      requires Valid()
      modifies this, kDev`pos, kDev`stores, kDev.data
      ensures Valid() && maxNoElem == old(maxNoElem) && locked == old(locked) && history == old(history)
      ensures status == if old(Next()) < |history| then 0 else -1
      ensures status == 0 ==> log == history[old(Next())] && Next() == old(Next()) + 1
      ensures status == -1 ==> ctrl == old(ctrl) && kDev.data[..] == old(kDev.data[..])
      ensures status == 0 ==>
                maxNoElem > 0 && Written(old(kDev.data[..]), old(kDev.stores)) &&
                Untorn(old(kDev.data[..]), kDev.stores[|old(kDev.stores)|..], elemSize, maxNoElem,
                       old(Value()), Value())
    {
      hide Stored, Untorn, Capacity, Apply, Records, Written;
      log := [];
      if maxNoElem > 0 { StoredFacts(kDev.data[..], elemSize, maxNoElem, ctrl, history); }
      if ctrl.elem > 0 && ctrl.d < ctrl.elem {
        log := ReadNext();
        MoveCursor(ctrl.d + 1);
        return 0, log;
      }
      status := -1;
    }

    /** The record under the cursor. */
    method ReadNext() returns (log: seq<byte>)
      requires Valid() && maxNoElem > 0 && 0 <= ctrl.d < ctrl.elem
      modifies kDev`pos
      ensures Valid() && 0 <= Next() < |history| && log == history[Next()]
    {
      hide Stored, Capacity, RecordOff, Records;
      StoredFacts(kDev.data[..], elemSize, maxNoElem, ctrl, history);
      RecordStored(kDev.data[..], elemSize, maxNoElem, ctrl, history);
      var ptr := (ctrl.d + ctrl.head) % maxNoElem;
      var _ := kDev.Seek(RecordOff(ptr, elemSize), FromStart);
      log := kDev.Read(elemSize);
    }

    /** The cursor moves, and the control block is committed. */
    method MoveCursor(d: int)
      requires Valid() && 0 <= d <= ctrl.elem
      modifies `cHdr, `ctrl, kDev`pos, kDev`stores, kDev.data
      ensures Valid() && ctrl == old(ctrl).(d := d)
      ensures maxNoElem == 0 ==> kDev.data[..] == old(kDev.data[..])
      ensures maxNoElem > 0 ==>
                Written(old(kDev.data[..]), old(kDev.stores)) &&
                Untorn(old(kDev.data[..]), kDev.stores[|old(kDev.stores)|..], elemSize, maxNoElem,
                       old(Value()), Value())
    {
      hide Stored, Untorn, Capacity, Apply, Records;
      ghost var s0, b := kDev.stores, kDev.data[..];
      if maxNoElem > 0 {
        StoredFacts(b, elemSize, maxNoElem, ctrl, history);
        CommitStored(b, elemSize, maxNoElem, ctrl, cHdr, ctrl.(d := d), history);
      }
      ctrl := ctrl.(d := d);
      Commit();
      assert maxNoElem > 0 ==> kDev.stores[|s0|..] == CommitStores(old(cHdr), ctrl);
    }

    /** LogStreamSeek: moves the cursor, clamped to the stored records. */
    method Seek(offset: int, whence: Option<Whence>) returns (off: int)
      requires Valid()
      modifies this, kDev`pos, kDev`stores, kDev.data
      ensures Valid() && maxNoElem == old(maxNoElem) && locked == old(locked) && history == old(history)
      ensures whence.None? ==> off == -1 && ctrl == old(ctrl) && kDev.data[..] == old(kDev.data[..])
      ensures whence.Some? ==>
                var target := offset + (match whence.value
                                        case FromStart => 0
                                        case FromCurrent => old(ctrl.d)
                                        case FromEnd => ctrl.elem);
                off == ctrl.d == if target < 0 then 0 else Min(target, ctrl.elem)
      ensures whence.Some? && maxNoElem > 0 ==>
                Written(old(kDev.data[..]), old(kDev.stores)) &&
                Untorn(old(kDev.data[..]), kDev.stores[|old(kDev.stores)|..], elemSize, maxNoElem,
                       old(Value()), Value())
    {
      hide Stored, Untorn, Capacity, Apply, Records, Written;
      off := offset;
      match whence {
        case None => return -1;
        case Some(FromStart) =>
        case Some(FromCurrent) => off := off + ctrl.d;
        case Some(FromEnd) => off := off + ctrl.elem;
      }
      if off > ctrl.elem { off := ctrl.elem; }
      if off < 0 { off := 0; }
      if maxNoElem > 0 { StoredFacts(kDev.data[..], elemSize, maxNoElem, ctrl, history); }
      MoveCursor(off);
    }

    /** LogStreamLock, LogStreamUnlock: the lock lives in memory only. */
    method Lock()
      requires Valid()
      modifies `locked
      ensures Valid() && locked
    {
      locked := true;
    }

    method Unlock()
      requires Valid()
      modifies `locked
      ensures Valid() && !locked
    {
      locked := false;
    }
  }

  // ----- recovery -----

  /** A restart of a device on which an untorn operation was stopped: the first k of its writes, ws, have reached the
      bytes b. Start-up finds the log before or after the operation. */
  method Restart(image: seq<byte>, elemSize: nat, ghost b: seq<byte>, ghost ws: seq<Store>, ghost k: nat,
                 ghost v: View, ghost w: View)
    returns (log: LogStream)
    requires elemSize > 0 && S32(elemSize) && S32(|b|) && Capacity(|b|, elemSize) > 0
    requires Untorn(b, ws, elemSize, Capacity(|b|, elemSize), v, w) && k <= |ws| && image == Apply(b, ws[..k])
    ensures fresh(log) && fresh(log.kDev) && fresh(log.kDev.data) && log.Valid() && log.elemSize == elemSize
    ensures log.maxNoElem == Capacity(|b|, elemSize) && (log.Value() == v || log.Value() == w)
    ensures log.kDev.data[..] == image
  {
    hide Apply, Unsigned;
    var n := Capacity(|b|, elemSize);
    ghost var found := if Recovers(image, elemSize, n, v) then v else w;
    assert Recovers(image, elemSize, n, found);
    RecoversMatches(image, elemSize, n, found);
    var data := new byte[|image|](i requires 0 <= i < |image| => image[i]);
    assert data[..] == image;
    var dev := new MemBlock(data);
    log := new LogStream(dev, elemSize);
    var _ := log.Init();
    RecoversOnce(image, elemSize, n, found, log.Value());
  }

  lemma RecoversMatches(b: seq<byte>, elemSize: nat, n: nat, v: View)
    requires Recovers(b, elemSize, n, v)
    ensures |b| >= 56 && exists c: Ctrl :: Holds(b, elemSize, n, c)
    ensures && Unsigned(b, 0) == 0xF9E8D7C6 && Unsigned(b, 4) == elemSize
            && Unsigned(b, 8) == n && Unsigned(b, 52) == 0x1A2B3C4D
  {
    hide Matches, Unsigned;
    var c: Ctrl :| Holds(b, elemSize, n, c);
    MatchesExactly(b, elemSize, n);
  }

  /** An insertion that can be torn: a log of two one-byte records gets a third. */
  method TornInsert() returns (log: LogStream, ghost b: seq<byte>, ghost ws: seq<Store>, ghost v: View)
    ensures log.Valid() && log.maxNoElem == 2 && log.elemSize == 1 && log.history == [[1], [2], [3]]
    ensures v == View([[1], [2]], 0) && Fits(b, ws) && Apply(b, ws) == log.kDev.data[..]
    ensures !Untorn(b, ws, 1, 2, v, log.Value())
  {
    hide Untorn, Apply, Fits, Stored, Capacity, Holds;
    log := TwoRecords();
    b, v := log.kDev.data[..], log.Value();
    ghost var s0 := log.kDev.stores;
    assert !Unnoticed(v, [3]) by { assert v.records[0] == [1] && v.records[1] == [2]; }
    hide Unnoticed;
    var smashed := log.Insert([3]);
    ws := log.kDev.stores[|s0|..];
  }

  method TwoRecords() returns (log: LogStream)
    ensures fresh(log) && fresh(log.kDev) && fresh(log.kDev.data)
    ensures log.Valid() && log.maxNoElem == 2 && log.elemSize == 1 && !log.locked && log.history == [[1], [2]]
    ensures log.Value() == View([[1], [2]], 0) && log.ctrl.elem == 2
  {
    hide Stored, Holds, Records, Untorn, Capacity, Unnoticed, Apply;
    log := OneRecord();
    var _ := log.Insert([2]);
    log.ValueIs();
    assert log.history[0..] == log.history;
  }

  method OneRecord() returns (log: LogStream)
    ensures fresh(log) && fresh(log.kDev) && fresh(log.kDev.data)
    ensures log.Valid() && log.maxNoElem == 2 && log.elemSize == 1 && !log.locked && log.history == [[1]]
    ensures log.ctrl.elem == 1 && log.ctrl.d == 0
  {
    hide Stored, Holds, Records, Untorn, Capacity, Unnoticed, Apply;
    log := EmptyLog();
    log.ValueIs();
    var _ := log.Insert([1]);
    log.ValueIs();
  }

  method EmptyLog() returns (log: LogStream)
    ensures fresh(log) && fresh(log.kDev) && fresh(log.kDev.data)
    ensures log.Valid() && log.maxNoElem == 2 && log.elemSize == 1 && !log.locked && log.history == []
    ensures log.Value() == View([], 0)
  {
    var data := new byte[HDR_SIZE + 2](_ => 0);
    var dev := new MemBlock(data);
    log := new LogStream(dev, 1);
    var _ := log.Init();
  }
}
