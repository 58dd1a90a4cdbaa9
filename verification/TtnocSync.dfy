/** Port synchronisation of the TTNoC driver, host side: the decisions taken on one reading of the
    synchronisation register. */
module TtnocSync {

  /** Width of the address fields of the register, and the words a time stamp takes. */
  const ADDR_LIMIT: int := 4096
  const TIMESTAMP_SIZE: int := 2

  datatype Config = Config(outgoing: bool, sporadic: bool, implicitSync: bool, timestamp: bool,
                           msgsize: nat, qLength: nat)

  datatype Psync = Psync(hostAddr: int, hostToof: bool, tissAddr: int, tissToof: bool)

  /** The error codes; a blocking call that is still polling is Pending. */
  datatype Status = Success | QueueFull | QueueEmpty | Busy | Pending

  /** Words copied per message. */
  function Words(c: Config): nat { c.msgsize + if c.timestamp then TIMESTAMP_SIZE else 0 }

  predicate Full(p: Psync) { p.hostAddr == p.tissAddr && p.hostToof != p.tissToof }
  predicate Empty(p: Psync) { p.hostAddr == p.tissAddr && p.hostToof == p.tissToof }

  /** ttsoc_getMsgPtr without blocking: the word offset of the current message from the port base. */
  function GetMsgPtr(c: Config, p: Psync): (Status, int) {
    if !c.sporadic then
      if c.outgoing && !c.implicitSync then
        if p.hostAddr != p.tissAddr then (Busy, 0)
        else (Success, if p.tissAddr == 0 then c.msgsize else 0)
      else (Success, 0)
    else if c.outgoing && Full(p) then (QueueFull, 0)
    else if !c.outgoing && Empty(p) then (QueueEmpty, 0)
    else (Success, p.hostAddr)
  }

  /** ttsoc_iterMsgPtr: the host-side fields after a message has been completed or consumed. */
  function IterMsgPtr(c: Config, p: Psync): Psync {
    if !c.sporadic then
      if c.outgoing && !c.implicitSync then p.(hostAddr := if p.hostAddr != 0 then 0 else c.msgsize) else p
    else
      var a := (p.hostAddr + Words(c)) % ADDR_LIMIT;
      if a == c.qLength then p.(hostAddr := 0, hostToof := !p.hostToof) else p.(hostAddr := a)
  }

  // ----- the ring addresses as unbounded counts -----

  /** A queue of k messages whose ring is a whole number of messages and fits the address field. */
  predicate Ring(c: Config, k: nat) {
    c.sporadic && k > 0 && Words(c) > 0 && c.qLength == k * Words(c) && c.qLength < ADDR_LIMIT
  }

  /** The address and the toggle bit stand for the number of messages handled so far. */
  function AddrOf(c: Config, k: nat, count: nat): int
    requires k > 0
  {
    (count % k) * Words(c)
  }

  function ToofOf(k: nat, count: nat): bool
    requires k > 0
  {
    (count / k) % 2 == 1
  }

  lemma DivMod(x: nat, k: nat)
    requires k > 0
    ensures x == (x / k) * k + x % k && x % k < k
  {}

  lemma OneMore(q: nat, k: nat)
    ensures (q + 1) * k == q * k + k
  {}

  lemma NextCount(k: nat, count: nat)
    requires k > 0
    ensures if count % k + 1 == k then (count + 1) % k == 0 && (count + 1) / k == count / k + 1
            else (count + 1) % k == count % k + 1 && (count + 1) / k == count / k
  {
    var q, r := count / k, count % k;
    assert count == q * k + r by { DivMod(count, k); }
    if r + 1 == k {
      assert count + 1 == (q + 1) * k + 0 by { OneMore(q, k); }
      DivModIs(count + 1, k, q + 1, 0);
    } else {
      DivModIs(count + 1, k, q, r + 1);
    }
  }

  lemma DivModIs(x: nat, k: nat, q: nat, r: nat)
    requires k > 0 && x == q * k + r && r < k
    ensures x / k == q && x % k == r
  {
    if x / k < q {
      MulLe(x / k + 1, q, k);
    } else if x / k > q {
      MulLe(q + 1, x / k, k);
    }
  }

  lemma MulLe(a: int, b: int, m: nat)
    requires a <= b
    ensures a * m <= b * m
  {}

  lemma MulLess(a: int, b: int, m: nat)
    requires a < b && m > 0
    ensures a * m < b * m && a * m + m <= b * m
  {
    MulLe(a + 1, b, m);
  }

  /** Distinct slots have distinct addresses. */
  lemma AddrInjective(c: Config, k: nat, i: nat, j: nat)
    requires Ring(c, k)
    ensures AddrOf(c, k, i) == AddrOf(c, k, j) <==> i % k == j % k
  {
    if i % k < j % k { MulLess(i % k, j % k, Words(c)); }
    if j % k < i % k { MulLess(j % k, i % k, Words(c)); }
  }

  /** Advancing the pointer counts one message, toggling exactly when the ring wraps. */
  lemma IterCounts(c: Config, k: nat, p: Psync, count: nat)
    requires Ring(c, k) && p.hostAddr == AddrOf(c, k, count) && p.hostToof == ToofOf(k, count)
    ensures var p' := IterMsgPtr(c, p);
            p'.hostAddr == AddrOf(c, k, count + 1) && p'.hostToof == ToofOf(k, count + 1)
            && p'.tissAddr == p.tissAddr && p'.tissToof == p.tissToof
  {
    var w, r := Words(c), count % k;
    NextCount(k, count);
    assert (r + 1) * w == r * w + w;
    MulLe(0, r, w);
    if r + 1 == k {
    } else {
      MulLess(r + 1, k, w);
    }
  }

  /** Two counts at most k apart are in the same slot only when they are equal or exactly k apart, and the
      number of wraps tells the two cases apart. */
  lemma SameSlot(k: nat, i: nat, j: nat)
    requires k > 0 && i <= j <= i + k
    ensures i % k == j % k <==> j == i || j == i + k
    ensures j == i + k ==> j / k == i / k + 1
  {
    var q, r := i / k, i % k;
    assert i == q * k + r;
    if j == i + k {
      assert j == (q + 1) * k + r;
      DivModIs(j, k, q + 1, r);
    } else if r + (j - i) < k {
      DivModIs(j, k, q, r + (j - i));
    } else {
      assert j == (q + 1) * k + (r + (j - i) - k);
      DivModIs(j, k, q + 1, r + (j - i) - k);
    }
  }

  /** The full and the empty test are exact. */
  lemma TestsExact(c: Config, k: nat, p: Psync, produced: nat, consumed: nat)
    requires Ring(c, k) && consumed <= produced <= consumed + k
    requires if c.outgoing
             then p == Psync(AddrOf(c, k, produced), ToofOf(k, produced), AddrOf(c, k, consumed), ToofOf(k, consumed))
             else p == Psync(AddrOf(c, k, consumed), ToofOf(k, consumed), AddrOf(c, k, produced), ToofOf(k, produced))
    ensures Full(p) <==> produced == consumed + k
    ensures Empty(p) <==> produced == consumed
  {
    SameSlot(k, consumed, produced);
    AddrInjective(c, k, consumed, produced);
    var q := consumed / k;
    assert q % 2 != (q + 1) % 2;
  }
}
