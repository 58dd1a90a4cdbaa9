/** Sporadic TTNoC ports: a ring of messages between the host and the network interface, each side with its
    own pointer and toggle bit. The interface takes any number of its own steps between two accesses of the host. */
module TtnocRing {
  import opened TtnocSync

  /** What the interface may do: take the next message of an outgoing port; store a word of the next message of
      an incoming port, or complete it. */
  datatype TissStep = Take | StoreWord(i: nat, v: int) | Complete

  predicate InRing(c: Config, k: nat, mem: seq<int>, count: nat)
    requires k > 0
  {
    0 <= AddrOf(c, k, count) && AddrOf(c, k, count) + Words(c) <= |mem|
  }

  lemma SlotInRing(c: Config, k: nat, mem: seq<int>, count: nat)
    requires Ring(c, k) && |mem| == c.qLength
    ensures InRing(c, k, mem, count)
  {
    MulLess(count % k, k, Words(c));
    MulLe(0, count % k, Words(c));
  }

  /** The words in the slot of the message with the given number. */
  function Slot(c: Config, k: nat, mem: seq<int>, count: nat): (s: seq<int>)
    requires k > 0 && InRing(c, k, mem, count)
    ensures |s| == Words(c)
  {
    mem[AddrOf(c, k, count)..AddrOf(c, k, count) + Words(c)]
  }

  /** The messages not yet consumed are all in the ring. */
  ghost predicate Outstanding(c: Config, k: nat, mem: seq<int>, msgs: seq<seq<int>>, consumed: nat)
    requires k > 0
  {
    && consumed <= |msgs| <= consumed + k
    && forall j: nat :: consumed <= j < |msgs| ==> InRing(c, k, mem, j) && msgs[j] == Slot(c, k, mem, j)
  }

  /** Storing a word into the slot of the next message leaves the outstanding ones alone as long as the ring
      is not full. */
  lemma StoreKeepsOutstanding(c: Config, k: nat, mem: seq<int>, msgs: seq<seq<int>>, consumed: nat, i: nat, v: int)
    requires Ring(c, k) && |mem| == c.qLength && Outstanding(c, k, mem, msgs, consumed)
    requires |msgs| < consumed + k && i < Words(c)
    ensures InRing(c, k, mem, |msgs|)
    ensures Outstanding(c, k, mem[AddrOf(c, k, |msgs|) + i := v], msgs, consumed)
    ensures Slot(c, k, mem[AddrOf(c, k, |msgs|) + i := v], |msgs|) == Slot(c, k, mem, |msgs|)[i := v]
  {
    SlotInRing(c, k, mem, |msgs|);
    var a := AddrOf(c, k, |msgs|);
    var mem' := mem[a + i := v];
    forall j: nat | consumed <= j < |msgs| ensures InRing(c, k, mem', j) && msgs[j] == Slot(c, k, mem', j) {
      SlotInRing(c, k, mem, j);
      SameSlot(k, j, |msgs|);
      if j % k < |msgs| % k {
        MulLess(j % k, |msgs| % k, Words(c));
      } else {
        MulLess(|msgs| % k, j % k, Words(c));
      }
      assert Slot(c, k, mem', j) == Slot(c, k, mem, j);
    }
  }

  class RingPort {
    const c: Config
    const k: nat
    var reg: Psync
    var mem: seq<int>                  // the port memory from the port base on
    ghost var msgs: seq<seq<int>>      // every message put into the ring
    ghost var consumed: nat
    ghost var delivered: seq<seq<int>> // every message taken out of it

    function Encoded(host: nat, tiss: nat): Psync
      requires k > 0
    {
      Psync(AddrOf(c, k, host), ToofOf(k, host), AddrOf(c, k, tiss), ToofOf(k, tiss))
    }

    ghost predicate Valid()
      reads this
    {
      && Ring(c, k) && |mem| == c.qLength
      && Outstanding(c, k, mem, msgs, consumed)
      && reg == (if c.outgoing then Encoded(|msgs|, consumed) else Encoded(consumed, |msgs|))
      && delivered == msgs[..consumed]
    }

    constructor (c: Config, k: nat)
      requires Ring(c, k)
      ensures Valid() && this.c == c && this.k == k && msgs == []
    {
      this.c, this.k := c, k;
      reg := Psync(0, false, 0, false);
      mem := seq(c.qLength, _ => 0);
      msgs, consumed, delivered := [], 0, [];
      new;
      assert 0 % k == 0 && 0 / k == 0;
    }

    /** One step of the interface; a step its side of the protocol forbids is not taken. */
    method Tiss(step: TissStep)
      requires Valid()
      modifies this
      ensures Valid()
      ensures c.outgoing ==> msgs == old(msgs) && consumed >= old(consumed) && mem == old(mem)
      ensures !c.outgoing ==> old(msgs) <= msgs && consumed == old(consumed)
      ensures step.Take? ==>
                && consumed == old(consumed) + (if c.outgoing && old(consumed) < |msgs| then 1 else 0)
                && msgs == old(msgs) && mem == old(mem)
      ensures step.Complete? && !c.outgoing && |old(msgs)| < consumed + k ==>
                var a := old(reg.tissAddr);
                0 <= a <= |mem| - Words(c) && msgs == old(msgs) + [mem[a..a + Words(c)]] && mem == old(mem)
      ensures step.StoreWord? || c.outgoing || |old(msgs)| >= consumed + k ==> msgs == old(msgs)
      ensures step.StoreWord? ==>
                if !c.outgoing && |msgs| < consumed + k && step.i < Words(c)
                then 0 <= reg.tissAddr + step.i < |mem| && mem == old(mem)[reg.tissAddr + step.i := step.v]
                else mem == old(mem)
    {
      TestsExact(c, k, reg, |msgs|, consumed);
      match step {
        case Take =>
          if c.outgoing && !Empty(reg) {
            SlotInRing(c, k, mem, consumed);
            delivered := delivered + [mem[reg.tissAddr..reg.tissAddr + Words(c)]];
            IterCounts(c, k, Swapped(reg), consumed);
            reg := Swapped(IterMsgPtr(c, Swapped(reg)));
            consumed := consumed + 1;
          }
        case StoreWord(i, v) =>
          if !c.outgoing && !Full(reg) && i < Words(c) {
            StoreKeepsOutstanding(c, k, mem, msgs, consumed, i, v);
            mem := mem[reg.tissAddr + i := v];
          }
        case Complete =>
          if !c.outgoing && !Full(reg) {
            SlotInRing(c, k, mem, |msgs|);
            IterCounts(c, k, Swapped(reg), |msgs|);
            msgs := msgs + [mem[reg.tissAddr..reg.tissAddr + Words(c)]];
            reg := Swapped(IterMsgPtr(c, Swapped(reg)));
          }
      }
    }

    /** The register seen from the other side: the interface moves its pointer by the same rule. */
    function Swapped(p: Psync): Psync { Psync(p.tissAddr, p.tissToof, p.hostAddr, p.hostToof) }

    method Interfere(steps: seq<TissStep>)
      requires Valid()
      modifies this
      ensures Valid()
      ensures c.outgoing ==> msgs == old(msgs) && consumed >= old(consumed) && mem == old(mem)
      ensures !c.outgoing ==> old(msgs) <= msgs && consumed == old(consumed)
    {
      for i := 0 to |steps|
        invariant Valid()
        invariant c.outgoing ==> msgs == old(msgs) && consumed >= old(consumed) && mem == old(mem)
        invariant !c.outgoing ==> old(msgs) <= msgs && consumed == old(consumed)
      {
        Tiss(steps[i]);
      }
    }

    /** ttsoc_sendMsg on an outgoing port. bursts[n] is what the interface does before the host's n-th access.
        A full ring refuses; otherwise the message joins the ring whole, and no word of a message the
        interface has not taken yet is ever overwritten. */
    method SendMsg(msg: seq<int>, bursts: nat -> seq<TissStep>) returns (status: Status)
      requires Valid() && c.outgoing && |msg| == c.msgsize + if c.timestamp then 2 else 0
      modifies this
      ensures Valid()
      ensures status == Success || status == QueueFull
      ensures msgs == if status == Success then old(msgs) + [msg] else old(msgs)
      ensures status == QueueFull ==> |msgs| == consumed + k
    {
      hide Outstanding, AddrOf, ToofOf;
      Interfere(bursts(0));
      OutstandingFacts(c, k, mem, msgs, consumed);
      TestsExact(c, k, reg, |msgs|, consumed);
      var (st, off) := GetMsgPtr(c, reg);
      status := st;
      if status != Success { return; }
      SlotInRing(c, k, mem, |msgs|);
      for i := 0 to Words(c)
        invariant Valid() && msgs == old(msgs) && |msgs| < consumed + k
        invariant InRing(c, k, mem, |msgs|) && off == AddrOf(c, k, |msgs|)
        invariant Slot(c, k, mem, |msgs|)[..i] == msg[..i]
      {
        StoreOne(msg, off, i, bursts(1 + i));
      }
      assert Slot(c, k, mem, |msgs|) == msg;
      Interfere(bursts(1 + Words(c)));
      var pflag := reg;
      Interfere(bursts(2 + Words(c)));
      Produce(pflag, msg);
    }

    /** One word of the message, after what the interface does before the access. */
    method StoreOne(msg: seq<int>, off: int, i: nat, steps: seq<TissStep>)
      requires Valid() && c.outgoing && i < |msg| == Words(c) && |msgs| < consumed + k
      requires InRing(c, k, mem, |msgs|) && off == AddrOf(c, k, |msgs|) && Slot(c, k, mem, |msgs|)[..i] == msg[..i]
      modifies this
      ensures Valid() && msgs == old(msgs) && |msgs| < consumed + k
      ensures InRing(c, k, mem, |msgs|) && Slot(c, k, mem, |msgs|)[..i + 1] == msg[..i + 1]
    {
      hide Outstanding, AddrOf, ToofOf;
      Interfere(steps);
      StoreKeepsOutstanding(c, k, mem, msgs, consumed, i, msg[i]);
      ghost var s := Slot(c, k, mem, |msgs|);
      mem := mem[off + i := msg[i]];
      assert Slot(c, k, mem, |msgs|) == s[i := msg[i]];
      assert s[i := msg[i]][..i + 1] == s[..i] + [msg[i]] == msg[..i + 1];
    }

    /** ttsoc_iterMsgPtr after a send, with the register value read before it. */
    method Produce(pflag: Psync, msg: seq<int>)
      requires Valid() && c.outgoing && |msgs| < consumed + k
      requires InRing(c, k, mem, |msgs|) && Slot(c, k, mem, |msgs|) == msg
      requires pflag.hostAddr == reg.hostAddr && pflag.hostToof == reg.hostToof
      modifies `msgs, `reg
      ensures Valid() && msgs == old(msgs) + [msg]
    {
      var next := IterMsgPtr(c, pflag);
      IterCounts(c, k, pflag, |msgs|);
      msgs := msgs + [msg];
      reg := reg.(hostAddr := next.hostAddr, hostToof := next.hostToof);
    }

    /** ttsoc_receiveMsg on an incoming port: the oldest message not received yet, whole. A blocking call whose polling
        loop has run `polls` times and found the queue empty each time is still pending. */
    method ReceiveMsg(blocking: bool, polls: nat, bursts: nat -> seq<TissStep>) returns (status: Status, msg: seq<int>)
      requires Valid() && !c.outgoing
      modifies this
      ensures Valid() && old(msgs) <= msgs
      ensures status == Success || status == if blocking then Pending else QueueEmpty
      ensures consumed == if status == Success then old(consumed) + 1 else old(consumed)
      ensures status == Success ==> old(consumed) < |msgs| && msg == msgs[old(consumed)]
      ensures status != Success ==> old(consumed) == |old(msgs)|
      ensures status == Pending ==> old(consumed) == |msgs|
    {
      hide Outstanding, AddrOf, ToofOf;
      msg := [];
      var off, n;
      status, off, n := AwaitMessage(blocking, polls, bursts);
      if status != Success { return; }
      ghost var j := consumed;
      for i := 0 to Words(c)
        invariant Valid() && old(msgs) <= msgs && consumed == j < |msgs|
        invariant off == AddrOf(c, k, j) && |msgs[j]| == Words(c) && msg == msgs[j][..i]
      {
        Interfere(bursts(n + i));
        WordOf(c, k, mem, msgs, consumed, i);
        msg := msg + [mem[off + i]];
      }
      Interfere(bursts(n + Words(c)));
      var pflag := reg;
      Interfere(bursts(n + Words(c) + 1));
      Consume(pflag, msg);
    }

    /** ttsoc_iterMsgPtr after a receive, with the register value read before it. */
    method Consume(pflag: Psync, msg: seq<int>)
      requires Valid() && !c.outgoing && consumed < |msgs| && msg == msgs[consumed]
      requires pflag.hostAddr == reg.hostAddr && pflag.hostToof == reg.hostToof
      modifies `consumed, `delivered, `reg
      ensures Valid() && consumed == old(consumed) + 1
    {
      var next := IterMsgPtr(c, pflag);
      IterCounts(c, k, pflag, consumed);
      consumed := consumed + 1;
      delivered := delivered + [msg];
      reg := reg.(hostAddr := next.hostAddr, hostToof := next.hostToof);
    }

    /** The part of ttsoc_getMsgPtr for an incoming port; n counts the register readings. */
    method AwaitMessage(blocking: bool, polls: nat, bursts: nat -> seq<TissStep>)
      returns (status: Status, off: int, n: nat)
      requires Valid() && !c.outgoing
      modifies this
      ensures Valid() && old(msgs) <= msgs && consumed == old(consumed)
      ensures status == Success || status == if blocking then Pending else QueueEmpty
      ensures status == Success ==> consumed < |msgs| && off == AddrOf(c, k, consumed) && |msgs[consumed]| == Words(c)
      ensures status != Success ==> consumed == |old(msgs)| == |msgs|
    {
      hide Outstanding, AddrOf, ToofOf;
      n := 1;
      OutstandingFacts(c, k, mem, msgs, consumed);
      Interfere(bursts(0));
      if blocking {
        var tries := 0;
        while Empty(reg) && tries < polls
          invariant Valid() && old(msgs) <= msgs && consumed == old(consumed)
          decreases polls - tries
        {
          Interfere(bursts(n));
          n, tries := n + 1, tries + 1;
        }
        if Empty(reg) {
          OutstandingFacts(c, k, mem, msgs, consumed);
          TestsExact(c, k, reg, |msgs|, consumed);
          return Pending, 0, n;
        }
      }
      OutstandingFacts(c, k, mem, msgs, consumed);
      TestsExact(c, k, reg, |msgs|, consumed);
      var r := GetMsgPtr(c, reg);
      status, off := r.0, r.1;
    }
  }

  lemma OutstandingFacts(c: Config, k: nat, mem: seq<int>, msgs: seq<seq<int>>, consumed: nat)
    requires k > 0 && Outstanding(c, k, mem, msgs, consumed)
    ensures consumed <= |msgs| <= consumed + k
    ensures consumed < |msgs| ==> |msgs[consumed]| == Words(c)
  {}

  lemma WordOf(c: Config, k: nat, mem: seq<int>, msgs: seq<seq<int>>, consumed: nat, i: nat)
    requires Ring(c, k) && |mem| == c.qLength && Outstanding(c, k, mem, msgs, consumed)
    requires consumed < |msgs| && i < Words(c)
    ensures 0 <= AddrOf(c, k, consumed) + i < |mem| && |msgs[consumed]| == Words(c)
    ensures mem[AddrOf(c, k, consumed) + i] == msgs[consumed][i]
  {
    SlotInRing(c, k, mem, consumed);
    assert msgs[consumed] == Slot(c, k, mem, consumed);
  }
}
