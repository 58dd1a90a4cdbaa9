/** Queuing channels: a fixed pool of messages that move between the free list and the received list. */
module QueuingChannel {
  import opened DynList

  /** XM_OK, the error codes of the send and receive services, and the kernel panic they must not reach. */
  datatype Status = Ok | InvalidConfig | OpNotAllowed | Panic

  /** Each message of the pool is on exactly one of the two lists. */
  ghost predicate Partition(pool: set<Msg>, xs: seq<Msg>, ys: seq<Msg>, n: nat) {
    && (forall m <- xs :: m in pool && m !in ys)
    && (forall m <- ys :: m in pool)
    && (forall m <- pool :: m in xs || m in ys)
    && |xs| + |ys| == n
  }

  ghost predicate Distinct(xs: seq<Msg>) { forall i, j :: 0 <= i < j < |xs| ==> xs[i] != xs[j] }

  lemma PartitionFacts(pool: set<Msg>, xs: seq<Msg>, ys: seq<Msg>, n: nat)
    requires Partition(pool, xs, ys, n)
    ensures |xs| + |ys| == n && Partition(pool, ys, xs, n)
    ensures (forall m <- xs :: m in pool && m !in ys) && (forall m <- ys :: m in pool && m !in xs)
  {}

  /** The last of one list becomes the first of the other. */
  lemma MoveOne(pool: set<Msg>, xs: seq<Msg>, ys: seq<Msg>, n: nat)
    requires Partition(pool, xs, ys, n) && Distinct(xs) && xs != []
    ensures Partition(pool, xs[..|xs| - 1], [xs[|xs| - 1]] + ys, n)
    ensures Partition(pool, [xs[|xs| - 1]] + ys, xs[..|xs| - 1], n)
    ensures xs[|xs| - 1] in pool && xs[|xs| - 1] !in ys
  {
    var m := xs[|xs| - 1];
    assert xs == xs[..|xs| - 1] + [m];
  }

  /** Every message has a buffer of the channel's message length. */
  ghost predicate Equipped(pool: set<Msg>, maxLength: nat)
    reads pool`length, pool`buffer
  {
    forall m <- pool :: |m.buffer| == maxLength && m.length <= maxLength
  }

  ghost predicate Carries(m: Msg, payload: seq<byte>)
    reads m`length, m`buffer
  {
    m.length <= |m.buffer| && m.buffer[..m.length] == payload
  }

  /** The list carries the payloads, the oldest at its tail. */
  ghost predicate Queued(recv: seq<Msg>, payloads: seq<seq<byte>>)
    reads (set m | m in recv)`length, (set m | m in recv)`buffer
  {
    && |recv| == |payloads|
    && forall i :: 0 <= i < |recv| ==> Carries(recv[i], payloads[|payloads| - 1 - i])
  }

  lemma QueuedPush(recv: seq<Msg>, payloads: seq<seq<byte>>, m: Msg, payload: seq<byte>)
    requires Queued(recv, payloads) && Carries(m, payload)
    ensures Queued([m] + recv, payloads + [payload])
  {}

  lemma QueuedPop(recv: seq<Msg>, payloads: seq<seq<byte>>)
    requires Queued(recv, payloads) && recv != []
    ensures payloads != [] && Carries(recv[|recv| - 1], payloads[0])
    ensures Queued(recv[..|recv| - 1], payloads[1..])
  {}

  lemma QueuedLength(recv: seq<Msg>, payloads: seq<seq<byte>>)
    requires Queued(recv, payloads)
    ensures |recv| == |payloads|
  {}

  lemma SuffixAppend<T>(s: seq<T>, k: nat, x: T)
    requires k <= |s|
    ensures (s + [x])[k..] == s[k..] + [x]
  {}

  lemma SuffixNext<T>(s: seq<T>, k: nat)
    requires k < |s|
    ensures s[k..][1..] == s[k + 1..]
  {}

  class Channel {
    const maxNoMsgs: nat
    const maxLength: nat
    const freeMsgs: List
    const recvMsgs: List
    var usedMsgs: int
    ghost var pool: set<Msg>
    ghost var sent: seq<seq<byte>>  // every payload accepted
    ghost var received: nat         // how many of them have been taken out

    /** The pool is split between the two lists, and the received list holds, oldest at the tail, exactly
        the payloads sent and not yet taken out. */
    ghost predicate Valid()
      reads this, freeMsgs, recvMsgs, pool
    {
      && freeMsgs != recvMsgs
      && Partition(pool, freeMsgs.nodes, recvMsgs.nodes, maxNoMsgs)
      && freeMsgs.Valid() && recvMsgs.Valid()
      && Equipped(pool, maxLength)
      && usedMsgs == |recvMsgs.nodes|
      && received <= |sent| && Queued(recvMsgs.nodes, sent[received..])
    }

    /** SetupComm, the part for one queuing channel. */
    constructor (maxNoMsgs: nat, maxLength: nat)
      ensures Valid() && fresh(freeMsgs) && fresh(recvMsgs) && fresh(pool)
      ensures this.maxNoMsgs == maxNoMsgs && this.maxLength == maxLength && sent == [] && received == 0
      ensures recvMsgs.nodes == []
    {
      this.maxNoMsgs, this.maxLength := maxNoMsgs, maxLength;
      freeMsgs := new List();
      recvMsgs := new List();
      usedMsgs, pool, sent, received := 0, {}, [], 0;
      new;
      for i := 0 to maxNoMsgs
        invariant fresh(freeMsgs) && fresh(recvMsgs) && fresh(pool)
        invariant Filling(i)
      {
        AddMessage(i);
      }
    }

    /** The pool while it is being built: every message so far is free. */
    ghost predicate Filling(i: nat)
      reads this, freeMsgs, recvMsgs, pool
    {
      && freeMsgs != recvMsgs
      && Partition(pool, freeMsgs.nodes, [], i) && recvMsgs.nodes == []
      && freeMsgs.Valid() && recvMsgs.Valid()
      && Equipped(pool, maxLength)
      && usedMsgs == 0 && sent == [] && received == 0
    }

    method AddMessage(ghost i: nat)
      requires Filling(i)
      modifies this, freeMsgs, pool
      ensures Filling(i + 1) && fresh(pool - old(pool))
    {
      var msg := new Msg(seq(maxLength, _ => 0));
      pool := pool + {msg};
      var _ := freeMsgs.InsertHead(msg);
    }

    /** memcpy of a payload into the message buffer. */
    method Fill(msg: Msg, payload: seq<byte>)
      requires |payload| <= |msg.buffer|
      modifies msg`length, msg`buffer
      ensures Carries(msg, payload) && |msg.buffer| == old(|msg.buffer|)
    {
      msg.buffer := payload + msg.buffer[|payload|..];
      msg.length := |payload|;
    }

    /** What holds while a message is between the lists, on its way to the head of `to`. */
    ghost predicate InTransit(msg: Msg, from: List, to: List, used: int)
      reads this, freeMsgs, recvMsgs, pool
    {
      && ((from == freeMsgs && to == recvMsgs) || (from == recvMsgs && to == freeMsgs)) && from != to
      && (forall m <- from.nodes :: m in pool) && (forall m <- to.nodes :: m in pool)
      && from.Valid() && to.Valid()
      && msg in pool && msg.Free() && msg !in from.nodes && msg !in to.nodes
      && Partition(pool, from.nodes, [msg] + to.nodes, maxNoMsgs)
      && Partition(pool, [msg] + to.nodes, from.nodes, maxNoMsgs)
      && (forall m <- from.nodes :: m !in to.nodes)
      && Equipped(pool, maxLength)
      && used == |recvMsgs.nodes|
      && received <= |sent| && Queued(recvMsgs.nodes, sent[received..])
    }

    /** The second half of a send: the payload is copied and the message queued. */
    method Deliver(msg: Msg, payload: seq<byte>)
      requires InTransit(msg, freeMsgs, recvMsgs, usedMsgs) && |payload| <= maxLength
      modifies this, recvMsgs, pool
      ensures Valid() && pool == old(pool) && received == old(received) && sent == old(sent) + [payload]
    {
      hide Partition, Queued;
      ghost var recv := recvMsgs.nodes;
      SuffixAppend(sent, received, payload);
      Fill(msg, payload);
      QueuedPush(recv, sent[received..], msg, payload);
      var _ := recvMsgs.InsertHead(msg);
      sent := sent + [payload];
      usedMsgs := usedMsgs + 1;
    }

    /** The first half of a receive: the oldest message leaves the queue. */
    method TakeOldest() returns (msg: Msg?)
      requires Valid() && recvMsgs.nodes != []
      modifies this, recvMsgs, pool
      ensures msg != null && InTransit(msg, recvMsgs, freeMsgs, usedMsgs - 1) && usedMsgs == old(usedMsgs)
      ensures pool == old(pool) && sent == old(sent) && received == old(received) + 1 && received <= |sent|
      ensures Carries(msg, sent[old(received)])
    {
      hide Partition, Queued, Carries;
      QueuedLength(recvMsgs.nodes, sent[received..]);
      PartitionFacts(pool, freeMsgs.nodes, recvMsgs.nodes, maxNoMsgs);
      MoveOne(pool, recvMsgs.nodes, freeMsgs.nodes, maxNoMsgs);
      QueuedPop(recvMsgs.nodes, sent[received..]);
      SuffixNext(sent, received);
      received := received + 1;
      msg := recvMsgs.RemoveTail();
    }

    /** memcpy of as much of the payload as the receiver has room for. */
    method CutTo(msg: Msg, msgSize: nat, ghost payload: seq<byte>) returns (data: seq<byte>)
      requires Carries(msg, payload)
      ensures data == if msgSize < |payload| then payload[..msgSize] else payload
    {
      var retSize := if msgSize < msg.length then msgSize else msg.length;
      data := msg.buffer[..retSize];
      assert data == msg.buffer[..msg.length][..retSize];
    }

    /** The second half of a receive: the message goes back to the free list. */
    method Recycle(msg: Msg)
      requires InTransit(msg, recvMsgs, freeMsgs, usedMsgs - 1)
      modifies this, freeMsgs, pool
      ensures Valid() && pool == old(pool) && received == old(received) && sent == old(sent)
    {
      hide Partition, Queued;
      var _ := freeMsgs.InsertHead(msg);
      usedMsgs := usedMsgs - 1;
    }

    /** SendQueuingPort, once the port is known to be an open source port of this channel: a full channel
        refuses, otherwise a free message carries the payload to the end of the queue. */
    method Send(msgPtr: seq<byte>) returns (r: Status)
      requires Valid()
      modifies this, freeMsgs, recvMsgs, pool
      ensures Valid() && pool == old(pool) && received == old(received)
      ensures r == if |msgPtr| == 0 || |msgPtr| > maxLength then InvalidConfig
                   else if old(|sent| - received) == maxNoMsgs then OpNotAllowed
                   else Ok
      ensures sent == if r == Ok then old(sent) + [msgPtr] else old(sent)
    {
      hide Partition, Queued;
      QueuedLength(recvMsgs.nodes, sent[received..]);
      PartitionFacts(pool, freeMsgs.nodes, recvMsgs.nodes, maxNoMsgs);
      if |msgPtr| == 0 || |msgPtr| > maxLength { return InvalidConfig; }
      if usedMsgs < maxNoMsgs {
        MoveOne(pool, freeMsgs.nodes, recvMsgs.nodes, maxNoMsgs);
        var msg := freeMsgs.RemoveTail();
        if msg == null { return Panic; }
        Deliver(msg, msgPtr);
        return Ok;
      }
      return OpNotAllowed;
    }

    /** ReceiveQueuingPort, once the port is known to be an open destination port of this channel: the
        oldest payload not yet received, cut to the receiver's size. */
    method Receive(msgSize: nat) returns (r: Status, data: seq<byte>)
      requires Valid()
      modifies this, freeMsgs, recvMsgs, pool
      ensures Valid() && pool == old(pool) && sent == old(sent)
      ensures r == if msgSize == 0 || msgSize > maxLength then InvalidConfig
                   else if old(received) == |sent| then OpNotAllowed
                   else Ok
      ensures received == if r == Ok then old(received) + 1 else old(received)
      ensures r == Ok ==> var m := sent[old(received)]; data == if msgSize < |m| then m[..msgSize] else m
    {
      hide Partition, Queued;
      QueuedLength(recvMsgs.nodes, sent[received..]);
      PartitionFacts(pool, freeMsgs.nodes, recvMsgs.nodes, maxNoMsgs);
      data := [];
      if msgSize == 0 || msgSize > maxLength { return InvalidConfig, data; }
      if usedMsgs > 0 {
        var msg := TakeOldest();
        if msg == null { return Panic, data; }
        data := CutTo(msg, msgSize, sent[old(received)]);
        Recycle(msg);
        return Ok, data;
      }
      return OpNotAllowed, data;
    }
  }
}
