/** Incoming periodic TTNoC ports: the interface writes without waiting for the host, and a counter that is odd
    during an update lets the host notice. */
module TtnocNbw {
  import opened TtnocSync

  /** Steps of the interface: start an update, store one of its words, end it. */
  datatype UpdateStep = Begin | StoreWord(i: nat, v: int) | End

  class NbwPort {
    const c: Config
    var words: seq<int>               // the message area of the port
    ghost var nbw: nat                // the sequencer, unbounded
    ghost var updates: seq<seq<int>>  // the message after each completed update; the first is the initial one
    var tissAddr: int                 // the sequencer as the register shows it

    ghost predicate Valid()
      reads this
    {
      && !c.outgoing && !c.sporadic && |words| == Words(c)
      && tissAddr == nbw % ADDR_LIMIT
      && |updates| == nbw / 2 + 1
      && (forall u <- updates :: |u| == Words(c))
      && (nbw % 2 == 0 ==> words == updates[nbw / 2])
    }

    constructor (c: Config, words: seq<int>)
      requires !c.outgoing && !c.sporadic && |words| == Words(c)
      ensures Valid() && this.c == c && updates == [words] && nbw == 0
    {
      this.c, this.words := c, words;
      nbw, updates, tissAddr := 0, [words], 0;
    }

    /** One step of the interface; a step out of turn is not taken. */
    method Tiss(step: UpdateStep)
      requires Valid()
      modifies this
      ensures Valid() && old(nbw) <= nbw && old(updates) <= updates
      ensures nbw == old(nbw) && nbw % 2 == 0 ==> words == old(words)
      ensures words == if step.StoreWord? && nbw % 2 == 1 && step.i < |old(words)| then old(words)[step.i := step.v]
                       else old(words)
      ensures nbw == old(nbw) + if (step.Begin? && old(nbw) % 2 == 0) || (step.End? && old(nbw) % 2 == 1) then 1 else 0
      ensures updates == if step.End? && old(nbw) % 2 == 1 then old(updates) + [words] else old(updates)
    {
      ParityOfField(nbw);
      NextReading(nbw);
      HalfStep(nbw);
      match step {
        case Begin =>
          if tissAddr % 2 == 0 {
            nbw := nbw + 1;
            tissAddr := (tissAddr + 1) % ADDR_LIMIT;
          }
        case StoreWord(i, v) =>
          if tissAddr % 2 == 1 && i < |words| {
            words := words[i := v];
          }
        case End =>
          if tissAddr % 2 == 1 {
            nbw := nbw + 1;
            tissAddr := (tissAddr + 1) % ADDR_LIMIT;
            updates := updates + [words];
          }
      }
    }

    method Interfere(steps: seq<UpdateStep>)
      requires Valid()
      modifies this
      ensures Valid() && old(nbw) <= nbw && old(updates) <= updates
      ensures nbw == old(nbw) && nbw % 2 == 0 ==> words == old(words)
    {
      for i := 0 to |steps|
        invariant Valid() && old(nbw) <= nbw && old(updates) <= updates
        invariant nbw == old(nbw) && nbw % 2 == 0 ==> words == old(words)
      {
        Tiss(steps[i]);
      }
    }

    /** The copy after a reading of the sequencer, word by word, and the second reading. When both readings are
        the same even number, and the sequencer did not run through its whole range in between, the words are
        those of one single update, the latest at the first reading. */
    method CopyAndRead(n: nat, bursts: nat -> seq<UpdateStep>, oldflag: int, ghost before: nat)
      returns (newflag: int, msg: seq<int>, ghost after: nat)
      requires Valid() && before == nbw && oldflag == tissAddr
      modifies this
      ensures Valid() && before <= after == nbw && old(updates) <= updates
      ensures newflag == after % ADDR_LIMIT && |msg| == Words(c)
      ensures oldflag % 2 == 0 <==> before % 2 == 0
      ensures oldflag % 2 == 0 && oldflag == newflag && after - before < 4096 ==>
                after == before && msg == updates[before / 2]
    {
      msg := [];
      ghost var u := before / 2;
      for i := 0 to Words(c)
        invariant Valid() && before <= nbw && old(updates) <= updates && u < |updates| && |msg| == i
        invariant nbw == before && before % 2 == 0 ==> msg == updates[u][..i]
      {
        Interfere(bursts(n + i));
        msg := msg + [words[i]];
      }
      Interfere(bursts(n + Words(c)));
      newflag := tissAddr;
      after := nbw;
      ParityOfField(before);
      SameReading(before, after);
    }

    lemma NextReading(x: nat)
      ensures (x % ADDR_LIMIT + 1) % ADDR_LIMIT == (x + 1) % ADDR_LIMIT
    {}

    lemma HalfStep(x: nat)
      ensures if x % 2 == 0 then (x + 1) / 2 == x / 2 && (x + 1) % 2 == 1
              else (x + 1) / 2 == x / 2 + 1 && (x + 1) % 2 == 0
    {}

    lemma ParityOfField(x: nat)
      ensures (x % ADDR_LIMIT) % 2 == x % 2
    {}

    lemma SameReading(x: nat, y: nat)
      requires x <= y
      ensures x % ADDR_LIMIT == y % ADDR_LIMIT && y - x < ADDR_LIMIT ==> x == y
    {}

    /** ttsoc_receiveMsg. Without blocking it refuses during an update and when one happened meanwhile; with
        blocking it retries, here at most `retries` times. A received message is never torn: it is the
        content after one single update, and no older than the call. */
    method ReceiveMsg(blocking: bool, retries: nat, bursts: nat -> seq<UpdateStep>)
      returns (r: Status, msg: seq<int>, ghost before: nat, ghost after: nat)
      requires Valid()
      modifies this
      ensures Valid() && old(nbw) <= before <= after <= nbw && old(updates) <= updates
      ensures r == Success || r == Busy || r == Pending
      ensures r == Success && after - before < 4096 ==>
                before == after && before / 2 < |updates| && msg == updates[before / 2]
                && |old(updates)| - 1 <= before / 2
      ensures r == Busy ==> !blocking && (before % 2 == 1 || before < after)
      ensures r == Pending ==> blocking
    {
      var n: nat := 0;
      var oldflag, newflag;
      msg := [];
      if blocking {
        var tries := 0;
        while true
          invariant Valid() && old(nbw) <= nbw && old(updates) <= updates && tries <= retries
          decreases retries - tries
        {
          Interfere(bursts(n));
          oldflag, before := tissAddr, nbw;
          newflag, msg, after := CopyAndRead(n + 1, bursts, oldflag, before);
          if !(oldflag % 2 == 1 || oldflag != newflag) { return Success, msg, before, after; }
          if tries == retries { return Pending, msg, before, after; }
          n, tries := n + Words(c) + 2, tries + 1;
        }
      } else {
        Interfere(bursts(n));
        oldflag, before, after := tissAddr, nbw, nbw;
        ParityOfField(before);
        if oldflag % 2 == 1 { return Busy, msg, before, after; }
        newflag, msg, after := CopyAndRead(n + 1, bursts, oldflag, before);
        r := if oldflag != newflag then Busy else Success;
      }
    }
  }
}
