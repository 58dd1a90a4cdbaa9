/** Outgoing periodic TTNoC ports with explicit synchronisation: two halves of the port memory, one being
    sent by the interface and one being filled by the host. */
module TtnocDouble {
  import opened TtnocSync

  /** The port memory with a message stored at off. */
  function Stored(mem: seq<int>, off: int, msg: seq<int>): (r: seq<int>)
    requires 0 <= off && off + |msg| <= |mem|
    ensures |r| == |mem|
  {
    mem[..off] + msg + mem[off + |msg|..]
  }

  /** Whatever it stores, a send stays out of the half being sent except when it is the lower half being filled with a
      time stamp: then its last words lie in the upper half, the active one. */
  lemma SendStaysOut(c: Config, p: Psync)
    requires !c.sporadic && c.outgoing && !c.implicitSync && c.msgsize > 0
    requires p.hostAddr == p.tissAddr && p.tissAddr in {0, c.msgsize}
    ensures GetMsgPtr(c, p).0 == Success && GetMsgPtr(c, p).1 in {0, c.msgsize}
    ensures var off, n := GetMsgPtr(c, p).1, c.msgsize + if c.timestamp then 2 else 0;
            (forall mem: seq<int>, msg: seq<int> {:trigger Stored(mem, off, msg)} ::
               |mem| == c.msgsize + n && |msg| == n ==>
                 Stored(mem, off, msg)[p.tissAddr..p.tissAddr + c.msgsize] == mem[p.tissAddr..p.tissAddr + c.msgsize])
            <==> !(c.timestamp && p.tissAddr != 0)
  {
    var off, n, a, m := GetMsgPtr(c, p).1, Words(c), p.tissAddr, c.msgsize;
    if c.timestamp && a != 0 {
      var mem, msg := seq(m + n, _ => 0), seq(n, _ => 1);
      assert Stored(mem, off, msg)[a..a + m][0] == 1 && mem[a..a + m][0] == 0;
    } else {
      forall mem: seq<int>, msg: seq<int> | |mem| == m + n && |msg| == n
        ensures Stored(mem, off, msg)[a..a + m] == mem[a..a + m]
      {}
    }
  }

  /** Words stored over the first words of a half. */
  function Over(h: seq<int>, o: seq<int>): (r: seq<int>)
    ensures |r| == |h| && (o == [] ==> r == h)
  {
    seq(|h|, i requires 0 <= i < |h| => if i < |o| then o[i] else h[i])
  }

  lemma OverOne(h: seq<int>, o: seq<int>, v: int)
    ensures Over(h, o + [v]) == if |o| < |h| then Over(h, o)[|o| := v] else Over(h, o)
  {}

  function Least(x: nat, y: nat): nat { if x < y then x else y }

  /** What the half in use shows after last was completed and the first n words of msg are stored: last, but when msg
      goes into the lower half, with the words of the time stamp stored so far in the place of its first ones. */
  function Sends(c: Config, last: seq<int>, lower: bool, msg: seq<int>, n: nat): seq<int>
    requires c.msgsize <= |last| && n <= |msg|
  {
    Over(last[..c.msgsize], if lower && n > c.msgsize then msg[c.msgsize..n] else [])
  }

  /** It is whole exactly when no word of a time stamp is in it, or the words happen to be those they replace. A port
      without time stamps shows whole messages only. */
  lemma SendsWhole(c: Config, last: seq<int>, lower: bool, msg: seq<int>, n: nat)
    requires c.msgsize <= |last| && n <= |msg| == Words(c)
    ensures Sends(c, last, lower, msg, n) == last[..c.msgsize] <==>
              !lower || forall i :: c.msgsize <= i < n && i - c.msgsize < c.msgsize ==> msg[i] == last[i - c.msgsize]
    ensures !c.timestamp ==> Sends(c, last, lower, msg, n) == last[..c.msgsize]
  {
    var s := Sends(c, last, lower, msg, n);
    if lower && n > c.msgsize {
      assert forall i :: c.msgsize <= i < n && i - c.msgsize < c.msgsize ==> s[i - c.msgsize] == msg[i];
    }
  }

  /** What the half in use shows during a send: before the first access, then before each word and twice after. */
  ghost predicate Sent(c: Config, last: seq<int>, lower: bool, msg: seq<int>, sent: seq<seq<int>>)
    requires c.msgsize <= |last| && |msg| == Words(c)
  {
    && |sent| == Words(c) + 3 && sent[0] == last[..c.msgsize]
    && forall n :: 0 < n < |sent| ==> sent[n] == Sends(c, last, lower, msg, Least(n - 1, Words(c)))
  }

  ghost predicate Shows(c: Config, last: seq<int>, lower: bool, msg: seq<int>, shows: seq<seq<int>>)
    requires c.msgsize <= |last| && |msg| == Words(c)
  {
    |shows| <= |msg| && forall n :: 0 <= n < |shows| ==> shows[n] == Sends(c, last, lower, msg, n)
  }

  lemma NoShows(c: Config, last: seq<int>, lower: bool, msg: seq<int>)
    requires c.msgsize <= |last| && |msg| == Words(c)
    ensures Shows(c, last, lower, msg, [])
  {}

  lemma OneMoreShows(c: Config, last: seq<int>, lower: bool, msg: seq<int>, shows: seq<seq<int>>, s: seq<int>)
    requires c.msgsize <= |last| && |msg| == Words(c) && Shows(c, last, lower, msg, shows)
    requires |shows| < |msg| && s == Sends(c, last, lower, msg, |shows|)
    ensures Shows(c, last, lower, msg, shows + [s])
  {
    hide Sends;
  }

  lemma SentInOrder(c: Config, last: seq<int>, lower: bool, msg: seq<int>,
                    first: seq<int>, mid: seq<seq<int>>, rest: seq<seq<int>>)
    requires c.msgsize <= |last| && |msg| == Words(c) && first == last[..c.msgsize]
    requires |mid| == Words(c) && Shows(c, last, lower, msg, mid)
    requires |rest| == 2 && rest[0] == rest[1] == Sends(c, last, lower, msg, Words(c))
    ensures Sent(c, last, lower, msg, [first] + mid + rest)
  {
    hide Sends;
  }

  /** A period of the interface that is over: the words it sent, the message completed before it began, and how many
      words of the time stamp of the message after that were stored when each word was sent. */
  datatype Period = Period(message: nat, stamp: seq<int>, marks: seq<nat>, words: seq<int>)

  /** The words sent so far of payload, each with the words of the stamp stored by then over the first ones. */
  predicate Carries(words: seq<int>, marks: seq<nat>, stamp: seq<int>, payload: seq<int>) {
    && |words| == |marks| <= |payload|
    && (forall k :: 0 <= k < |words| ==>
          marks[k] <= |stamp| && words[k] == if k < marks[k] then stamp[k] else payload[k])
    && (forall j, k :: 0 <= j < k < |marks| ==> marks[j] <= marks[k])
  }

  lemma CarriesMore(words: seq<int>, marks: seq<nat>, stamp: seq<int>, payload: seq<int>)
    requires Carries(words, marks, stamp, payload) && |words| < |payload|
    ensures Carries(words + [Over(payload, stamp)[|words|]], marks + [|stamp|], stamp, payload)
  {}

  lemma CarriesNone(stamp: seq<int>, payload: seq<int>)
    ensures Carries([], [], stamp, payload)
  {}

  lemma CarriesSame(words: seq<int>, marks: seq<nat>, stamp: seq<int>, payload: seq<int>)
    requires Carries(words, marks, stamp, payload)
    ensures |words| == |marks| <= |payload|
  {}

  lemma CarriesLonger(words: seq<int>, marks: seq<nat>, stamp: seq<int>, more: seq<int>, payload: seq<int>)
    requires Carries(words, marks, stamp, payload)
    ensures Carries(words, marks, stamp + more, payload)
  {}

  /** A period is whole exactly when each word of a time stamp in it is the one it replaces; and so always when no time
      stamp goes over the half it is sent from. */
  lemma PeriodWhole(p: Period, payload: seq<int>)
    requires Carries(p.words, p.marks, p.stamp, payload) && |p.words| == |payload|
    ensures p.words == payload <==> forall k :: 0 <= k < |p.words| && k < p.marks[k] ==> p.stamp[k] == payload[k]
    ensures p.stamp == [] ==> p.words == payload
  {
    if forall k :: 0 <= k < |p.words| && k < p.marks[k] ==> p.stamp[k] == payload[k] {
      assert forall k :: 0 <= k < |p.words| ==> p.words[k] == payload[k];
    }
  }

  /** The words of the time stamp of the message after the one at i, where next has those stored already of the message
      still to be completed. */
  function StampAfter(c: Config, msgs: seq<seq<int>>, i: nat, next: seq<int>): seq<int> {
    if i + 1 >= |msgs| then next else if |msgs[i + 1]| < c.msgsize then [] else msgs[i + 1][c.msgsize..]
  }

  predicate Recorded(c: Config, msgs: seq<seq<int>>, next: seq<int>, p: Period) {
    && p.message < |msgs| && |p.words| == c.msgsize <= |msgs[p.message]|
    && Carries(p.words, p.marks, p.stamp, msgs[p.message][..c.msgsize])
    && p.stamp <= StampAfter(c, msgs, p.message, next)
  }

  predicate AllRecorded(c: Config, msgs: seq<seq<int>>, next: seq<int>, log: seq<Period>) {
    forall p <- log :: Recorded(c, msgs, next, p)
  }

  /** Completing a message keeps what is recorded. */
  lemma RecordedStill(c: Config, msgs: seq<seq<int>>, next: seq<int>, msg: seq<int>, log: seq<Period>)
    requires AllRecorded(c, msgs, next, log) && |msg| >= c.msgsize && next <= msg[c.msgsize..]
    ensures AllRecorded(c, msgs + [msg], [], log)
  {
    hide Carries;
  }

  lemma RecordedAlso(c: Config, msgs: seq<seq<int>>, next: seq<int>, log: seq<Period>, p: Period)
    requires AllRecorded(c, msgs, next, log) && p.message < |msgs| && |p.words| == c.msgsize <= |msgs[p.message]|
    requires Carries(p.words, p.marks, p.stamp, msgs[p.message][..c.msgsize])
    requires p.stamp <= StampAfter(c, msgs, p.message, next)
    ensures AllRecorded(c, msgs, next, log + [p])
  {
    hide Carries, StampAfter;
  }

  lemma RecordedLonger(c: Config, msgs: seq<seq<int>>, next: seq<int>, v: int, log: seq<Period>)
    requires AllRecorded(c, msgs, next, log)
    ensures AllRecorded(c, msgs, next + [v], log)
  {
    hide Carries;
  }

  class DoublePort {
    const c: Config
    var reg: Psync
    var mem: seq<int>
    var pos: nat                   // how many words of the current period the interface has sent
    ghost var msgs: seq<seq<int>>  // every message completed by the host; the first is the initial content
    ghost var active: nat          // the one the interface sends
    ghost var over: seq<int>       // the words of a time stamp stored over the upper half
    ghost var out: seq<int>        // the words of the current period
    ghost var marks: seq<nat>      // how many words of the time stamp were stored when each was sent
    ghost var log: seq<Period>     // the periods before it

    function Half(a: int): seq<int>
      requires 0 <= a && a + c.msgsize <= |mem|
      reads `mem
    {
      mem[a..a + c.msgsize]
    }

    ghost function Last(): seq<int>
      requires msgs != []
      reads `msgs
    {
      msgs[|msgs| - 1]
    }

    /** What the half at a shows of a message completed in it. */
    ghost function Shown(a: int, msg: seq<int>): seq<int>
      requires c.msgsize <= |msg|
      reads `over
    {
      Over(msg[..c.msgsize], Stamp(a))
    }

    /** The words of a time stamp stored over the half at a. */
    ghost function Stamp(a: int): seq<int>
      reads `over
    {
      if a == 0 then [] else over
    }

    /** The half the interface sends from shows the latest message or the one before it, and the half the host completed
        last shows the latest. */
    ghost predicate Showing()
      reads `reg, `mem, `msgs, `active, `over
    {
      && !c.sporadic && c.outgoing && !c.implicitSync && 0 < c.msgsize
      && |mem| == c.msgsize + Words(c)
      && reg.hostAddr in {0, c.msgsize} && reg.tissAddr in {0, c.msgsize}
      && msgs != [] && (forall m <- msgs :: |m| == Words(c))
      && active == (if reg.tissAddr == reg.hostAddr then |msgs| - 1 else |msgs| - 2)
      && active < |msgs|
      && Half(reg.hostAddr) == Shown(reg.hostAddr, Last())
      && Half(reg.tissAddr) == Shown(reg.tissAddr, msgs[active])
      && (reg.hostAddr != 0 && reg.tissAddr == 0 ==> over == [])
    }

    /** The words of the current period are those of the message it began with, and every period before it is
        recorded. */
    ghost predicate Sending(next: seq<int>)
      requires Showing()
      reads `reg, `mem, `msgs, `active, `over, `pos, `out, `marks, `log
    {
      && pos == |out| <= c.msgsize
      && Carries(out, marks, Stamp(reg.tissAddr), msgs[active][..c.msgsize])
      && Stamp(reg.tissAddr) <= StampAfter(c, msgs, active, next)
      && AllRecorded(c, msgs, next, log)
    }

    /** Between two sends, only a half the interface has still to leave shows words of a time stamp. */
    ghost predicate Valid()
      reads this
    {
      && Showing() && Sending([])
      && (reg.hostAddr != 0 ==> over == [])
      && (reg.hostAddr == 0 && reg.tissAddr != 0 ==> over == Last()[c.msgsize..])
    }

    constructor (c: Config, mem: seq<int>)
      requires !c.sporadic && c.outgoing && !c.implicitSync && 0 < c.msgsize && |mem| == c.msgsize + Words(c)
      ensures Valid() && this.c == c && msgs == [mem[..Words(c)]] && active == 0 && pos == 0 && log == []
    {
      this.c, this.mem, pos := c, mem, 0;
      reg := Psync(0, false, 0, false);
      msgs, active, over, out, marks, log := [mem[..Words(c)]], 0, [], [], [], [];
      assert mem[..Words(c)][..c.msgsize] == mem[..c.msgsize];
    }

    /** Word by word, a period sends the message it began with, each word with the words of the next message's time
        stamp over it that were stored when it was sent. */
    lemma PeriodSends(p: Period)
      requires Valid() && p in log
      ensures p.message < |msgs| && |p.words| == |p.marks| == c.msgsize <= |msgs[p.message]|
      ensures forall k :: 0 <= k < c.msgsize && p.marks[k] <= k ==> p.words[k] == msgs[p.message][k]
      ensures forall k :: 0 <= k < c.msgsize && k < p.marks[k] ==>
                && p.message + 1 < |msgs| && c.msgsize + k < |msgs[p.message + 1]|
                && p.words[k] == msgs[p.message + 1][c.msgsize + k]
      ensures forall j, k :: 0 <= j < k < c.msgsize ==> p.marks[j] <= p.marks[k]
    {
      hide Showing;
      assert Recorded(c, msgs, [], p);
      var m, after := msgs[p.message][..c.msgsize], StampAfter(c, msgs, p.message, []);
      assert forall k :: 0 <= k < |p.stamp| ==> p.stamp[k] == after[k];
    }

    /** The interface sends one word; before the first word of a period it takes over the half completed last. */
    method Tiss(ghost next: seq<int>) returns (w: int)
      requires Showing() && Sending(next)
      modifies `reg, `active, `pos, `out, `marks, `log
      ensures Showing() && Sending(next) && pos == if old(pos) == c.msgsize then 1 else old(pos) + 1
      ensures if old(pos) == c.msgsize then
                && reg == old(reg).(tissAddr := old(reg.hostAddr)) && active == |msgs| - 1
                && log == old(log) + [Period(old(active), old(Stamp(reg.tissAddr)), old(marks), old(out))]
                && out == [w] && marks == [|Stamp(reg.tissAddr)|]
              else
                && reg == old(reg) && active == old(active) && log == old(log)
                && out == old(out) + [w] && marks == old(marks) + [|Stamp(reg.tissAddr)|]
    {
      hide Showing, Carries, AllRecorded, StampAfter;
      if pos == c.msgsize { TakeOver(next); }
      w := SendWord(next);
    }

    /** A period is over, and the next one begins. */
    method TakeOver(ghost next: seq<int>)
      requires Showing() && Sending(next) && pos == c.msgsize
      modifies `reg, `active, `pos, `out, `marks, `log
      ensures Showing() && Sending(next) && pos == 0 < c.msgsize && out == [] && marks == []
      ensures reg == old(reg).(tissAddr := old(reg.hostAddr)) && active == |msgs| - 1
      ensures log == old(log) + [Period(old(active), old(Stamp(reg.tissAddr)), old(marks), old(out))]
    {
      hide Carries, StampAfter, Over, Half, Recorded, AllRecorded, Shown;
      ghost var p := Period(active, Stamp(reg.tissAddr), marks, out);
      RecordedAlso(c, msgs, next, log, p);
      log := log + [p];
      NextIsLast(next);
      reg := reg.(tissAddr := reg.hostAddr);
      active := |msgs| - 1;
      pos, out, marks := 0, [], [];
      CarriesNone(Stamp(reg.tissAddr), Last()[..c.msgsize]);
    }

    method SendWord(ghost next: seq<int>) returns (w: int)
      requires Showing() && Sending(next) && pos < c.msgsize
      modifies `pos, `out, `marks
      ensures Showing() && Sending(next) && pos == old(pos) + 1
      ensures out == old(out) + [w] && marks == old(marks) + [|Stamp(reg.tissAddr)|]
    {
      hide Carries, AllRecorded, StampAfter, Over;
      w := mem[reg.tissAddr + pos];
      assert w == Half(reg.tissAddr)[pos];
      assert pos == |out| == |marks| by { CarriesSame(out, marks, Stamp(reg.tissAddr), msgs[active][..c.msgsize]); }
      CarriesMore(out, marks, Stamp(reg.tissAddr), msgs[active][..c.msgsize]);
      out, marks := out + [w], marks + [|Stamp(reg.tissAddr)|];
      pos := pos + 1;
    }

    /** Any number of words. */
    method Interfere(words: nat, ghost next: seq<int>)
      requires Showing() && Sending(next)
      modifies `reg, `active, `pos, `out, `marks, `log
      ensures Showing() && Sending(next) && reg.hostAddr == old(reg.hostAddr) && old(log) <= log
      ensures if words <= c.msgsize - old(pos) then reg == old(reg) && active == old(active) && log == old(log)
              else reg.tissAddr == reg.hostAddr
      ensures old(reg.hostAddr == reg.tissAddr) ==> reg == old(reg) && active == old(active)
    {
      hide Carries, AllRecorded, Half, Shown, StampAfter;
      for i := 0 to words
        invariant Showing() && Sending(next) && reg.hostAddr == old(reg.hostAddr) && old(log) <= log
        invariant if i <= c.msgsize - old(pos) then
                    reg == old(reg) && active == old(active) && log == old(log) && pos == old(pos) + i
                  else reg.tissAddr == reg.hostAddr && active == |msgs| - 1
        invariant old(reg.hostAddr == reg.tissAddr) ==> reg == old(reg) && active == old(active)
      {
        var _ := Tiss(next);
      }
    }

    /** The host has stored the first words of a message into the shadow half at off. */
    ghost predicate Filling(off: int, words: seq<int>)
      reads this
    {
      && Showing() && reg.hostAddr == reg.tissAddr && |words| <= Words(c)
      && off == (if reg.tissAddr == 0 then c.msgsize else 0)
      && (forall i :: 0 <= i < |words| && i < c.msgsize ==> mem[off + i] == words[i])
      && (off == 0 ==> over == if |words| <= c.msgsize then [] else words[c.msgsize..])
      && Sending(Stamp(reg.tissAddr))
    }

    method Wait(words: nat, ghost off: int, ghost msg: seq<int>, ghost n: nat) returns (ghost shows: seq<int>)
      requires n <= |msg| && Filling(off, msg[..n])
      modifies `reg, `active, `pos, `out, `marks, `log
      ensures Filling(off, msg[..n]) && reg == old(reg) && old(log) <= log
      ensures msgs != [] && |Last()| == Words(c) && shows == Sends(c, Last(), off == 0, msg, n)
      ensures 0 <= reg.tissAddr && reg.tissAddr + c.msgsize <= |mem| && shows == Half(reg.tissAddr)
    {
      hide Sending;
      Interfere(words, Stamp(reg.tissAddr));
      shows := Half(reg.tissAddr);
      assert |msg[..n]| == n && (n > c.msgsize ==> msg[..n][c.msgsize..] == msg[c.msgsize..n]);
    }

    /** The copy of a message, word by word. */
    method Fill(msg: seq<int>, off: int, bursts: nat -> nat) returns (ghost shows: seq<seq<int>>)
      requires Filling(off, []) && |msg| == Words(c)
      modifies `reg, `active, `pos, `out, `marks, `log, `mem, `over
      ensures Filling(off, msg) && reg == old(reg) && old(log) <= log
      ensures msgs != [] && |Last()| == Words(c) && Shows(c, Last(), off == 0, msg, shows) && |shows| == Words(c)
    {
      assert msgs != [] && |Last()| == Words(c);
      hide Over, Half, Sends, Sending, Showing, Filling, Shows;
      shows := [];
      NoShows(c, Last(), off == 0, msg);
      TakeNone(msg);
      for i := 0 to Words(c)
        invariant Filling(off, msg[..i]) && reg == old(reg) && old(log) <= log
        invariant |shows| == i && Shows(c, Last(), off == 0, msg, shows)
      {
        ghost var s := FillOne(msg, off, i, bursts(1 + i));
        OneMoreShows(c, Last(), off == 0, msg, shows, s);
        shows := shows + [s];
      }
      TakeAll(msg);
    }

    method FillOne(msg: seq<int>, off: int, i: nat, words: nat) returns (ghost shows: seq<int>)
      requires i < |msg| == Words(c) && Filling(off, msg[..i])
      modifies `reg, `active, `pos, `out, `marks, `log, `mem, `over
      ensures Filling(off, msg[..i + 1]) && reg == old(reg) && old(log) <= log
      ensures msgs != [] && |Last()| == Words(c) && shows == Sends(c, Last(), off == 0, msg, i)
    {
      hide Over, Half, Sends, Sending, Showing, Filling;
      shows := Wait(words, off, msg, i);
      Store(off, i, msg[i], msg[..i]);
      TakeOne(msg, i);
    }

    /** ttsoc_getMsgPtr */
    method Begin(words: nat) returns (status: Status, off: int, ghost shows: seq<int>)
      requires Valid()
      modifies `reg, `active, `pos, `out, `marks, `log
      ensures Valid() && reg.hostAddr == old(reg.hostAddr) && shows == Half(reg.hostAddr) == Last()[..c.msgsize]
      ensures old(log) <= log
      ensures if status == Success then Filling(off, []) && (off == 0 <==> reg.hostAddr != 0)
              else status == Busy && reg == old(reg)
      ensures status == Busy <==> old(reg.hostAddr != reg.tissAddr) && words <= c.msgsize - old(pos)
    {
      hide Sending;
      Interfere(words, []);
      shows := Half(reg.hostAddr);
      var r := GetMsgPtr(c, reg);
      status, off := r.0, r.1;
    }

    /** ttsoc_iterMsgPtr */
    method Iterate(msg: seq<int>, ghost off: int, bursts: nat -> nat) returns (ghost shows: seq<seq<int>>)
      requires Filling(off, msg) && |msg| == Words(c)
      modifies this
      ensures Valid() && msgs == old(msgs) + [msg] && old(log) <= log
      ensures |shows| == 2 && shows[0] == shows[1] == Sends(c, old(Last()), off == 0, msg, Words(c))
    {
      hide Over, Half, Sends, Sending;
      TakeAll(msg);
      ghost var s := Wait(bursts(1 + Words(c)), off, msg, Words(c));
      var pflag := reg;
      ghost var s' := Wait(bursts(2 + Words(c)), off, msg, Words(c));
      shows := [s, s'];
      Complete(msg, off, IterMsgPtr(c, pflag).hostAddr);
    }

    method Complete(msg: seq<int>, ghost off: int, next: int)
      requires Filling(off, msg) && |msg| == Words(c) && next == off
      modifies `msgs, `reg, `over
      ensures Valid() && msgs == old(msgs) + [msg]
    {
      hide Carries, AllRecorded, StampAfter, Over;
      ghost var was, stamp := msgs, Stamp(reg.tissAddr);
      RecordedStill(c, was, stamp, msg, log);
      msgs := msgs + [msg];
      reg := reg.(hostAddr := next);
      if next != 0 { over := []; }
      assert Half(off) == msg[..c.msgsize];
      StampOfLast(was, msg);
    }

    lemma StampOfLast(was: seq<seq<int>>, msg: seq<int>)
      requires was != [] && |msg| >= c.msgsize
      ensures StampAfter(c, was + [msg], |was| - 1, []) == msg[c.msgsize..]
    {}

    /** One word of the message; over the upper half, one word of a time stamp. */
    method Store(off: int, i: nat, v: int, ghost words: seq<int>)
      requires Filling(off, words) && i == |words| < Words(c)
      modifies `mem, `over
      ensures Filling(off, words + [v])
    {
      if off == 0 && i >= c.msgsize { StoreOver(i, v, words); } else { StoreAside(off, i, v, words); }
    }

    method StoreAside(off: int, i: nat, v: int, ghost words: seq<int>)
      requires Filling(off, words) && i == |words| < Words(c) && (off == 0 ==> i < c.msgsize)
      modifies `mem
      ensures Filling(off, words + [v])
    {
      hide Carries, AllRecorded, StampAfter, Over;
      ghost var before, a := mem, reg.tissAddr;
      mem := mem[off + i := v];
      assert Half(a) == before[a..a + c.msgsize];
    }

    method StoreOver(i: nat, v: int, ghost words: seq<int>)
      requires Filling(0, words) && i == |words| < Words(c) && i >= c.msgsize
      modifies `mem, `over
      ensures Filling(0, words + [v])
    {
      hide Carries, AllRecorded, StampAfter, Over, Half, Shown;
      ghost var o := over;
      PutOver(i, v);
      CarriesLonger(out, marks, o, [v], Last()[..c.msgsize]);
      RecordedLonger(c, msgs, o, v, log);
      NextIsLast(over);
    }

    method PutOver(i: nat, v: int)
      requires Showing() && reg.hostAddr == reg.tissAddr != 0 && |over| == i - c.msgsize && i < Words(c)
      modifies `mem, `over
      ensures Showing() && over == old(over) + [v] && mem == old(mem)[i := v]
    {
      hide Over;
      ghost var h, o, a := Half(reg.tissAddr), over, reg.tissAddr;
      mem := mem[i := v];
      over := over + [v];
      assert Half(a) == if |o| < c.msgsize then h[|o| := v] else h;
      OverOne(Last()[..c.msgsize], o, v);
    }

    lemma TakeOne(s: seq<int>, i: nat)
      requires i < |s|
      ensures s[..i + 1] == s[..i] + [s[i]]
    {}

    lemma TakeNone(s: seq<int>)
      ensures s[..0] == []
    {}

    lemma TakeAll(s: seq<int>)
      ensures s[..|s|] == s
    {}

    lemma NextIsLast(next: seq<int>)
      requires msgs != []
      ensures StampAfter(c, msgs, |msgs| - 1, next) == next
    {}

    /** ttsoc_sendMsg. The interface sends bursts(n) words before the host's n-th access, and the half it sends from
        shows shows[n] then. The port is busy until the interface has taken over the message completed before. */
    method SendMsg(msg: seq<int>, bursts: nat -> nat) returns (status: Status, ghost shows: seq<seq<int>>)
      requires Valid() && |msg| == c.msgsize + if c.timestamp then 2 else 0
      modifies this
      ensures Valid() && old(log) <= log
      ensures status == Success || status == Busy
      ensures msgs == if status == Success then old(msgs) + [msg] else old(msgs)
      ensures status == Busy <==> old(reg.hostAddr != reg.tissAddr) && bursts(0) <= c.msgsize - old(pos)
      ensures status == Busy ==> reg == old(reg)
      ensures status == Success ==> Sent(c, old(Last()), old(reg.hostAddr) != 0, msg, shows)
    {
      hide Over, Half, Sends, Sent, Shown, Sending, Shows;
      ghost var last := Last();
      ghost var first;
      var off;
      status, off, first := Begin(bursts(0));
      shows := [first];
      if status != Success { return; }
      ghost var mid := Fill(msg, off, bursts);
      ghost var rest := Iterate(msg, off, bursts);
      SentInOrder(c, last, off == 0, msg, first, mid, rest);
      shows := [first] + mid + rest;
    }
  }
}
