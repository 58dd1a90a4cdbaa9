/** String values in a configuration file: how they are escaped into a line, and how a line read back is unescaped in
    place. */
module ConfString {
  import opened Options

  const NUL: char := '\0'
  const LINE_SIZE: nat := 1024

  predicate IsSpecial(c: char) { c == '"' || c == '\\' }

  // ----- meaning -----

  function Escape(s: string): string {
    if s == [] then [] else EscapeChar(s[0]) + Escape(s[1..])
  }

  function EscapeChar(c: char): string { if IsSpecial(c) then ['\\', c] else [c] }

  /** The text up to the first quote that no backslash escapes; nothing when there is none. */
  function Unescape(t: string): Option<string> {
    if t == [] then None
    else if t[0] == '"' then Some([])
    else if t[0] != '\\' then Prepend([t[0]], Unescape(t[1..]))
    else if |t| == 1 then None
    else Prepend([t[1]], Unescape(t[2..]))
  }

  function Prepend(s: string, o: Option<string>): Option<string> {
    if o.Some? then Some(s + o.value) else None
  }

  lemma PrependPrepend(s: string, t: string, o: Option<string>)
    ensures Prepend(s, Prepend(t, o)) == Prepend(s + t, o)
  {
    if o.Some? { assert s + (t + o.value) == s + t + o.value; }
  }

  lemma {:induction false} EscapeAppend(s: string, t: string)
    ensures Escape(s + t) == Escape(s) + Escape(t)
  {
    hide Escape, EscapeChar;
    if s == [] {
      assert s + t == t;
      EscapeEmpty();
    } else {
      EscapeAppend(s[1..], t);
      EscapeFirst(s);
      EscapeFirst(s + t);
      assert (s + t)[1..] == s[1..] + t;
    }
  }

  lemma EscapeEmpty()
    ensures Escape([]) == []
  {}

  lemma EscapeFirst(s: string)
    requires s != []
    ensures Escape(s) == EscapeChar(s[0]) + Escape(s[1..])
  {}

  predicate Plain(s: string) { forall i :: 0 <= i < |s| ==> !IsSpecial(s[i]) }

  lemma {:induction false} EscapePlain(s: string)
    requires Plain(s)
    ensures Escape(s) == s
  {
    if s != [] { EscapePlain(s[1..]); }
  }

  lemma {:induction false} UnescapePlain(s: string, t: string)
    requires Plain(s)
    ensures Unescape(s + t) == Prepend(s, Unescape(t))
  {
    if s == [] {
      assert s + t == t;
      if Unescape(t).Some? { assert s + Unescape(t).value == Unescape(t).value; }
    } else {
      assert (s + t)[1..] == s[1..] + t && (s + t)[0] == s[0] && !IsSpecial(s[0]);
      UnescapePlain(s[1..], t);
      PrependPrepend([s[0]], s[1..], Unescape(t));
      assert [s[0]] + s[1..] == s;
    }
  }

  /** Escaping is undone whatever the string, and whatever follows the closing quote. */
  lemma {:induction false} UnescapeEscape(s: string, rest: string)
    ensures Unescape(Escape(s) + "\"" + rest) == Some(s)
  {
    var t := Escape(s) + "\"" + rest;
    if s != [] {
      UnescapeEscape(s[1..], rest);
      var u := Escape(s[1..]) + "\"" + rest;
      assert t == EscapeChar(s[0]) + u;
      assert if IsSpecial(s[0]) then t[2..] == u else t[1..] == u;
      assert [s[0]] + s[1..] == s;
    }
  }

  /** An escaped string has no closing quote of its own, and neither has any part of it that a line may be cut to. */
  lemma {:induction false} UnescapeCut(s: string, k: nat)
    requires k <= |Escape(s)|
    ensures Unescape(Escape(s)[..k]) == None
    decreases |s|
  {
    if s != [] && k > 0 {
      var w := if IsSpecial(s[0]) then 2 else 1;
      var e := Escape(s[1..]);
      if k >= w {
        UnescapeCut(s[1..], k - w);
        assert Escape(s)[..k][w..] == e[..k - w];
      }
    }
  }

  // ----- writing -----

  function AssignmentLine(name: string, value: string): string {
    "CONFIG_" + name + "=\"" + Escape(value) + "\"\n"
  }

  /** strcspn: how many characters from i on come before the next special one. */
  method StrCSpn(s: string, i: nat) returns (l: nat)
    requires i <= |s|
    ensures i + l <= |s| && Plain(s[i..i + l]) && (i + l < |s| ==> IsSpecial(s[i + l]))
  {
    l := 0;
    while i + l < |s| && s[i + l] != '"' && s[i + l] != '\\'
      invariant i + l <= |s| && Plain(s[i..i + l])
    {
      assert s[i..i + l + 1] == s[i..i + l] + [s[i + l]];
      l := l + 1;
    }
  }

  /** The S_STRING branch of conf_write. */
  method WriteString(name: string, value: string) returns (out: string)
    ensures out == AssignmentLine(name, value)
  {
    hide Escape;
    out := "CONFIG_" + name + "=\"";
    ghost var head := out;
    var i := 0;
    EscapePlain([]);
    while true
      invariant i <= |value| && out == head + Escape(value[..i])
      decreases |value| - i
    {
      var l := StrCSpn(value, i);
      if l > 0 {
        EscapeAppend(value[..i], value[i..i + l]);
        EscapePlain(value[i..i + l]);
        assert value[..i + l] == value[..i] + value[i..i + l];
        out := out + value[i..i + l];
        i := i + l;
      }
      if i == |value| { break; }
      EscapeAppend(value[..i], [value[i]]);
      EscapeSpecial(value[i]);
      assert value[..i + 1] == value[..i] + [value[i]];
      out := out + ['\\', value[i]];
      i := i + 1;
    }
    assert value[..i] == value;
    out := out + "\"\n";
  }

  lemma EscapeSpecial(c: char)
    requires IsSpecial(c)
    ensures Escape([c]) == ['\\', c]
  {
    assert [c][1..] == [];
  }

  // ----- reading -----

  /** The string in memory from p to the zero at n. */
  predicate IsCString(m: seq<char>, p: nat, n: nat) {
    p <= n < |m| && m[n] == NUL && forall i :: p <= i < n ==> m[i] != NUL
  }

  /** strpbrk for the two special characters. */
  method StrPBrk(a: array<char>, p: nat, ghost n: nat) returns (q: Option<nat>)
    requires IsCString(a[..], p, n)
    ensures match q
            case None => Plain(a[p..n])
            case Some(i) => p <= i < n && Plain(a[p..i]) && IsSpecial(a[i])
  {
    var i := p;
    while a[i] != NUL
      invariant p <= i <= n && Plain(a[p..i])
      decreases n - i
    {
      if a[i] == '"' || a[i] == '\\' { return Some(i); }
      assert a[p..i + 1] == a[p..i] + [a[i]];
      i := i + 1;
    }
    return None;
  }

  /** memmove(q, q + 1, strlen(q)): the string at q loses its first character. */
  method DropChar(a: array<char>, q: nat, ghost n: nat)
    requires IsCString(a[..], q, n) && q < n
    modifies a
    ensures a[..] == old(a[..q]) + old(a[q + 1..n + 1]) + old(a[n..])
  {
    var len := 0;
    while a[q + len] != NUL
      invariant q + len <= n
      decreases n - len
    {
      len := len + 1;
    }
    forall i | q <= i < q + len { a[i] := a[i + 1]; }
  }

  /** What conf_set_sym_val makes of a string symbol's text. */
  datatype Outcome = NotQuoted | Invalid | Value(value: string)

  function StringValue(t: string): Outcome {
    if t == [] || t[0] != '"' then NotQuoted
    else match Unescape(t[1..])
         case None => Invalid
         case Some(v) => Value(v)
  }

  /** One step of unescaping: the text from p2 on after a backslash at q. */
  lemma UnescapeStep(t: string, k: nat)
    requires k + 1 < |t| && Plain(t[..k]) && t[k] == '\\'
    ensures Unescape(t) == Prepend(t[..k] + [t[k + 1]], Unescape(t[k + 2..]))
  {
    assert t == t[..k] + t[k..];
    UnescapePlain(t[..k], t[k..]);
    assert t[k..][1] == t[k + 1] && t[k..][2..] == t[k + 2..];
    PrependPrepend(t[..k], [t[k + 1]], Unescape(t[k + 2..]));
  }

  lemma UnescapeEnd(t: string, k: nat)
    requires k <= |t| && Plain(t[..k]) && (k < |t| ==> t[k] == '"' || (t[k] == '\\' && k + 1 == |t|))
    ensures Unescape(t) == if k < |t| && t[k] == '"' then Some(t[..k]) else None
  {
    assert t == t[..k] + t[k..];
    UnescapePlain(t[..k], t[k..]);
    if k < |t| && t[k] == '"' { assert t[..k] + [] == t[..k]; }
  }

  /** strdup */
  method StrDup(a: array<char>, p: nat, ghost n: nat) returns (s: string)
    requires IsCString(a[..], p, n)
    ensures s == a[p..n]
  {
    s := [];
    var i := p;
    while a[i] != NUL
      invariant p <= i <= n && s == a[p..i]
      decreases n - i
    {
      s := s + [a[i]];
      i := i + 1;
    }
  }

  /** The memory before and after the character at i is dropped. */
  lemma Dropped(m: seq<char>, m': seq<char>, p: nat, i: nat, n: nat)
    requires IsCString(m, p, n) && p <= i && i + 1 < n && m' == m[..i] + m[i + 1..n + 1] + m[n..]
    ensures IsCString(m', p, n - 1) && m'[p..i + 1] == m[p..i] + [m[i + 1]] && m'[i + 1..n - 1] == m[i + 2..n]
  {
    assert forall k :: i <= k < n ==> m'[k] == m[k + 1];
  }

  /** The search for the closing quote stands at p2: what lies before it is unescaped. Once a backslash has been
      dropped from the very end of the string, the search is over. */
  ghost predicate Scanning(m: seq<char>, p: nat, p2: nat, n: nat, over: bool, text: string) {
    && p <= p2 && IsCString(m, p2, n)
    && (if over then p2 == n && Unescape(text) == None
        else IsCString(m, p, n) && Unescape(text) == Prepend(m[p..p2], Unescape(m[p2..n])))
  }

  lemma ScanStart(m: seq<char>, p: nat, n: nat)
    requires IsCString(m, p, n)
    ensures Scanning(m, p, p, n, false, m[p..n])
  {
    EmptyPrefix(Unescape(m[p..n]));
    assert m[p..p] == [];
  }

  lemma ScanFails(m: seq<char>, p: nat, p2: nat, n: nat, over: bool, text: string)
    requires Scanning(m, p, p2, n, over, text) && Plain(m[p2..n])
    ensures Unescape(text) == None
  {
    if !over { UnescapeEnd(m[p2..n], n - p2); }
  }

  lemma ScanEnds(m: seq<char>, p: nat, p2: nat, n: nat, over: bool, text: string, i: nat)
    requires Scanning(m, p, p2, n, over, text) && p2 <= i < n && Plain(m[p2..i]) && m[i] == '"'
    ensures Unescape(text) == Some(m[p..i]) && IsCString(m[i := NUL], p, i) && m[i := NUL][p..i] == m[p..i]
  {
    var rest := m[p2..n];
    assert rest[..i - p2] == m[p2..i] && rest[i - p2] == m[i];
    UnescapeEnd(rest, i - p2);
    assert m[p..p2] + m[p2..i] == m[p..i];
  }

  /** A backslash at the very end of the string. */
  lemma ScanDropsLast(m: seq<char>, p: nat, p2: nat, n: nat, over: bool, text: string, m': seq<char>)
    requires Scanning(m, p, p2, n, over, text) && p2 < n && Plain(m[p2..n - 1]) && m[n - 1] == '\\'
    requires m' == m[..n - 1] + m[n..n + 1] + m[n..]
    ensures Scanning(m', p, n, n, true, text)
  {
    hide Unescape, Plain;
    var rest, k := m[p2..n], n - 1 - p2;
    assert rest[..k] == m[p2..n - 1] && rest[k] == m[n - 1];
    UnescapeEnd(rest, k);
    assert m'[n] == m[n];
  }

  /** A backslash with a character after it. */
  lemma ScanDropsOne(m: seq<char>, p: nat, p2: nat, n: nat, over: bool, text: string, i: nat, m': seq<char>)
    requires Scanning(m, p, p2, n, over, text) && p2 <= i && i + 1 < n && Plain(m[p2..i]) && m[i] == '\\'
    requires m' == m[..i] + m[i + 1..n + 1] + m[n..]
    ensures Scanning(m', p, i + 1, n - 1, false, text)
  {
    hide Unescape, Plain, Prepend;
    DroppedStep(m[p2..n], i - p2, m[p2..i], m[i + 1], m[i + 2..n]);
    var before := m[p2..i] + [m[i + 1]];
    PrependPrepend(m[p..p2], before, Unescape(m[i + 2..n]));
    assert m[p..p2] + before == m[p..i] + [m[i + 1]];
    Dropped(m, m', p, i, n);
  }

  lemma DroppedStep(rest: string, k: nat, before: string, c: char, after: string)
    requires k + 1 < |rest| && rest[..k] == before && rest[k + 1] == c && rest[k + 2..] == after
    requires Plain(before) && rest[k] == '\\'
    ensures Unescape(rest) == Prepend(before + [c], Unescape(after))
  {
    hide Unescape, Plain, Prepend;
    UnescapeStep(rest, k);
  }

  lemma ScanDrops(m: seq<char>, p: nat, p2: nat, n: nat, over: bool, text: string, i: nat, m': seq<char>)
    requires Scanning(m, p, p2, n, over, text) && p2 <= i < n && Plain(m[p2..i]) && m[i] == '\\'
    requires m' == m[..i] + m[i + 1..n + 1] + m[n..]
    ensures Scanning(m', p, i + 1, if i + 1 == n then n else n - 1, i + 1 == n, text)
  {
    hide Scanning, Unescape, Plain;
    if i + 1 == n {
      ScanDropsLast(m, p, p2, n, over, text, m');
    } else {
      ScanDropsOne(m, p, p2, n, over, text, i, m');
    }
  }

  /** The S_STRING branch of conf_set_sym_val on the string at p0. */
  method SetStringVal(a: array<char>, p0: nat, ghost n0: nat) returns (r: Outcome)
    requires p0 <= n0 < a.Length && a[n0] == NUL && NUL !in a[p0..n0]
    modifies a
    ensures r == StringValue(old(a[p0..n0]))
  {
    hide Unescape, Scanning;
    if a[p0] != '"' { return NotQuoted; }
    var p := p0 + 1;
    var p2 := p;
    ghost var n, over, text := n0, false, a[..][p..n0];
    assert a[p0..n0][1..] == text;
    ScanStart(a[..], p, n);
    while true
      invariant p <= p2 <= n < a.Length && IsCString(a[..], p2, n) && Scanning(a[..], p, p2, n, over, text)
      decreases n - p2, !over
    {
      ghost var m := a[..];
      var q := StrPBrk(a, p2, n);
      if q.None? {
        ScanFails(m, p, p2, n, over, text);
        return Invalid;
      }
      var i := q.value;
      if a[i] == '"' {
        ScanEnds(m, p, p2, n, over, text, i);
        a[i] := NUL;
        var v := StrDup(a, p, i);
        return Value(v);
      }
      DropChar(a, i, n);
      ScanDrops(m, p, p2, n, over, text, i, a[..]);
      p2, over, n := i + 1, i + 1 == n, if i + 1 == n then n else n - 1;
      ScanBounds(a[..], p, p2, n, over, text);
    }
  }

  lemma ScanBounds(m: seq<char>, p: nat, p2: nat, n: nat, over: bool, text: string)
    requires Scanning(m, p, p2, n, over, text)
    ensures p <= p2 && IsCString(m, p2, n)
  {}

  lemma EmptyPrefix(o: Option<string>)
    ensures Prepend([], o) == o
  {
    if o.Some? { assert [] + o.value == o.value; }
  }

  // ----- lines -----

  /** The first place of c from i on, the end of the string when there is none. */
  function IndexOf(s: string, i: nat, c: char): (k: nat)
    requires i <= |s|
    ensures i <= k <= |s| && c !in s[i..k] && (k < |s| ==> s[k] == c)
    decreases |s| - i
  {
    if i == |s| || s[i] == c then i else IndexOf(s, i + 1, c)
  }

  lemma {:induction false} IndexOfIs(s: string, i: nat, c: char, k: nat)
    requires i <= k <= |s| && c !in s[i..k] && (k < |s| ==> s[k] == c)
    ensures IndexOf(s, i, c) == k
    decreases k - i
  {
    if i < k {
      assert s[i] in s[i..k] && s[i..k][1..] == s[i + 1..k];
      IndexOfIs(s, i + 1, c, k);
    }
  }

  /** fgets: the next line with its newline, cut to what the buffer holds beside the final zero. */
  function FGets(file: string): string {
    var k := IndexOf(file, 0, '\n');
    var e := if k < |file| then k + 1 else k;
    file[..if e < LINE_SIZE then e else LINE_SIZE - 1]
  }

  datatype Line = Unexpected | NoAssignment | Assign(name: string, outcome: Outcome)

  /** A line of a configuration file that concerns a string symbol. */
  function ParseLine(t: string): Line {
    if |t| < 7 || t[..7] != "CONFIG_" then Unexpected
    else
      var j := IndexOf(t, 7, '=');
      if j == |t| then NoAssignment
      else Assign(t[7..j], StringValue(StripNewline(t[j + 1..])))
  }

  function StripNewline(t: string): string {
    var k := IndexOf(t, 0, '\n');
    if k < |t| && k > 0 && t[k - 1] == '\r' then t[..k - 1] else t[..k]
  }

  method StrChr(a: array<char>, p: nat, c: char, ghost n: nat) returns (q: Option<nat>)
    requires IsCString(a[..], p, n) && c != NUL
    ensures var k := IndexOf(a[p..n], 0, c); q == if k < n - p then Some(p + k) else None
  {
    var i := p;
    while a[i] != NUL && a[i] != c
      invariant p <= i <= n && c !in a[p..i]
      decreases n - i
    {
      assert a[p..i + 1] == a[p..i] + [a[i]];
      i := i + 1;
    }
    assert a[p..n][0..i - p] == a[p..i];
    IndexOfIs(a[p..n], 0, c, i - p);
    return if a[i] == NUL then None else Some(i);
  }

  /** The string is cut in two at i. */
  method Cut(a: array<char>, p: nat, i: nat, ghost n: nat)
    requires IsCString(a[..], p, n) && p <= i < n
    modifies a
    ensures a[i] == NUL && a[p..i] == old(a[p..i]) && a[i + 1..n] == old(a[i + 1..n])
    ensures IsCString(a[..], p, i) && IsCString(a[..], i + 1, n)
  {
    a[i] := NUL;
  }

  /** The assignment case of conf_read_simple, on the line in the buffer. */
  method ReadLine(a: array<char>, ghost n: nat) returns (r: Line)
    requires n < a.Length && 8 <= a.Length && a[n] == NUL && NUL !in a[..n]
    modifies a
    ensures r == ParseLine(old(a[..n]))
  {
    hide StringValue, StripNewline;
    ghost var t := a[..n];
    if a[..7] != "CONFIG_" {
      assert n >= 7 ==> a[..7] == t[..7];
      return Unexpected;
    }
    assert forall i :: 0 <= i < 7 ==> a[i] == a[..7][i] != NUL;
    assert a[..7] == t[..7];
    var q := StrChr(a, 7, '=', n);
    IndexOfPart(t, 7, '=');
    assert a[7..n] == t[7..];
    if q.None? { return NoAssignment; }
    var j := q.value;
    ghost var rest := t[j + 1..];
    assert a[7..j] == t[7..j] && a[j + 1..n] == rest;
    Cut(a, 7, j, n);
    var name := StrDup(a, 7, j);
    var o := ReadValue(a, j + 1, n);
    return Assign(name, o);
  }

  /** Strips the newline, with a carriage return before it, and reads the value. */
  method ReadValue(a: array<char>, p: nat, ghost n: nat) returns (o: Outcome)
    requires IsCString(a[..], p, n) && p > 0 && a[p - 1] == NUL
    modifies a
    ensures o == StringValue(StripNewline(old(a[p..n])))
  {
    hide StringValue;
    ghost var rest, end := a[p..n], n;
    var p2 := StrChr(a, p, '\n', n);
    if p2.Some? {
      var k := p2.value;
      a[k] := NUL;
      end := k;
      if a[k - 1] == '\r' {
        a[k - 1] := NUL;
        end := k - 1;
      }
    }
    assert a[p..end] == StripNewline(rest);
    o := SetStringVal(a, p, end);
  }

  lemma IndexOfPart(t: string, i: nat, c: char)
    requires i <= |t|
    ensures IndexOf(t, i, c) == i + IndexOf(t[i..], 0, c)
  {
    var k := IndexOf(t[i..], 0, c);
    assert t[i..][0..k] == t[i..i + k];
    IndexOfIs(t, i, c, i + k);
  }

  // ----- the round trip -----

  lemma {:induction false} EscapeKeeps(s: string, c: char)
    requires c != '\\'
    ensures c in Escape(s) <==> c in s
  {
    if s != [] {
      EscapeKeeps(s[1..], c);
      assert s == [s[0]] + s[1..];
    }
  }

  predicate Name(name: string) { '=' !in name && '\n' !in name }

  function Head(name: string): string { "CONFIG_" + name + "=" }

  lemma ParseHead(name: string, rest: string)
    requires Name(name)
    ensures ParseLine(Head(name) + rest) == Assign(name, StringValue(StripNewline(rest)))
  {
    var t := Head(name) + rest;
    assert t[..7] == "CONFIG_";
    assert t[7..7 + |name|] == name;
    IndexOfIs(t, 7, '=', 7 + |name|);
    assert t[8 + |name|..] == rest;
  }

  /** A line cut before its equals sign is no assignment. */
  lemma ParseCutHead(name: string, k: nat)
    requires Name(name) && k < |Head(name)|
    ensures !ParseLine(Head(name)[..k]).Assign?
  {
    var t := Head(name)[..k];
    if k >= 7 {
      assert t[7..k] == name[..k - 7];
      IndexOfIs(t, 7, '=', k);
    }
  }

  /** A value cut before its closing quote, with or without a newline after it, is not a string. */
  lemma CutValue(value: string, k: nat, newline: bool)
    requires k <= 1 + |Escape(value)|
    requires !newline ==> '\n' !in ("\"" + Escape(value))[..k]
    requires newline ==>
               && k < 1 + |Escape(value)| && ("\"" + Escape(value))[k] == '\n'
               && '\n' !in ("\"" + Escape(value))[..k]
    ensures !StringValue(StripNewline(("\"" + Escape(value))[..if newline then k + 1 else k])).Value?
  {
    hide Escape, Unescape, StripNewline;
    var q := "\"" + Escape(value);
    var rest := q[..if newline then k + 1 else k];
    assert rest[..k] == q[..k];
    StripsTo(rest, k);
    var v := StripNewline(rest);
    assert v == q[..|v|];
    if v != [] {
      assert v[1..] == Escape(value)[..|v| - 1];
      UnescapeCut(value, |v| - 1);
    }
  }

  /** A line that goes on to its only newline, or has none, is stripped to a prefix of what comes before it. */
  lemma StripsTo(rest: string, k: nat)
    requires k <= |rest| && '\n' !in rest[..k] && (k < |rest| ==> rest[k] == '\n')
    ensures StripNewline(rest) <= rest[..k]
  {
    assert rest[0..k] == rest[..k];
    IndexOfIs(rest, 0, '\n', k);
  }

  /** A string value reads back exactly when it holds no newline and its line, without the newline at the end, fits
      the buffer. */
  lemma WriteThenRead(name: string, value: string, following: string)
    requires Name(name)
    ensures ParseLine(FGets(AssignmentLine(name, value) + following)) == Assign(name, Value(value))
            <==> '\n' !in value && 10 + |name| + |Escape(value)| <= 1023
  {
    EscapeKeeps(value, '\n');
    if '\n' in value {
      BrokenLine(name, value, following);
    } else if 10 + |name| + |Escape(value)| < LINE_SIZE {
      WholeLine(name, value, following);
    } else {
      LongLine(name, value, following);
    }
  }

  lemma FGetsIs(body: string, tail: string)
    requires '\n' !in body
    ensures FGets(body + "\n" + tail) == if |body| + 1 < LINE_SIZE then body + "\n" else body[..LINE_SIZE - 1]
  {
    var file := body + "\n" + tail;
    assert file[0..|body|] == body;
    IndexOfIs(file, 0, '\n', |body|);
  }

  /** The line is one without a newline in it, if the value has none. */
  lemma OneLine(name: string, value: string, following: string)
    requires Name(name) && '\n' !in value
    ensures var body := Head(name) + ("\"" + Escape(value) + "\"");
            AssignmentLine(name, value) + following == body + "\n" + following && '\n' !in body
  {
    hide Escape;
    EscapeKeeps(value, '\n');
    var e := Escape(value);
    assert AssignmentLine(name, value) == Head(name) + ("\"" + e + "\"") + "\n";
    assert '\n' !in "CONFIG_" && '\n' !in "=" && '\n' !in "\"";
  }

  lemma WholeLine(name: string, value: string, following: string)
    requires Name(name) && '\n' !in value && 10 + |name| + |Escape(value)| < LINE_SIZE
    ensures ParseLine(FGets(AssignmentLine(name, value) + following)) == Assign(name, Value(value))
  {
    hide ParseLine, StringValue, StripNewline, Escape, FGets, AssignmentLine, Name;
    var q := "\"" + Escape(value) + "\"";
    OneLine(name, value, following);
    FGetsIs(Head(name) + q, following);
    if |Head(name) + q| + 1 < LINE_SIZE {
      assert Head(name) + q + "\n" == Head(name) + (q + "\n");
      assert q + "\n" == "\"" + Escape(value) + "\"\n";
      ParseHead(name, q + "\n");
      FullValue(value, q + "\n");
    } else {
      assert (Head(name) + q)[..LINE_SIZE - 1] == Head(name) + q;
      ParseHead(name, q);
      FullValue(value, q);
    }
  }

  lemma LongLine(name: string, value: string, following: string)
    requires Name(name) && '\n' !in value && 10 + |name| + |Escape(value)| >= LINE_SIZE
    ensures ParseLine(FGets(AssignmentLine(name, value) + following)) != Assign(name, Value(value))
  {
    hide ParseLine, Escape, FGets, AssignmentLine, Name;
    var body := Head(name) + ("\"" + Escape(value) + "\"");
    var line := Head(name) + "\"" + Escape(value);
    OneLine(name, value, following);
    FGetsIs(body, following);
    assert body == line + "\"";
    assert body[..LINE_SIZE - 1] == line[..LINE_SIZE - 1];
    assert forall i :: 0 <= i < LINE_SIZE - 1 ==> line[i] == body[i];
    CutLine(name, value, LINE_SIZE - 1, false);
  }

  lemma BrokenLine(name: string, value: string, following: string)
    requires Name(name) && '\n' in value
    ensures ParseLine(FGets(AssignmentLine(name, value) + following)) != Assign(name, Value(value))
  {
    hide ParseLine, Escape;
    EscapeKeeps(value, '\n');
    var line := Head(name) + "\"" + Escape(value);
    var file := AssignmentLine(name, value) + following;
    assert file[..|line|] == line;
    var k := IndexOf(Escape(value), 0, '\n');
    assert k < |Escape(value)|;
    var e := |Head(name)| + 1 + k;
    assert line[e] == '\n' && line[..e] == Head(name) + "\"" + Escape(value)[0..k];
    assert file[0..e] == line[..e];
    IndexOfIs(file, 0, '\n', e);
    if e + 1 < LINE_SIZE {
      assert FGets(file) == line[..e + 1];
      CutLine(name, value, e, true);
    } else {
      assert FGets(file) == line[..LINE_SIZE - 1];
      assert line[..LINE_SIZE - 1] == line[..e][..LINE_SIZE - 1];
      CutLine(name, value, LINE_SIZE - 1, false);
    }
  }

  lemma FullValue(value: string, rest: string)
    requires '\n' !in value && (rest == "\"" + Escape(value) + "\"" || rest == "\"" + Escape(value) + "\"\n")
    ensures StringValue(StripNewline(rest)) == Value(value)
  {
    hide Escape, Unescape;
    var v := "\"" + Escape(value) + "\"";
    EscapeKeeps(value, '\n');
    assert rest[0..|v|] == v && '\n' !in v;
    IndexOfIs(rest, 0, '\n', |v|);
    assert StripNewline(rest) == v;
    UnescapeEscape(value, "");
    assert v[1..] == Escape(value) + "\"" + "";
  }

  /** A line cut before the closing quote of its value. */
  lemma CutLine(name: string, value: string, k: nat, newline: bool)
    requires Name(name)
    requires var line := Head(name) + "\"" + Escape(value);
             && k <= |line| && '\n' !in line[..k] && (newline ==> |Head(name)| <= k < |line| && line[k] == '\n')
    ensures var line := Head(name) + "\"" + Escape(value);
            ParseLine(line[..if newline then k + 1 else k]) != Assign(name, Value(value))
  {
    hide ParseLine, StringValue, Escape, StripNewline;
    var h, q := Head(name), "\"" + Escape(value);
    var line := h + "\"" + Escape(value);
    assert line == h + q;
    var e := if newline then k + 1 else k;
    if e < |h| {
      assert line[..e] == h[..e];
      ParseCutHead(name, e);
    } else {
      var rest := q[..e - |h|];
      assert line[..e] == h + rest;
      assert line[..k] == h + q[..k - |h|];
      CutValue(value, k - |h|, newline);
      ParseHead(name, rest);
    }
  }
}
