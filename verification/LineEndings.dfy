/** CleanStringLineEndings (strings/escaping.cc): CR LF, CR and LF become LF, in place, eight
    bytes at a time where none of them can be a line ending. */
module LineEndings {
  import opened Wrappers
  import opened Lines

  // ---- The rewrite -----------------------------------------------------------------

  function Clean(s: Text): Text {
    if s == [] then []
    else if s[0] == CR then [LF] + Clean(if |s| > 1 && s[1] == LF then s[2..] else s[1..])
    else [s[0]] + Clean(s[1..])
  }

  function Ended(t: Text, autoEndLastLine: bool): Text {
    if autoEndLastLine && t != [] && t[|t| - 1] != LF then t + [LF] else t
  }

  function Cleaned(s: Text, autoEndLastLine: bool): Text {
    Ended(Clean(s), autoEndLastLine)
  }

  /** The definition, for a text given by its first byte and the others. */
  lemma CleanHead(c: bv8, rest: Text)
    ensures Clean([c] + rest)
            == if c == CR then [LF] + Clean(if rest != [] && rest[0] == LF then rest[1..] else rest)
               else [c] + Clean(rest)
  {
    var s := [c] + rest;
    assert s[1..] == rest;
    if rest != [] {
      assert s[2..] == rest[1..];
    }
  }

  /** Neither line endings nor anything before them: the text stays. */
  lemma {:induction false} CleanPlain(w: Text, rest: Text)
    requires CR !in w
    ensures Clean(w + rest) == w + Clean(rest)
    decreases |w|
  {
    if w == [] {
      assert w + rest == rest;
    } else {
      assert (w + rest)[1..] == w[1..] + rest;
      CleanPlain(w[1..], rest);
    }
  }

  // ---- What it means ---------------------------------------------------------------

  lemma {:induction false} NoCarriageReturns(s: Text)
    ensures CR !in Clean(s)
    decreases |s|
  {
    if s != [] {
      NoCarriageReturns(s[1..]);
      if |s| > 1 {
        NoCarriageReturns(s[2..]);
      }
    }
  }

  /** Cleaning again changes nothing. */
  lemma Idempotent(s: Text, autoEndLastLine: bool)
    ensures Cleaned(Cleaned(s, autoEndLastLine), autoEndLastLine) == Cleaned(s, autoEndLastLine)
  {
    var t := Cleaned(s, autoEndLastLine);
    NoCarriageReturns(s);
    CleanPlain(t, []);
    assert t + [] == t;
  }

  /** The first line of a text, cleaned. */
  lemma CleanFirstLine(s: Text)
    requires s != []
    ensures Clean(s) == s[..Eol(s)] + (if Terminator(s) == 0 then [] else [LF]) + Clean(AfterLine(s))
  {
    hide Clean, Eol;
    var e := Eol(s);
    CleanPlain(s[..e], s[e..]);
    assert s == s[..e] + s[e..];
    if e < |s| {
      assert s[e..] == [s[e]] + s[e + 1..];
      CleanHead(s[e], s[e + 1..]);
      Associative(s[..e], [LF], Clean(AfterLine(s)));
    } else {
      assert s[e..] == AfterLine(s) == [];
    }
  }

  predicate Unterminated(s: Text) {
    s != [] && !IsEol(s[|s| - 1])
  }

  lemma LastLine(s: Text)
    requires s != []
    ensures AfterLine(s) == [] ==> (Unterminated(s) <==> Terminator(s) == 0)
    ensures AfterLine(s) == [] && Terminator(s) == 0 ==> Eol(s) == |s| && s[Eol(s) - 1] != LF
    ensures AfterLine(s) != [] ==> Terminator(s) != 0 && (Unterminated(s) <==> Unterminated(AfterLine(s)))
  {
    hide Eol;
    var n := Eol(s) + Terminator(s);
    LastOfSlice(s, n);
  }

  lemma LastOfSlice(s: Text, n: nat)
    requires n <= |s|
    ensures n < |s| ==> s[n..] != [] && s[n..][|s[n..]| - 1] == s[|s| - 1]
  {
  }

  lemma CleanEmpty(s: Text)
    ensures Clean(s) == [] <==> s == []
  {
  }

  lemma {:induction false} UnterminatedStays(s: Text)
    ensures Unterminated(s) <==> Clean(s) != [] && Clean(s)[|Clean(s)| - 1] != LF
    decreases |s|
  {
    if s != [] {
      CleanFirstLine(s);
      LastLine(s);
      CleanEmpty(AfterLine(s));
      hide Clean, Eol, Terminator, AfterLine, Unterminated;
      if AfterLine(s) != [] {
        UnterminatedStays(AfterLine(s));
      }
    }
  }

  /** The cleaned text is the lines of the text with LF after each, except that an unterminated
      last line stays unterminated. */
  lemma {:induction false} CleanIsJoined(s: Text)
    ensures Clean(s) + (if Unterminated(s) then [LF] else []) == Joined(Split(s))
    decreases |s|
  {
    if s != [] {
      CleanFirstLine(s);
      LastLine(s);
      CleanEmpty(AfterLine(s));
      CleanIsJoined(AfterLine(s));
      assert Split(s)[1..] == Split(AfterLine(s));
      hide Clean, Eol, Terminator, AfterLine, Unterminated;
      var line, rest := s[..Eol(s)], AfterLine(s);
      if rest != [] {
        var end := if Unterminated(rest) then [LF] else [];
        assert line + [LF] + Clean(rest) + end == line + [LF] + (Clean(rest) + end);
      }
    }
  }

  /** With the last line ended, exactly the lines joined by LF; and in any case the lines the
      line reader sees are the same as before. */
  lemma CleanedKeepsLines(s: Text, autoEndLastLine: bool)
    ensures Cleaned(s, true) == Joined(Split(s))
    ensures Split(Cleaned(s, autoEndLastLine)) == Split(s)
    ensures Cleaned(s, false) + (if s == [] || s[|s| - 1] == 10 || s[|s| - 1] == 13 then [] else [10])
            == Joined(Split(s))
  {
    CleanIsJoined(s);
    UnterminatedStays(s);
    UnterminatedStays(Clean(s));
    SplitIsGood(s);
    SplitOfJoined(Split(s));
    var t := Clean(s);
    NoCarriageReturns(s);
    CleanPlain(t, []);
    assert t + [] == t;
    CleanIsJoined(t);
    SplitIsGood(t);
    SplitOfJoined(Split(t));
  }

  // ---- Eight bytes at a time -------------------------------------------------------

  function Word8(a: bv8, b: bv8, c: bv8, d: bv8, e: bv8, f: bv8, g: bv8, h: bv8): bv64 {
    (a as bv64) | ((b as bv64) << 8) | ((c as bv64) << 16) | ((d as bv64) << 24)
    | ((e as bv64) << 32) | ((f as bv64) << 40) | ((g as bv64) << 48) | ((h as bv64) << 56)
  }

  /** UNALIGNED_LOAD64, on a little-endian machine. */
  function Word(s: Text): bv64
    requires |s| == 8
  {
    Word8(s[0], s[1], s[2], s[3], s[4], s[5], s[6], s[7])
  }

  function Low(v: bv64): bv8 {
    (v & 0xff) as bv8
  }

  function Shifted(v: bv64, k: nat): bv64
    requires k < 8
  {
    match k
    case 0 => v
    case 1 => v >> 8
    case 2 => v >> 16
    case 3 => v >> 24
    case 4 => v >> 32
    case 5 => v >> 40
    case 6 => v >> 48
    case 7 => v >> 56
  }

  /** Byte k of a word, the lowest first. */
  function ByteOf(v: bv64, k: nat): bv8
    requires k < 8
  {
    Low(Shifted(v, k))
  }

  /** has_less(x, '\r' + 1): nonzero if some byte of the word is below 14. */
  function HasLess(x: bv64): bv64 {
    (x - 0x0e0e_0e0e_0e0e_0e0e) & !x & 0x8080_8080_8080_8080
  }

  predicate PlainLane(x: bv64) {
    x & 0xff >= 14
  }

  lemma HasLessLanes(x: bv64)
    ensures HasLess(x) == 0 <==>
            && PlainLane(Shifted(x, 0)) && PlainLane(Shifted(x, 1)) && PlainLane(Shifted(x, 2))
            && PlainLane(Shifted(x, 3)) && PlainLane(Shifted(x, 4)) && PlainLane(Shifted(x, 5))
            && PlainLane(Shifted(x, 6)) && PlainLane(Shifted(x, 7))
  {
  }

  lemma LaneByte(x: bv64)
    ensures PlainLane(x) <==> Low(x) >= 14
  {
  }

  lemma HasLessBytes(x: bv64)
    ensures HasLess(x) == 0 <==> forall k :: 0 <= k < 8 ==> ByteOf(x, k) >= 14
  {
    hide HasLess, Low, PlainLane, Shifted;
    HasLessLanes(x);
    forall k | 0 <= k < 8 ensures PlainLane(Shifted(x, k)) <==> ByteOf(x, k) >= 14 {
      LaneByte(Shifted(x, k));
    }
  }

  predicate AllPlain(s: Text) {
    forall k :: 0 <= k < |s| ==> s[k] >= 14
  }

  /** The test is exact: it fails just when no byte of the word could be a line ending. */
  lemma HasLessIsExact(s: Text)
    requires |s| == 8
    ensures HasLess(Word(s)) == 0 <==> AllPlain(s)
  {
    hide HasLess, Word, ByteOf;
    HasLessBytes(Word(s));
    forall k: nat | k < 8 ensures ByteOf(Word(s), k) == s[k] {
      BytesOfWord(s, k);
    }
  }

  lemma LanesOfWord(a: bv8, b: bv8, c: bv8, d: bv8, e: bv8, f: bv8, g: bv8, h: bv8)
    ensures var v := Word8(a, b, c, d, e, f, g, h);
            && Low(Shifted(v, 0)) == a && Low(Shifted(v, 1)) == b && Low(Shifted(v, 2)) == c && Low(Shifted(v, 3)) == d
            && Low(Shifted(v, 4)) == e && Low(Shifted(v, 5)) == f && Low(Shifted(v, 6)) == g && Low(Shifted(v, 7)) == h
  {
  }

  lemma BytesOfWord(s: Text, k: nat)
    requires |s| == 8 && k < 8
    ensures ByteOf(Word(s), k) == s[k]
  {
    hide Low, Word8, Shifted;
    LanesOfWord(s[0], s[1], s[2], s[3], s[4], s[5], s[6], s[7]);
  }

  // ---- The loop --------------------------------------------------------------------

  function Pending(rSeen: bool): Text {
    if rSeen then [CR] else []
  }

  /** The output so far and the rest of the input make up the whole, and the input not yet read
      is untouched. */
  ghost predicate Progress(was: Text, now: Text, output: nat, input: nat, rSeen: bool) {
    && output + |Pending(rSeen)| <= input <= |was| == |now|
    && now[input..] == was[input..]
    && Clean(was) == now[..output] + Clean(Pending(rSeen) + was[input..])
  }

  lemma StartProgress(was: Text)
    ensures Progress(was, was, 0, 0, false)
  {
    hide Clean;
    assert Pending(false) + was[0..] == was;
    assert was[..0] + Clean(was) == Clean(was);
  }

  /** What one byte adds to the output. */
  function Emitted(rSeen: bool, c: bv8): Text {
    (if rSeen && c != LF then [LF] else []) + (if c == CR then [] else [c])
  }

  lemma CleanStep(rSeen: bool, s: Text)
    requires s != []
    ensures Clean(Pending(rSeen) + s) == Emitted(rSeen, s[0]) + Clean(Pending(s[0] == CR) + s[1..])
  {
    hide Clean, Emitted, Pending;
    var c, rest := s[0], s[1..];
    assert s == [c] + rest;
    CleanHead(c, rest);
    PendingIs(s);
    PendingIs(rest);
    EmittedIs(rSeen, c);
    if rSeen {
      CleanHead(CR, s);
      Associative([LF], [c], Clean(rest));
    }
  }

  lemma PendingIs(s: Text)
    ensures Pending(true) + s == [CR] + s && Pending(false) + s == s
  {
  }

  lemma EmittedIs(rSeen: bool, c: bv8)
    ensures Emitted(rSeen, c) == if c == LF then [LF]
                                 else if c == CR then (if rSeen then [LF] else [])
                                 else if rSeen then [LF] + [c] else [c]
    ensures forall t: Text :: [] + t == t
  {
  }

  lemma ByteStep(was: Text, now: Text, output: nat, input: nat, rSeen: bool)
    requires Progress(was, now, output, input, rSeen) && input < |was|
    ensures now[input] == was[input] && now[input + 1..] == was[input + 1..]
    ensures Clean(was) == now[..output] + Emitted(rSeen, now[input])
                          + Clean(Pending(now[input] == CR) + was[input + 1..])
  {
    hide Clean, Emitted, Pending;
    var s := was[input..];
    assert now[input..] == s;
    assert s[0] == was[input] && s[1..] == was[input + 1..] && now[input..][1..] == now[input + 1..];
    assert now[input..][0] == now[input];
    CleanStep(rSeen, s);
    Associative(now[..output], Emitted(rSeen, s[0]), Clean(Pending(s[0] == CR) + s[1..]));
  }

  lemma WordStep(was: Text, now: Text, output: nat, input: nat)
    requires Progress(was, now, output, input, false) && input + 8 <= |was|
    requires AllPlain(now[input..input + 8])
    ensures now[input + 8..] == was[input + 8..]
    ensures Clean(was) == now[..output] + now[input..input + 8] + Clean(Pending(false) + was[input + 8..])
  {
    hide Clean;
    var w := now[input..input + 8];
    assert now[input..][..8] == w && now[input..][8..] == now[input + 8..];
    assert was[input..] == w + was[input + 8..];
    assert Pending(false) + was[input..] == was[input..];
    assert Pending(false) + was[input + 8..] == was[input + 8..];
    CleanPlain(w, was[input + 8..]);
  }

  lemma LastStep(was: Text, now: Text, output: nat, rSeen: bool, autoEndLastLine: bool)
    requires |now| == |was| && output <= |now| && Progress(was, now, output, |was|, rSeen)
    ensures Cleaned(was, autoEndLastLine)
            == now[..output] + if rSeen || (autoEndLastLine && output > 0 && now[output - 1] != LF) then [LF] else []
  {
    assert was[|was|..] == [];
    assert Clean([CR]) == [LF];
    assert Pending(rSeen) + [] == Pending(rSeen);
  }

  method CopyWord(p: array<bv8>, output: nat, input: nat, v: bv64)
    requires output <= input && input + 8 <= p.Length && v == Word(p[input..input + 8])
    modifies p
    ensures p[..] == old(p[..output] + p[input..input + 8] + p[output + 8..])
  {
    hide Word, ByteOf;
    ghost var w := p[input..input + 8];
    forall k | 0 <= k < 8 ensures ByteOf(v, k) == w[k] {
      BytesOfWord(w, k);
    }
    if output != input {
      forall k | 0 <= k < 8 {
        p[output + k] := ByteOf(v, k);
      }
    }
  }

  /** The body of the loop for one byte. */
  method CleanByte(p: array<bv8>, output: nat, input: nat, rSeen: bool) returns (output': nat, rSeen': bool)
    requires output + |Pending(rSeen)| <= input < p.Length
    modifies p
    ensures output' == output + |Emitted(rSeen, old(p[input]))| <= p.Length
    ensures rSeen' <==> old(p[input]) == CR
    ensures p[..output'] == old(p[..output]) + Emitted(rSeen, old(p[input]))
    ensures p[input + 1..] == old(p[input + 1..])
    ensures output' + |Pending(rSeen')| <= input + 1
  {
    output' := output;
    var c := p[input];
    if c == CR {
      if rSeen {
        p[output'] := LF;
        output' := output' + 1;
      }
      rSeen' := true;
    } else if c == LF {
      if input != output' {
        p[output'] := LF;
      }
      output' := output' + 1;
      rSeen' := false;
    } else {
      if rSeen {
        p[output'] := LF;
        output' := output' + 1;
      }
      rSeen' := false;
      if input != output' {
        p[output'] := c;
      }
      output' := output' + 1;
    }
  }

  method TakeByte(p: array<bv8>, output: nat, input: nat, rSeen: bool, ghost was: Text)
      returns (output': nat, rSeen': bool)
    requires Progress(was, p[..], output, input, rSeen) && input < p.Length
    modifies p
    ensures output' <= input + 1 && Progress(was, p[..], output', input + 1, rSeen')
  {
    hide Clean, Emitted;
    ByteStep(was, p[..], output, input, rSeen);
    output', rSeen' := CleanByte(p, output, input, rSeen);
    assert p[..][..output'] == p[..output'] && p[..][input + 1..] == p[input + 1..];
    assert old(p[..])[..output] == old(p[..output]);
  }

  method TakeWord(p: array<bv8>, output: nat, input: nat, ghost was: Text)
    requires Progress(was, p[..], output, input, false) && input + 8 <= p.Length
    requires HasLess(Word(p[input..input + 8])) == 0
    modifies p
    ensures Progress(was, p[..], output + 8, input + 8, false)
  {
    hide Clean, Word, HasLess, AllPlain;
    ghost var now := p[..];
    HasLessIsExact(p[input..input + 8]);
    assert now[input..input + 8] == p[input..input + 8];
    WordStep(was, now, output, input);
    CopyWord(p, output, input, Word(p[input..input + 8]));
    assert p[..][..output + 8] == now[..output] + now[input..input + 8];
    assert p[..][input + 8..] == now[input + 8..];
  }

  /** The loop reads ahead of what it writes, so no input is overwritten before it is read. */
  method CleanStringLineEndings(p: array<bv8>, autoEndLastLine: bool) returns (str: Text)
    modifies p
    ensures str == Cleaned(old(p[..]), autoEndLastLine)
  {
    hide Clean, Cleaned, Word, HasLess, Progress;
    ghost var was := p[..];
    var output: nat, input: nat, rSeen := 0, 0, false;
    StartProgress(was);
    while input < p.Length
      invariant output <= input <= p.Length && Progress(was, p[..], output, input, rSeen)
      decreases p.Length - input
    {
      if !rSeen && input + 8 < p.Length && HasLess(Word(p[input..input + 8])) == 0 {
        TakeWord(p, output, input, was);
        output, input := output + 8, input + 8;
      } else {
        output, rSeen := TakeByte(p, output, input, rSeen, was);
        input := input + 1;
      }
    }
    LastStep(was, p[..], output, rSeen, autoEndLastLine);
    assert p[..][..output] == p[..output];
    if rSeen || (autoEndLastLine && output > 0 && p[output - 1] != LF) {
      str := p[..output] + [LF];
    } else {
      str := p[..output];
    }
  }

  /** The variant that appends the cleaned text to a string. */
  method AppendCleaned(src: Text, dst: Text, autoEndLastLine: bool) returns (str: Text)
    ensures str == dst + Cleaned(src, autoEndLastLine)
  {
    hide Cleaned;
    var tmp := new bv8[|src|](i requires 0 <= i < |src| => src[i]);
    assert tmp[..] == src;
    var cleaned := CleanStringLineEndings(tmp, autoEndLastLine);
    str := dst + cleaned;
  }
}
