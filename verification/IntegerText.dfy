/** Integers as text (strings/numbers.cc): the digit loops of safe_strto32 and its relatives, and
    the printers, which unroll the divisions. */
module IntegerText {
  import opened Division
  import opened Wrappers

  /** Characters are their codes, 0 to 255. */
  type Text = seq<int>

  // ---- Digits ----------------------------------------------------------------------

  /** kAsciiToInt: 36 for what is not a digit in any base. */
  function Digit(c: int): (d: nat)
    ensures d <= 36
  {
    if 48 <= c <= 57 then c - 48
    else if 65 <= c <= 90 then c - 65 + 10
    else if 97 <= c <= 122 then c - 97 + 10
    else 36
  }

  predicate AllDigits(s: Text, base: nat) {
    forall i :: 0 <= i < |s| ==> Digit(s[i]) < base
  }

  /** The number a string of digits denotes; nothing denotes zero. */
  function Number(s: Text, base: nat): nat {
    if s == [] then 0 else Number(s[..|s| - 1], base) * base + Digit(s[|s| - 1])
  }

  lemma NumberSnoc(s: Text, c: int, base: nat)
    ensures Number(s + [c], base) == Number(s, base) * base + Digit(c)
    ensures AllDigits(s + [c], base) <==> AllDigits(s, base) && Digit(c) < base
  {
    var t := s + [c];
    assert t[..|t| - 1] == s && t[|t| - 1] == c;
    assert AllDigits(t, base) ==> forall i :: 0 <= i < |s| ==> Digit(s[i]) == Digit(t[i]) < base;
    if AllDigits(s, base) && Digit(c) < base {
      forall i | 0 <= i < |t| ensures Digit(t[i]) < base {
        assert i < |s| ==> t[i] == s[i];
      }
    }
  }

  /** More digits never make the number smaller. */
  lemma {:induction false} NumberGrows(s: Text, n: nat, base: nat)
    requires n <= |s| && base >= 1
    ensures Number(s[..n], base) <= Number(s, base)
    decreases |s|
  {
    if n == |s| {
      assert s[..n] == s;
    } else {
      var t := s[..|s| - 1];
      NumberGrows(t, n, base);
      assert t[..n] == s[..n];
      Monotone(1, base, Number(t, base));
    }
  }

  // ---- Parsing ---------------------------------------------------------------------

  /** x / base, rounded down, is the last value that can take another digit. */
  lemma QuotientBound(x: nat, max: nat, base: nat)
    requires base >= 1
    ensures x > max / base <==> x * base > max
  {
    Quotient(max, base);
    var q := max / base;
    if x > q {
      Monotone(q + 1, x, base);
      Distribute(q, 1, base);
    } else {
      Monotone(x, q, base);
    }
  }

  /** safe_parse_positive_int: no intermediate result leaves the range of the type. */
  method ParsePositive(s: Text, base: nat, vmax: nat) returns (ok: bool, value: nat)
    requires 2 <= base <= 36 <= vmax
    ensures ok <==> AllDigits(s, base) && Number(s, base) <= vmax
    ensures ok ==> value == Number(s, base)
  {
    hide Number, AllDigits;
    value := 0;
    NothingIsZero(base);
    var vmaxOverBase := vmax / base;
    for i := 0 to |s|
      invariant AllDigits(s[..i], base) && value == Number(s[..i], base) <= vmax
    {
      var digit := Digit(s[i]);
      assert s[..i + 1] == s[..i] + [s[i]];
      NumberSnoc(s[..i], s[i], base);
      NumberGrows(s, i + 1, base);
      QuotientBound(value, vmax, base);
      if value > vmaxOverBase { return false, value; }
      assert value * base <= vmax;
      value := value * base;
      if digit >= base {
        NotDigits(s, i, base);
        return false, value;
      }
      if value > vmax - digit { return false, value; }
      assert value + digit <= vmax;
      value := value + digit;
    }
    assert s[..|s|] == s;
    ok := true;
  }

  lemma NothingIsZero(base: nat)
    ensures AllDigits([], base) && Number([], base) == 0
  {
  }

  lemma NotDigits(s: Text, i: nat, base: nat)
    requires i < |s| && Digit(s[i]) >= base
    ensures !AllDigits(s, base)
  {
  }

  /** Division of a negative number rounds toward zero. */
  function Truncated(v: int, base: nat): int
    requires v < 0 < base
  {
    -(-v / base)
  }

  /** safe_parse_negative_int: the value is built up below zero, so the least value of the type
      needs no special care. */
  method ParseNegative(s: Text, base: nat, vmin: int) returns (ok: bool, value: int)
    requires 2 <= base <= 36 && vmin <= -36
    ensures ok <==> AllDigits(s, base) && 0 - Number(s, base) >= vmin
    ensures ok ==> value == 0 - Number(s, base)
  {
    hide Number, AllDigits;
    value := 0;
    NothingIsZero(base);
    var vminOverBase := Truncated(vmin, base);
    for i := 0 to |s|
      invariant AllDigits(s[..i], base) && value == 0 - Number(s[..i], base) >= vmin
    {
      var digit := Digit(s[i]);
      assert s[..i + 1] == s[..i] + [s[i]];
      NumberSnoc(s[..i], s[i], base);
      NumberGrows(s, i + 1, base);
      QuotientBound(-value, -vmin, base);
      if value < vminOverBase { return false, value; }
      Regroup(-1, -value, base);
      assert value * base >= vmin;
      value := value * base;
      if digit >= base {
        NotDigits(s, i, base);
        return false, value;
      }
      if value < vmin + digit { return false, value; }
      assert value - digit >= vmin;
      value := value - digit;
    }
    assert s[..|s|] == s;
    ok := true;
  }

  predicate IsSpace(c: int) {
    c == 32 || 9 <= c <= 13
  }

  function TrimLeft(s: Text): Text {
    if s != [] && IsSpace(s[0]) then TrimLeft(s[1..]) else s
  }

  function TrimRight(s: Text): Text {
    if s != [] && IsSpace(s[|s| - 1]) then TrimRight(s[..|s| - 1]) else s
  }

  predicate HexPrefix(s: Text) {
    |s| >= 2 && s[0] == 48 && (s[1] == 120 || s[1] == 88)
  }

  datatype Literal = Literal(negative: bool, base: nat, digits: Text)

  /** A base-dependent prefix is not part of the digits. */
  function WithBase(negative: bool, u: Text, base: int): Option<Literal> {
    if base == 0 then
      Some(if HexPrefix(u) then Literal(negative, 16, u[2..])
           else if u != [] && u[0] == 48 then Literal(negative, 8, u[1..])
           else Literal(negative, 10, u))
    else if base == 16 && HexPrefix(u) then Some(Literal(negative, 16, u[2..]))
    else if 2 <= base <= 36 then Some(Literal(negative, base, u))
    else None
  }

  /** What the text says apart from spaces around it: sign, base and digits. */
  function Reading(s: Text, base: int): Option<Literal> {
    var t := TrimRight(TrimLeft(s));
    if t == [] then None
    else
      var u := if t[0] == 45 || t[0] == 43 then t[1..] else t;
      if u == [] then None else WithBase(t[0] == 45, u, base)
  }

  /** The loops over the spaces at the two ends. */
  method SkipSpaces(s: Text) returns (start: nat, end: nat)
    ensures start <= end <= |s| && s[start..end] == TrimRight(TrimLeft(s))
  {
    hide TrimLeft, TrimRight;
    start, end := 0, |s|;
    assert s[0..] == s;
    while start < end && IsSpace(s[start])
      invariant start <= end == |s| && TrimLeft(s[start..]) == TrimLeft(s)
    {
      TrimLeftStep(s[start..]);
      assert s[start..][1..] == s[start + 1..];
      start := start + 1;
    }
    TrimLeftStep(s[start..]);
    ghost var left := s[start..];
    assert s[start..end] == left;
    while start < end && IsSpace(s[end - 1])
      invariant start <= end <= |s| && TrimRight(s[start..end]) == TrimRight(left)
    {
      TrimRightStep(s[start..end]);
      assert s[start..end][..end - start - 1] == s[start..end - 1];
      end := end - 1;
    }
    TrimRightStep(s[start..end]);
  }

  /** The prefix of the digits, which also settles base 0. */
  method SkipPrefix(s: Text, start0: nat, end: nat, base0: int, ghost negative: bool)
      returns (ok: bool, base: int, start: nat)
    requires start0 < end <= |s|
    ensures ok <==> WithBase(negative, s[start0..end], base0).Some?
    ensures ok ==> start0 <= start <= end && 2 <= base <= 36
                   && WithBase(negative, s[start0..end], base0) == Some(Literal(negative, base, s[start..end]))
  {
    ghost var u := s[start0..end];
    ok, base, start := true, base0, start0;
    if base == 0 {
      if end - start >= 2 && s[start] == 48 && (s[start + 1] == 120 || s[start + 1] == 88) {
        base := 16;
        start := start + 2;
        assert s[start..end] == u[2..];
      } else if end - start >= 1 && s[start] == 48 {
        base := 8;
        start := start + 1;
        assert s[start..end] == u[1..];
      } else {
        base := 10;
      }
    } else if base == 16 {
      if end - start >= 2 && s[start] == 48 && (s[start + 1] == 120 || s[start + 1] == 88) {
        start := start + 2;
        assert s[start..end] == u[2..];
      }
    } else if base < 2 || base > 36 {
      ok := false;
    }
  }

  /** safe_parse_sign_and_base, which moves the two ends of the text inwards. */
  method ParseSignAndBase(s: Text, base0: int) returns (ok: bool, negative: bool, base: int, start: nat, end: nat)
    ensures ok <==> Reading(s, base0).Some?
    ensures ok ==> start <= end <= |s| && 2 <= base <= 36
                   && Reading(s, base0) == Some(Literal(negative, base, s[start..end]))
  {
    hide TrimLeft, TrimRight, WithBase;
    ok, negative, base := false, false, base0;
    start, end := SkipSpaces(s);
    ghost var t := s[start..end];
    if start >= end { return; }
    negative := s[start] == 45;
    if negative || s[start] == 43 {
      start := start + 1;
      if start >= end { return; }
      assert s[start..end] == t[1..];
    }
    ok, base, start := SkipPrefix(s, start, end, base0, negative);
  }

  lemma TrimLeftStep(s: Text)
    ensures TrimLeft(s) == if s != [] && IsSpace(s[0]) then TrimLeft(s[1..]) else s
  {
  }

  lemma TrimRightStep(s: Text)
    ensures TrimRight(s) == if s != [] && IsSpace(s[|s| - 1]) then TrimRight(s[..|s| - 1]) else s
  {
  }

  /** The value of a text in a type with least value vmin and greatest value vmax. */
  function Parsed(s: Text, base: int, vmin: int, vmax: int): Option<int> {
    match Reading(s, base)
    case None => None
    case Some(l) =>
      var v := if l.negative then 0 - Number(l.digits, l.base) else Number(l.digits, l.base);
      if AllDigits(l.digits, l.base) && vmin <= v <= vmax then Some(v) else None
  }

  /** safe_int_internal, for a signed type. */
  method ParseInt(s: Text, base: int, vmin: int, vmax: int) returns (value: Option<int>)
    requires vmin <= -36 && vmax >= 36
    ensures value == Parsed(s, base, vmin, vmax)
  {
    hide Reading, Number, AllDigits;
    var ok, negative, b, start, end := ParseSignAndBase(s, base);
    if !ok { return None; }
    if !negative {
      var fine, v := ParsePositive(s[start..end], b, vmax);
      value := if fine then Some(v) else None;
    } else {
      var fine, v := ParseNegative(s[start..end], b, vmin);
      value := if fine then Some(v) else None;
    }
  }

  /** safe_uint_internal, for an unsigned type: a minus sign is an error, even before zero. */
  method ParseUint(s: Text, base: int, vmax: int) returns (value: Option<int>)
    requires vmax >= 36
    ensures value
            == if Reading(s, base).Some? && Reading(s, base).value.negative then None else Parsed(s, base, 0, vmax)
  {
    hide Reading, Number, AllDigits;
    var ok, negative, b, start, end := ParseSignAndBase(s, base);
    if !ok || negative { return None; }
    var fine, v := ParsePositive(s[start..end], b, vmax);
    value := if fine then Some(v) else None;
  }

  // ---- Numerals --------------------------------------------------------------------

  function Symbol(d: nat): int {
    if d < 10 then 48 + d else 97 + d - 10
  }

  function Numeral(v: nat, base: nat): (s: Text)
    requires 2 <= base
    ensures s != []
  {
    if v < base then [Symbol(v)]
    else
      DigitsLeft(v, base);
      Numeral(v / base, base) + [Symbol(v % base)]
  }

  lemma DigitsLeft(v: nat, base: nat)
    requires v >= base >= 2
    ensures 0 < v / base < v
  {
    Quotient(v, base);
    Monotone(2, base, v / base);
    if v / base == 0 {
      assert false;
    }
  }

  function IntText(v: int): (s: Text) {
    if v < 0 then [45] + Numeral(-v, 10) else Numeral(v, 10)
  }

  lemma SymbolIsDigit(d: nat)
    requires d < 36
    ensures Digit(Symbol(d)) == d && Symbol(d) >= 48 && (d > 0 ==> Symbol(d) != 48)
  {
  }

  lemma NumeralStep(v: nat, base: nat)
    requires 2 <= base <= v
    ensures 0 < v / base < v && v == v / base * base + v % base && v % base < base
    ensures Numeral(v, base) == Numeral(v / base, base) + [Symbol(v % base)]
  {
    DigitsLeft(v, base);
    Quotient(v, base);
  }

  lemma {:induction false} NumberOfNumeral(v: nat, base: nat)
    requires 2 <= base <= 36
    ensures AllDigits(Numeral(v, base), base) && Number(Numeral(v, base), base) == v
    ensures forall i :: 0 <= i < |Numeral(v, base)| ==> Numeral(v, base)[i] >= 48
    ensures v > 0 ==> Numeral(v, base)[0] != 48
    decreases v
  {
    if v < base {
      assert Numeral(v, base) == [] + [Symbol(v)];
      hide *;
      NothingIsZero(base);
      SymbolIsDigit(v);
      NumberSnoc([], Symbol(v), base);
    } else {
      hide *;
      NumeralStep(v, base);
      NumberOfNumeral(v / base, base);
      SymbolIsDigit(v % base);
      NumberSnoc(Numeral(v / base, base), Symbol(v % base), base);
    }
  }

  lemma Untrimmed(s: Text)
    requires s != [] && !IsSpace(s[0]) && !IsSpace(s[|s| - 1])
    ensures TrimRight(TrimLeft(s)) == s
  {
  }

  lemma WithBaseTen(negative: bool, u: Text)
    ensures WithBase(negative, u, 10) == Some(Literal(negative, 10, u))
  {
  }

  /** A sign and digits are read as they are. */
  lemma ReadingOf(negative: bool, n: Text)
    requires n != [] && AllDigits(n, 10)
    ensures Reading((if negative then [45] else []) + n, 10) == Some(Literal(negative, 10, n))
  {
    hide TrimLeft, TrimRight, AllDigits, WithBase, Digit;
    EndsAreDigits(n, 10);
    WithBaseTen(negative, n);
    if negative {
      var s := [45] + n;
      assert s[|s| - 1] == n[|n| - 1] && s[1..] == n;
      Untrimmed(s);
    } else {
      assert [] + n == n;
      Untrimmed(n);
    }
  }

  /** Parsing undoes printing, for every value of the type including the least. */
  lemma ParseOfIntText(v: int, vmin: int, vmax: int)
    requires vmin <= v <= vmax
    ensures Parsed(IntText(v), 10, vmin, vmax) == Some(v)
  {
    hide Numeral, Number, Reading, AllDigits;
    var n := Numeral(if v < 0 then -v else v, 10);
    NumberOfNumeral(if v < 0 then -v else v, 10);
    ReadingOf(v < 0, n);
    assert [] + n == n;
  }

  lemma EndsAreDigits(s: Text, base: nat)
    requires s != [] && base <= 36 && AllDigits(s, base)
    ensures s[0] != 43 && s[0] != 45 && !IsSpace(s[0]) && !IsSpace(s[|s| - 1])
  {
    assert Digit(s[0]) < base && Digit(s[|s| - 1]) < base;
  }

  lemma ParseOfNumeral(v: nat, base: nat, vmax: nat)
    requires 2 <= base <= 36 && v <= vmax
    ensures Parsed(Numeral(v, base), base, 0, vmax) == Some(v)
    ensures Reading(Numeral(v, base), base).Some? && !Reading(Numeral(v, base), base).value.negative
  {
    var n := Numeral(v, base);
    NumberOfNumeral(v, base);
    TrimLeftStep(n);
    TrimRightStep(n);
    if base <= 16 {
      NoPrefix(n, base);
    }
    hide TrimLeft, TrimRight, Numeral, Number;
    EndsAreDigits(n, base);
  }

  function Signed(negative: bool, v: int): int {
    if negative then -v else v
  }

  /** Letters are digits from ten on, in either case; numerals use the lower one. */
  lemma LettersAreDigits(c: int)
    requires 97 <= c <= 122
    ensures Digit(c) == Digit(c - 32) == 10 + (c - 97) && Symbol(Digit(c)) == c
  {
  }

  predicate AllSpaces(s: Text) {
    forall i :: 0 <= i < |s| ==> s[i] == 32 || 9 <= s[i] <= 13
  }

  lemma {:induction false} TrimBefore(before: Text, t: Text)
    requires AllSpaces(before) && (t != [] ==> !IsSpace(t[0]))
    ensures TrimLeft(before + t) == t
    decreases |before|
  {
    if before == [] {
      assert before + t == t;
    } else {
      assert (before + t)[0] == before[0] && (before + t)[1..] == before[1..] + t;
      TrimBefore(before[1..], t);
    }
  }

  lemma {:induction false} TrimAfter(t: Text, after: Text)
    requires AllSpaces(after) && (t != [] ==> !IsSpace(t[|t| - 1]))
    ensures TrimRight(t + after) == t
    decreases |after|
  {
    if after == [] {
      assert t + after == t;
    } else {
      var s := t + after;
      assert s[|s| - 1] == after[|after| - 1] && s[..|s| - 1] == t + after[..|after| - 1];
      TrimAfter(t, after[..|after| - 1]);
    }
  }

  /** A prefix that may stand before digits in base b when base0 is asked for: 0x and 0 settle base
      0, 0x may stand in base 16, and every base from 2 to 36 may go without. */
  predicate MayStand(base0: int, prefix: Text, b: int) {
    || ((prefix == [48, 120] || prefix == [48, 88]) && (base0 == 0 || base0 == 16) && b == 16)
    || (prefix == [48] && base0 == 0 && b == 8)
    || (prefix == [] && 2 <= b <= 36 && (base0 == b || (base0 == 0 && b == 10)))
  }

  /** Of a prefix and a numeral, the numeral is what counts. */
  lemma NumberOfPrefixed(negative: bool, base0: int, prefix: Text, b: nat, v: nat)
    requires MayStand(base0, prefix, b) && 2 <= b <= 36
    ensures var l := WithBase(negative, prefix + Numeral(v, b), base0);
            && l.Some? && l.value.negative == negative && 2 <= l.value.base <= 36
            && AllDigits(l.value.digits, l.value.base) && Number(l.value.digits, l.value.base) == v
  {
    hide Number, Numeral, AllDigits, WithBase;
    var n := Numeral(v, b);
    NumberOfNumeral(v, b);
    ZeroIsShort(v, b);
    NothingIsZero(8);
    if prefix == [] {
      assert [] + n == n;
      PlainDigits(negative, n, b, base0);
    } else if |prefix| == 1 {
      OctalDigits(negative, n);
    } else {
      HexDigits(negative, prefix, n, base0);
    }
  }

  lemma PlainDigits(negative: bool, n: Text, b: nat, base0: int)
    requires n != [] && AllDigits(n, b) && 2 <= b <= 36 && (base0 == b || (base0 == 0 && b == 10))
    requires n[0] == 48 ==> n == [48]
    ensures WithBase(negative, n, base0)
            == Some(if base0 == 0 && n == [48] then Literal(negative, 8, []) else Literal(negative, b, n))
  {
    if b <= 16 { NoPrefix(n, b); }
    hide AllDigits, HexPrefix;
    assert n == [48] ==> n[1..] == [];
  }

  lemma OctalDigits(negative: bool, n: Text)
    requires n != [] && AllDigits(n, 8)
    ensures WithBase(negative, [48] + n, 0) == Some(Literal(negative, 8, n))
  {
    NotX(n, 8);
    hide AllDigits;
    var u := [48] + n;
    assert u[1] == n[0] && u[1..] == n;
  }

  lemma HexDigits(negative: bool, prefix: Text, n: Text, base0: int)
    requires (prefix == [48, 120] || prefix == [48, 88]) && (base0 == 0 || base0 == 16)
    ensures WithBase(negative, prefix + n, base0) == Some(Literal(negative, 16, n))
  {
    var u := prefix + n;
    assert u[0] == prefix[0] && u[1] == prefix[1] && u[2..] == n;
  }

  lemma NotX(n: Text, b: nat)
    requires n != [] && AllDigits(n, b) && b <= 16
    ensures n[0] != 120 && n[0] != 88
  {
    assert Digit(n[0]) < b;
  }

  lemma ZeroIsShort(v: nat, b: nat)
    requires 2 <= b <= 36
    ensures Numeral(v, b)[0] == 48 ==> v == 0 && Numeral(v, b) == [48]
  {
    NumberOfNumeral(v, b);
    if v == 0 {
      assert Numeral(0, b) == [Symbol(0)];
    }
  }

  /** Spaces around it, a sign, a prefix that suits the base asked for, and a numeral: the value of
      that text is the signed number, in every base and for base 0. */
  lemma ParseOfWritten(before: Text, sign: Text, prefix: Text, v: nat, b: nat, after: Text, base0: int, vmin: int,
                       vmax: int)
    requires AllSpaces(before) && AllSpaces(after) && (sign == [] || sign == [43] || sign == [45])
    requires 2 <= b <= 36 && MayStand(base0, prefix, b)
    requires vmin <= Signed(sign == [45], v) <= vmax
    ensures Parsed(before + (sign + (prefix + Numeral(v, b)) + after), base0, vmin, vmax)
            == Some(Signed(sign == [45], v))
  {
    hide Number, Numeral, AllDigits, WithBase, MayStand, Reading, AllSpaces;
    PrefixedEnds(prefix, v, b, base0);
    ReadingOfWritten(before, sign, prefix + Numeral(v, b), after, base0);
    NumberOfPrefixed(sign == [45], base0, prefix, b, v);
  }

  lemma ReadingOfWritten(before: Text, sign: Text, u: Text, after: Text, base0: int)
    requires AllSpaces(before) && AllSpaces(after) && (sign == [] || sign == [43] || sign == [45]) && u != []
    requires u[0] != 43 && u[0] != 45 && !IsSpace(u[0]) && !IsSpace(u[|u| - 1])
    ensures Reading(before + (sign + u + after), base0) == WithBase(sign == [45], u, base0)
  {
    hide TrimLeft, TrimRight, AllSpaces, IsSpace, WithBase;
    var t := sign + u;
    SignedEnds(sign, u);
    assert (t + after)[0] == t[0];
    TrimBefore(before, t + after);
    TrimAfter(t, after);
  }

  lemma PrefixedEnds(prefix: Text, v: nat, b: nat, base0: int)
    requires 2 <= b <= 36 && MayStand(base0, prefix, b)
    ensures var u := prefix + Numeral(v, b);
            u != [] && u[0] != 43 && u[0] != 45 && !IsSpace(u[0]) && !IsSpace(u[|u| - 1])
  {
    var n := Numeral(v, b);
    NumberOfNumeral(v, b);
    EndsAreDigits(n, b);
    hide Numeral, Number, AllDigits;
    var u := prefix + n;
    assert u[|u| - 1] == n[|n| - 1];
    assert u[0] == if prefix == [] then n[0] else 48;
  }

  lemma SignedEnds(sign: Text, u: Text)
    requires (sign == [] || sign == [43] || sign == [45]) && u != []
    requires u[0] != 43 && u[0] != 45 && !IsSpace(u[0]) && !IsSpace(u[|u| - 1])
    ensures var t := sign + u;
            && t != [] && !IsSpace(t[0]) && !IsSpace(t[|t| - 1])
            && (if t[0] == 45 || t[0] == 43 then t[1..] else t) == u && (t[0] == 45 <==> sign == [45])
  {
    var t := sign + u;
    assert t[|t| - 1] == u[|u| - 1];
    if sign == [] {
      assert t == u;
    } else {
      assert t[1..] == u;
    }
  }

  /** x is no hexadecimal digit, so a numeral cannot look like a prefix. */
  lemma NoPrefix(s: Text, base: nat)
    requires AllDigits(s, base) && base <= 16
    ensures !HexPrefix(s)
  {
    if |s| >= 2 {
      assert Digit(s[1]) < base;
    }
  }

  // ---- Printers --------------------------------------------------------------------

  /** The last n decimal digits. */
  function Padded(u: nat, n: nat): (s: Text)
    ensures |s| == n
  {
    if n == 0 then [] else Padded(u / 10, n - 1) + [48 + u % 10]
  }

  function High(u: nat, n: nat): nat {
    Quotient(u, Power10(n));
    u / Power10(n)
  }

  function Low(u: nat, n: nat): nat {
    u % Power10(n)
  }

  /** Dropping the last digit commutes with splitting before it. */
  lemma SplitStep(u: nat, n: nat)
    requires n >= 1
    ensures High(u / 10, n - 1) == High(u, n)
    ensures Low(u, n) / 10 == Low(u / 10, n - 1) && Low(u, n) % 10 == u % 10
  {
    var p, p' := Power10(n), Power10(n - 1);
    assert p == 10 * p';
    Quotient(u, p);
    hide Power10;
    var (q, r) := (u / p, u % p);
    Regroup(q, p', 10);
    DivMod(u, 10, q * p' + r / 10, r % 10);
    DivMod(u / 10, p', q, r / 10);
  }

  /** Printing the high digits and then the low ones. */
  lemma {:induction false} PaddedSplit(u: nat, m: nat, n: nat)
    ensures Padded(u, m + n) == Padded(High(u, n), m) + Padded(Low(u, n), n)
    decreases n
  {
    if n == 0 {
      assert High(u, 0) == u && Padded(Low(u, 0), 0) == [];
    } else {
      SplitStep(u, n);
      PaddedSplit(u / 10, m, n - 1);
      hide High, Low;
      assert Padded(u, m + n) == Padded(u / 10, m + n - 1) + [48 + u % 10];
      assert Padded(Low(u, n), n) == Padded(Low(u, n) / 10, n - 1) + [48 + Low(u, n) % 10];
    }
  }

  /** With exactly as many digits as it needs, a number is printed without leading zeroes. */
  lemma {:induction false} NumeralIsPadded(u: nat, n: nat)
    requires n >= 1 && u < Power10(n) && (n == 1 || Power10(n - 1) <= u)
    ensures Numeral(u, 10) == Padded(u, n)
    decreases n
  {
    if n > 1 {
      NumeralIsPadded(u / 10, n - 1);
    } else {
      assert Power10(1) == 10 && Padded(u / 10, 0) == [];
    }
  }

  /** two_ASCII_digits[d]. */
  method PutPair(buffer: array<int>, at: nat, d: nat)
    requires d < 100 && at + 2 <= buffer.Length
    modifies buffer
    ensures buffer[..at + 2] == old(buffer[..at]) + Padded(d, 2)
  {
    assert Padded(d, 2) == Padded(d / 10, 1) + [48 + d % 10] && Padded(d / 10, 1) == [] + [48 + d / 10];
    hide Padded;
    buffer[at], buffer[at + 1] := 48 + d / 10, 48 + d % 10;
  }

  method PutDigit(buffer: array<int>, at: nat, d: nat)
    requires d < 10 && at < buffer.Length
    modifies buffer
    ensures buffer[..at + 1] == old(buffer[..at]) + Padded(d, 1)
  {
    assert Padded(d, 1) == [] + [48 + d];
    hide Padded;
    buffer[at] := 48 + d;
  }

  lemma PowersOfTen()
    ensures Power10(1) == 10 && Power10(2) == 100 && Power10(3) == 1000 && Power10(4) == 10000
    ensures Power10(5) == 100000 && Power10(6) == 1000000 && Power10(7) == 10000000 && Power10(8) == 100000000
    ensures Power10(9) == 1000000000 && Power10(10) == 10000000000
  {
    assert Power10(3) == 1000;
    assert Power10(6) == 1000000;
  }

  /** Appending more digits to a prefix already written. */
  lemma Appended(prefix: Text, u: nat, m: nat, n: nat, done: Text, all: Text)
    requires done == prefix + Padded(High(u, n), m) && all == done + Padded(Low(u, n), n)
    ensures all == prefix + Padded(u, m + n)
  {
    PaddedSplit(u, m, n);
    hide Padded, High, Low;
    Associative(prefix, Padded(High(u, n), m), Padded(Low(u, n), n));
  }

  /** The labels lt100, lt10_000, lt1_000_000 and lt100_000_000: from each the code falls through
      to the ones before it, and then to the end of the string. */
  method Lt100(u: nat, buffer: array<int>, at: nat) returns (end: nat)
    requires u < 100 && at + 2 < buffer.Length
    modifies buffer
    ensures end == at + 2 && buffer[..end] == old(buffer[..at]) + Padded(u, 2) && buffer[end] == 0
  {
    PutPair(buffer, at, u);
    end := at + 2;
    ghost var text := buffer[..end];
    buffer[end] := 0;
    assert buffer[..end] == text;
  }

  method Lt10000(u: nat, buffer: array<int>, at: nat) returns (end: nat)
    requires u < 10000 && at + 4 < buffer.Length
    modifies buffer
    ensures end == at + 4 && buffer[..end] == old(buffer[..at]) + Padded(u, 4) && buffer[end] == 0
  {
    hide Padded, Power10;
    PowersOfTen();
    ghost var prefix := buffer[..at];
    PutPair(buffer, at, u / 100);
    ghost var done := buffer[..at + 2];
    end := Lt100(u - u / 100 * 100, buffer, at + 2);
    Appended(prefix, u, 2, 2, done, buffer[..end]);
  }

  method Lt1000000(u: nat, buffer: array<int>, at: nat) returns (end: nat)
    requires u < 1000000 && at + 6 < buffer.Length
    modifies buffer
    ensures end == at + 6 && buffer[..end] == old(buffer[..at]) + Padded(u, 6) && buffer[end] == 0
  {
    hide Padded, Power10;
    PowersOfTen();
    ghost var prefix := buffer[..at];
    PutPair(buffer, at, u / 10000);
    ghost var done := buffer[..at + 2];
    end := Lt10000(u - u / 10000 * 10000, buffer, at + 2);
    Appended(prefix, u, 2, 4, done, buffer[..end]);
  }

  method Lt100000000(u: nat, buffer: array<int>, at: nat) returns (end: nat)
    requires u < 100000000 && at + 8 < buffer.Length
    modifies buffer
    ensures end == at + 8 && buffer[..end] == old(buffer[..at]) + Padded(u, 8) && buffer[end] == 0
  {
    hide Padded, Power10;
    PowersOfTen();
    ghost var prefix := buffer[..at];
    PutPair(buffer, at, u / 1000000);
    ghost var done := buffer[..at + 2];
    end := Lt1000000(u - u / 1000000 * 1000000, buffer, at + 2);
    Appended(prefix, u, 2, 6, done, buffer[..end]);
  }

  /** What a product leaves in a signed int where overflow wraps. */
  function Int32(x: int): int {
    (x + 0x8000_0000) % 0x1_0000_0000 - 0x8000_0000
  }

  /** The first product of the ten-digit case fits a signed int if and only if u is below
      2200000000.  From there on it overflows; if that wraps, the unsigned subtraction after it
      still leaves the low eight digits. */
  lemma FirstProduct(u: nat)
    requires u < 0x1_0000_0000
    ensures u / 100000000 * 100000000 <= 0x7fff_ffff <==> u < 2200000000
    ensures (u - Int32(u / 100000000 * 100000000)) % 0x1_0000_0000 == u - u / 100000000 * 100000000 < 100000000
  {
    var p := u / 100000000 * 100000000;
    if p <= 0x7fff_ffff {
      assert Int32(p) == p;
    } else {
      assert Int32(p) == p - 0x1_0000_0000;
    }
  }

  /** FastUInt32ToBufferLeft: writes the numeral at position at, and a null after it.
      The caller must provide room for both. */
  method PrintUInt32(u: nat, buffer: array<int>, at: nat) returns (end: nat)
    requires u < 0x1_0000_0000 && at + |Numeral(u, 10)| < buffer.Length
    modifies buffer
    ensures at < end < buffer.Length
    ensures buffer[..end] == old(buffer[..at]) + Numeral(u, 10) && buffer[end] == 0
  {
    hide Padded, Power10, Numeral, Int32;
    PowersOfTen();
    ghost var prefix := buffer[..at];
    if u >= 1000000000 {
      NumeralIsPadded(u, 10);
      PutPair(buffer, at, u / 100000000);
      ghost var done := buffer[..at + 2];
      FirstProduct(u);
      end := Lt100000000((u - Int32(u / 100000000 * 100000000)) % 0x1_0000_0000, buffer, at + 2);
      Appended(prefix, u, 2, 8, done, buffer[..end]);
    } else if u < 100 {
      if u >= 10 {
        NumeralIsPadded(u, 2);
        end := Lt100(u, buffer, at);
      } else {
        NumeralIsPadded(u, 1);
        PutDigit(buffer, at, u);
        end := at + 1;
        buffer[end] := 0;
      }
    } else if u < 10000 {
      if u >= 1000 {
        NumeralIsPadded(u, 4);
        end := Lt10000(u, buffer, at);
      } else {
        NumeralIsPadded(u, 3);
        PutDigit(buffer, at, u / 100);
        ghost var done := buffer[..at + 1];
        end := Lt100(u - u / 100 * 100, buffer, at + 1);
        Appended(prefix, u, 1, 2, done, buffer[..end]);
      }
    } else if u < 1000000 {
      if u >= 100000 {
        NumeralIsPadded(u, 6);
        end := Lt1000000(u, buffer, at);
      } else {
        NumeralIsPadded(u, 5);
        PutDigit(buffer, at, u / 10000);
        ghost var done := buffer[..at + 1];
        end := Lt10000(u - u / 10000 * 10000, buffer, at + 1);
        Appended(prefix, u, 1, 4, done, buffer[..end]);
      }
    } else if u < 100000000 {
      if u >= 10000000 {
        NumeralIsPadded(u, 8);
        end := Lt100000000(u, buffer, at);
      } else {
        NumeralIsPadded(u, 7);
        PutDigit(buffer, at, u / 1000000);
        ghost var done := buffer[..at + 1];
        end := Lt1000000(u - u / 1000000 * 1000000, buffer, at + 1);
        Appended(prefix, u, 1, 6, done, buffer[..end]);
      }
    } else {
      NumeralIsPadded(u, 9);
      PutDigit(buffer, at, u / 100000000);
      ghost var done := buffer[..at + 1];
      end := Lt100000000(u - u / 100000000 * 100000000, buffer, at + 1);
      Appended(prefix, u, 1, 8, done, buffer[..end]);
    }
  }

  /** A numeral is the numeral of its high digits followed by the low ones. */
  lemma {:induction false} NumeralSplit(v: nat, n: nat)
    requires v >= Power10(n)
    ensures High(v, n) > 0 && Numeral(v, 10) == Numeral(High(v, n), 10) + Padded(Low(v, n), n)
    decreases n
  {
    if n == 0 {
      assert High(v, 0) == v && Padded(Low(v, 0), 0) == [];
    } else {
      SplitStep(v, n);
      assert Power10(n) == 10 * Power10(n - 1);
      NumeralSplit(v / 10, n - 1);
      hide High, Low;
      assert v >= 10;
      assert Numeral(v, 10) == Numeral(v / 10, 10) + [48 + v % 10];
      assert Padded(Low(v, n), n) == Padded(Low(v, n) / 10, n - 1) + [48 + Low(v, n) % 10];
    }
  }

  /** The nine low digits: four pairs and one digit. */
  method PutNine(u: nat, buffer: array<int>, at: nat)
    requires u < 1000000000 && at + 9 <= buffer.Length
    modifies buffer
    ensures buffer[..at + 9] == old(buffer[..at]) + Padded(u, 9)
  {
    hide Padded, Power10;
    PowersOfTen();
    ghost var prefix := buffer[..at];
    var u1 := u - u / 10000000 * 10000000;
    PutPair(buffer, at, u / 10000000);
    ghost var d0 := buffer[..at + 2];
    var u2 := u1 - u1 / 100000 * 100000;
    PutPair(buffer, at + 2, u1 / 100000);
    ghost var d1 := buffer[..at + 4];
    var u3 := u2 - u2 / 1000 * 1000;
    PutPair(buffer, at + 4, u2 / 1000);
    ghost var d2 := buffer[..at + 6];
    var u4 := u3 - u3 / 10 * 10;
    PutPair(buffer, at + 6, u3 / 10);
    ghost var d3 := buffer[..at + 8];
    PutDigit(buffer, at + 8, u4);
    ghost var all := buffer[..at + 9];
    Appended(d2, u3, 2, 1, d3, all);
    Appended(d1, u2, 2, 3, d2, all);
    Appended(d0, u1, 2, 5, d1, all);
    Appended(prefix, u, 2, 7, d0, all);
  }

  /** FastUInt64ToBufferLeft: all but the last nine digits by the same function, then those. */
  method PrintUInt64(u64: nat, buffer: array<int>, at: nat) returns (end: nat)
    requires u64 < 0x1_0000_0000_0000_0000 && at + |Numeral(u64, 10)| < buffer.Length
    modifies buffer
    ensures at < end < buffer.Length
    ensures buffer[..end] == old(buffer[..at]) + Numeral(u64, 10) && buffer[end] == 0
    decreases u64
  {
    hide Padded, Power10, Numeral;
    if u64 < 0x1_0000_0000 {
      end := PrintUInt32(u64, buffer, at);
      return;
    }
    PowersOfTen();
    NumeralSplit(u64, 9);
    ghost var prefix := buffer[..at];
    var top := u64 / 1000000000;
    end := PrintUInt64(top, buffer, at);
    PutNine(u64 - top * 1000000000, buffer, end);
    Associative(prefix, Numeral(top, 10), Padded(Low(u64, 9), 9));
    end := end + 9;
    ghost var text := buffer[..end];
    buffer[end] := 0;
    assert buffer[..end] == text;
  }

  method PutMinus(buffer: array<int>, at: nat)
    requires at < buffer.Length
    modifies buffer
    ensures buffer[..at + 1] == old(buffer[..at]) + [45]
  {
    buffer[at] := 45;
  }

  lemma Residue(x: int, p: nat, q: int, r: nat)
    requires r < p && x == q * p + r
    ensures x % p == r
  {
    var d := x / p - q;
    Multiples(d, p);
    Distribute(x / p, 0 - q, p);
  }

  /** The magnitude of the least value is not representable as a signed number, but it is as an
      unsigned one. */
  lemma Magnitude(i: int, word: nat)
    requires word == 0x1_0000_0000 || word == 0x1_0000_0000_0000_0000
    requires -(word / 2) <= i < word / 2
    ensures i >= 0 ==> i % word == i
    ensures i < 0 ==> (0 - i % word) % word == -i < word
  {
    if i < 0 {
      Residue(i, word, -1, i + word);
      Residue(0 - (i + word), word, -1, -i);
    } else {
      Residue(i, word, 0, i);
    }
  }

  /** FastInt32ToBufferLeft and FastInt64ToBufferLeft: a minus sign, and the magnitude, negated
      in unsigned arithmetic of the type's width. */
  method PrintInt(i: int, word: nat, buffer: array<int>, at: nat) returns (end: nat)
    requires word == 0x1_0000_0000 || word == 0x1_0000_0000_0000_0000
    requires -(word / 2) <= i < word / 2 && at + |IntText(i)| < buffer.Length
    modifies buffer
    ensures at < end < buffer.Length
    ensures buffer[..end] == old(buffer[..at]) + IntText(i) && buffer[end] == 0
  {
    hide Numeral;
    ghost var prefix := buffer[..at];
    var u := i % word;
    end := at;
    Magnitude(i, word);
    if i < 0 {
      PutMinus(buffer, end);
      end := end + 1;
      u := (0 - u) % word;
      Associative(prefix, [45], Numeral(u, 10));
    }
    if word == 0x1_0000_0000 {
      end := PrintUInt32(u, buffer, end);
    } else {
      end := PrintUInt64(u, buffer, end);
    }
  }

  /** u64tostr_base36: the digits are written backward from the end of the buffer and then moved
      to its start; 0 means that there was too little room. */
  method PrintBase36(number: nat, bufSize: nat, buffer: array<int>) returns (len: nat)
    requires 0 < bufSize <= buffer.Length
    modifies buffer
    ensures len == if |Numeral(number, 36)| < bufSize then |Numeral(number, 36)| else 0
    ensures len > 0 ==> buffer[..len] == Numeral(number, 36) && buffer[len] == 0
  {
    hide Numeral, Symbol;
    buffer[bufSize - 1] := 0;
    var resultSize := 1;
    var n := number;
    while true
      invariant 1 <= resultSize <= bufSize
      invariant Numeral(n, 36) + buffer[bufSize - resultSize..bufSize - 1] == Numeral(number, 36)
      invariant buffer[bufSize - 1] == 0
      decreases n
    {
      if bufSize == resultSize { return 0; }
      var remainder := n % 36;
      ghost var done, was := buffer[bufSize - resultSize..bufSize - 1], n;
      n := n / 36;
      PutBefore(buffer, bufSize - resultSize, bufSize - 1, Symbol(remainder));
      NumeralCases(was, 36);
      resultSize := resultSize + 1;
      if n == 0 { break; }
      Associative(Numeral(n, 36), [Symbol(remainder)], done);
    }
    MoveDown(buffer, bufSize - resultSize, resultSize);
    len := resultSize - 1;
  }

  /** memmove to the start of the buffer. */
  method MoveDown(buffer: array<int>, from: nat, n: nat)
    requires from + n <= buffer.Length && n > 0
    modifies buffer
    ensures buffer[..n - 1] == old(buffer[from..from + n - 1]) && buffer[n - 1] == old(buffer[from + n - 1])
  {
    forall k | 0 <= k < n {
      buffer[k] := buffer[from + k];
    }
  }

  /** One more digit, before the ones already there. */
  method PutBefore(buffer: array<int>, at: nat, end: nat, c: int)
    requires 0 < at <= end < buffer.Length
    modifies buffer
    ensures buffer[at - 1..end] == [c] + old(buffer[at..end]) && buffer[end] == old(buffer[end])
  {
    buffer[at - 1] := c;
  }

  lemma NumeralCases(v: nat, base: nat)
    requires base >= 2
    ensures v / base == 0 <==> v < base
    ensures v < base ==> v % base == v && Numeral(v, base) == [Symbol(v)]
    ensures v >= base ==> Numeral(v, base) == Numeral(v / base, base) + [Symbol(v % base)]
  {
    if v < base {
      DivMod(v, base, 0, v);
    } else {
      NumeralStep(v, base);
    }
  }

  /** The room that the printers need, for the widths they are used with. */
  lemma NumeralLength(v: nat)
    ensures v < 0x1_0000_0000 ==> |Numeral(v, 10)| <= 10
    ensures v < 0x1_0000_0000_0000_0000 ==> |Numeral(v, 10)| <= 20
  {
    PowersOfTen();
    assert Power10(20) == 100000000000000000000;
    NumeralAtMost(v, 10);
    NumeralAtMost(v, 20);
  }

  lemma {:induction false} NumeralAtMost(v: nat, n: nat)
    requires n >= 1
    ensures v < Power10(n) ==> |Numeral(v, 10)| <= n
    decreases n
  {
    if v >= 10 && n > 1 {
      NumeralAtMost(v / 10, n - 1);
    }
  }
}
