/** C escapes (strings/escaping.cc): the four escapers, and the decoder, which may work in place. */
module CEscape {
  import opened Coding
  import opened Division
  import opened Wrappers

  const BACKSLASH: Byte := 92

  // ---- Characters ------------------------------------------------------------------

  predicate IsPrint(c: Byte) {
    32 <= c < 127
  }

  predicate IsHexDigit(c: Byte) {
    48 <= c <= 57 || 65 <= c <= 70 || 97 <= c <= 102
  }

  predicate IsOctalDigit(c: Byte) {
    48 <= c <= 55
  }

  function HexDigit(c: Byte): (d: nat)
    ensures d < 16
  {
    if 48 <= c <= 57 then c - 48 else if 65 <= c <= 70 then c - 55 else if 97 <= c <= 102 then c - 87 else 0
  }

  function HexSymbol(d: nat): Byte
    requires d < 16
  {
    if d < 10 then 48 + d else 87 + d
  }

  lemma HexDigitOfSymbol(d: nat)
    requires d < 16
    ensures IsHexDigit(HexSymbol(d)) && HexDigit(HexSymbol(d)) == d
  {
  }

  // ---- Escaping --------------------------------------------------------------------

  /** The letter after the backslash in a two-character escape. */
  function Letter(c: Byte): Option<Byte> {
    match c
    case 10 => Some(110)
    case 13 => Some(114)
    case 9 => Some(116)
    case 34 => Some(34)
    case 39 => Some(39)
    case 92 => Some(92)
    case _ => None
  }

  /** afterHex: the output so far ends with \xNN, so a hexadecimal digit must not follow. */
  predicate NeedsNumber(c: Byte, utf8Safe: bool, afterHex: bool) {
    Letter(c).None? && (!utf8Safe || c < 128) && (!IsPrint(c) || (afterHex && IsHexDigit(c)))
  }

  function Piece(c: Byte, useHex: bool, utf8Safe: bool, afterHex: bool): (e: Bytes)
    ensures 1 <= |e| <= 4
  {
    if Letter(c).Some? then [BACKSLASH, Letter(c).value]
    else if NeedsNumber(c, utf8Safe, afterHex) then
      if useHex then [BACKSLASH, 120, HexSymbol(c / 16), HexSymbol(c % 16)]
      else [BACKSLASH, 48 + c / 64, 48 + c / 8 % 8, 48 + c % 8]
    else [c]
  }

  function Escaped(x: Bytes, useHex: bool, utf8Safe: bool, afterHex: bool): (e: Bytes)
    ensures |x| <= |e| <= 4 * |x|
  {
    if x == [] then []
    else Piece(x[0], useHex, utf8Safe, afterHex)
         + Escaped(x[1..], useHex, utf8Safe, useHex && NeedsNumber(x[0], utf8Safe, afterHex))
  }

  // ---- Unescaping ------------------------------------------------------------------

  /** How many hexadecimal digits s begins with, and their value in an unsigned int. */
  function HexRun(s: Bytes): (k: nat)
    ensures k <= |s| && (forall i :: 0 <= i < k ==> IsHexDigit(s[i])) && (k < |s| ==> !IsHexDigit(s[k]))
  {
    if s == [] || !IsHexDigit(s[0]) then 0 else HexRun(s[1..]) + 1
  }

  function HexValue(s: Bytes): (v: nat)
    ensures v < TWO32
  {
    if s == [] then 0 else (HexValue(s[..|s| - 1]) * 16 + HexDigit(s[|s| - 1])) % TWO32
  }

  /** One to three octal digits. */
  function OctalRun(s: Bytes): (k: nat)
    ensures k <= 3 && k <= |s|
  {
    if s == [] || !IsOctalDigit(s[0]) then 0
    else if |s| == 1 || !IsOctalDigit(s[1]) then 1
    else if |s| == 2 || !IsOctalDigit(s[2]) then 2
    else 3
  }

  function OctalValue(s: Bytes): int {
    if s == [] then 0 else OctalValue(s[..|s| - 1]) * 8 + s[|s| - 1] as int - 48
  }

  /** runetochar. */
  function Utf8(rune: nat): (e: Bytes)
    requires rune <= 0x10FFFF
    ensures 1 <= |e| <= 4 && (rune <= 0xFFFF ==> |e| <= 3)
  {
    if rune <= 0x7F then [rune]
    else if rune <= 0x7FF then [0xC0 + rune / 64, 0x80 + rune % 64]
    else if rune <= 0xFFFF then [0xE0 + rune / 4096, 0x80 + rune / 64 % 64, 0x80 + rune % 64]
    else [0xF0 + rune / 262144, 0x80 + rune / 4096 % 64, 0x80 + rune / 64 % 64, 0x80 + rune % 64]
  }

  /** The character that a single-letter escape stands for. */
  function Simple(c: Byte): Option<Byte> {
    match c
    case 97 => Some(7)
    case 98 => Some(8)
    case 102 => Some(12)
    case 110 => Some(10)
    case 114 => Some(13)
    case 116 => Some(9)
    case 118 => Some(11)
    case 92 => Some(92)
    case 63 => Some(63)
    case 39 => Some(39)
    case 34 => Some(34)
    case _ => None
  }

  /** One character or escape sequence: how much of the text it is, and what it stands for. */
  datatype Item = Item(width: nat, out: Bytes)

  /** An escaped null character is kept as it is if leaveNulls says so. */
  function Kept(text: Bytes, value: nat, out: Bytes, leaveNulls: bool): Option<Item> {
    Some(Item(|text|, if value == 0 && leaveNulls then text else out))
  }

  function OctalItem(s: Bytes, leaveNulls: bool): Option<Item>
    requires |s| >= 2
  {
    var k := OctalRun(s[1..]);
    var v := OctalValue(s[1..1 + k]);
    if v < 0 || v > 255 then None else Kept(s[..1 + k], v, [v], leaveNulls)
  }

  function HexItem(s: Bytes, leaveNulls: bool): Option<Item>
    requires |s| >= 2
  {
    var k := HexRun(s[2..]);
    var v := HexValue(s[2..2 + k]);
    if k == 0 || v > 255 then None else Kept(s[..2 + k], v, [v], leaveNulls)
  }

  function RuneItem(s: Bytes, digits: nat, leaveNulls: bool): Option<Item>
    requires |s| >= 2 && (digits == 4 || digits == 8)
  {
    if |s| < 2 + digits || HexRun(s[2..2 + digits]) < digits then None
    else
      var v := HexValue(s[2..2 + digits]);
      if v > 0x10FFFF then None else Kept(s[..2 + digits], v, Utf8(v), leaveNulls)
  }

  function NextItem(s: Bytes, leaveNulls: bool): Option<Item>
    requires s != []
  {
    if s[0] != BACKSLASH then Some(Item(1, s[..1]))
    else if |s| == 1 then None
    else if Simple(s[1]).Some? then Some(Item(2, [Simple(s[1]).value]))
    else if IsOctalDigit(s[1]) then OctalItem(s, leaveNulls)
    else if s[1] == 120 || s[1] == 88 then HexItem(s, leaveNulls)
    else if s[1] == 117 then RuneItem(s, 4, leaveNulls)
    else if s[1] == 85 then RuneItem(s, 8, leaveNulls)
    else None
  }

  /** Nothing grows: that is what lets the decoder work in place. */
  lemma ItemFits(s: Bytes, leaveNulls: bool)
    requires s != []
    ensures var i := NextItem(s, leaveNulls);
            i.Some? ==> 1 <= i.value.width <= |s| && |i.value.out| <= i.value.width
  {
    if |s| >= 6 {
      FourDigits(s[2..6]);
    }
  }

  lemma FourDigits(s: Bytes)
    requires |s| == 4
    ensures HexValue(s) <= 0xFFFF
  {
    assert HexValue(s[..1]) <= 15 by { assert s[..1][..0] == []; }
    assert s[..2][..1] == s[..1] && s[..3][..2] == s[..2] && s[..4] == s;
    assert HexValue(s[..2]) <= 255;
    assert HexValue(s[..3]) <= 4095;
  }

  function Unescaped(s: Bytes, leaveNulls: bool): Option<Bytes>
    decreases |s|
  {
    if s == [] then Some([])
    else
      ItemFits(s, leaveNulls);
      match NextItem(s, leaveNulls)
      case None => None
      case Some(item) =>
        match Unescaped(s[item.width..], leaveNulls)
        case None => None
        case Some(rest) => Some(item.out + rest)
  }

  // ---- Round trip ------------------------------------------------------------------

  lemma HexPair(c: Byte, rest: Bytes)
    requires rest == [] || !IsHexDigit(rest[0])
    ensures var s := [HexSymbol(c / 16), HexSymbol(c % 16)] + rest; HexRun(s) == 2 && HexValue(s[..2]) == c
  {
    var (h, l) := (HexSymbol(c / 16), HexSymbol(c % 16));
    var s := [h, l] + rest;
    HexDigitOfSymbol(c / 16);
    HexDigitOfSymbol(c % 16);
    hide HexSymbol, HexDigit, IsHexDigit;
    assert s[1..] == [l] + rest && s[1..][1..] == rest;
    assert s[..2] == [h, l] && [h, l][..1] == [h] && [h][..0] == [];
    assert HexValue([h]) == c / 16;
  }

  lemma OctalTriple(c: Byte, rest: Bytes)
    ensures var s := [48 + c / 64, 48 + c / 8 % 8, 48 + c % 8] + rest; OctalRun(s) == 3 && OctalValue(s[..3]) == c
  {
    var (a, b, d) := (48 + c / 64, 48 + c / 8 % 8, 48 + c % 8);
    var s := [a, b, d] + rest;
    assert s[..3] == [a, b, d] && [a, b, d][..2] == [a, b] && [a, b][..1] == [a] && [a][..0] == [];
    assert OctalValue([a]) == c / 64;
    assert OctalValue([a, b]) == c / 64 * 8 + c / 8 % 8;
  }

  /** The decoder takes a piece for the character it came from, provided that no hexadecimal
      digit follows \xNN: \x takes as many digits as there are. */
  lemma ItemOfPiece(c: Byte, useHex: bool, utf8Safe: bool, afterHex: bool, rest: Bytes)
    requires useHex && NeedsNumber(c, utf8Safe, afterHex) ==> rest == [] || !IsHexDigit(rest[0])
    ensures var e := Piece(c, useHex, utf8Safe, afterHex);
            NextItem(e + rest, false) == Some(Item(|e|, [c]))
  {
    var e := Piece(c, useHex, utf8Safe, afterHex);
    var s := e + rest;
    if Letter(c).Some? || !NeedsNumber(c, utf8Safe, afterHex) {
      assert s[..1] == [s[0]];
    } else if useHex {
      HexPair(c, rest);
      hide HexRun, HexValue, HexSymbol, IsHexDigit;
      assert s[2..] == [HexSymbol(c / 16), HexSymbol(c % 16)] + rest;
      assert s[2..4] == s[2..][..2];
    } else {
      OctalTriple(c, rest);
      hide OctalRun, OctalValue;
      assert s[1..] == [48 + c / 64, 48 + c / 8 % 8, 48 + c % 8] + rest;
      assert s[1..4] == s[1..][..3];
    }
  }

  /** The rule about the last hexadecimal escape. */
  lemma NoDigitAfterHex(x: Bytes, utf8Safe: bool)
    ensures var e := Escaped(x, true, utf8Safe, true); e == [] || !IsHexDigit(e[0])
  {
    if x != [] {
      assert Escaped(x, true, utf8Safe, true)[0] == Piece(x[0], true, utf8Safe, true)[0];
    }
  }

  lemma {:induction false} UnescapeOfEscaped(x: Bytes, useHex: bool, utf8Safe: bool, afterHex: bool)
    ensures Unescaped(Escaped(x, useHex, utf8Safe, afterHex), false) == Some(x)
    decreases |x|
  {
    hide NextItem, NeedsNumber, Piece;
    if x != [] {
      var numbered := NeedsNumber(x[0], utf8Safe, afterHex);
      var e := Piece(x[0], useHex, utf8Safe, afterHex);
      var rest := Escaped(x[1..], useHex, utf8Safe, useHex && numbered);
      UnescapeOfEscaped(x[1..], useHex, utf8Safe, useHex && numbered);
      if useHex && numbered {
        NoDigitAfterHex(x[1..], utf8Safe);
      }
      ItemOfPiece(x[0], useHex, utf8Safe, afterHex, rest);
      assert (e + rest)[|e|..] == rest;
      assert x == [x[0]] + x[1..];
    }
  }

  /** Unescaping undoes each of the four escapers, on every byte string. */
  lemma RoundTrip(x: Bytes, useHex: bool, utf8Safe: bool)
    ensures Unescaped(Escaped(x, useHex, utf8Safe, false), false) == Some(x)
  {
    UnescapeOfEscaped(x, useHex, utf8Safe, false);
  }

  // ---- What escapes look like ------------------------------------------------------

  /** The output is printable, but for bytes above the ASCII range that are kept on request. */
  lemma {:induction false} EscapedIsPrintable(x: Bytes, useHex: bool, utf8Safe: bool, afterHex: bool)
    ensures forall c :: c in Escaped(x, useHex, utf8Safe, afterHex) ==> 32 <= c <= 126 || (utf8Safe && c >= 128)
    decreases |x|
  {
    hide Piece, NeedsNumber;
    if x != [] {
      PieceIsPrintable(x[0], useHex, utf8Safe, afterHex);
      EscapedIsPrintable(x[1..], useHex, utf8Safe, useHex && NeedsNumber(x[0], utf8Safe, afterHex));
    }
  }

  lemma PieceIsPrintable(c: Byte, useHex: bool, utf8Safe: bool, afterHex: bool)
    ensures forall d :: d in Piece(c, useHex, utf8Safe, afterHex) ==> 32 <= d <= 126 || (utf8Safe && d >= 128)
  {
  }

  /** Printable text without quotes and backslashes is not changed, nor are bytes above the ASCII
      range if they are to be kept. */
  lemma {:induction false} PlainIsKept(x: Bytes, useHex: bool, utf8Safe: bool)
    requires forall c :: c in x ==> (32 <= c <= 126 && c != 34 && c != 39 && c != 92) || (utf8Safe && c >= 128)
    ensures Escaped(x, useHex, utf8Safe, false) == x
    decreases |x|
  {
    if x != [] {
      assert x[0] in x;
      assert Piece(x[0], useHex, utf8Safe, false) == [x[0]] && !NeedsNumber(x[0], utf8Safe, false);
      hide Piece, NeedsNumber;
      assert forall c :: c in x[1..] ==> c in x;
      PlainIsKept(x[1..], useHex, utf8Safe);
    }
  }

  lemma EscapedOne(c: Byte, useHex: bool, utf8Safe: bool)
    ensures Escaped([c], useHex, utf8Safe, false) == Piece(c, useHex, utf8Safe, false)
  {
    hide Piece, NeedsNumber;
    assert [c][1..] == [];
  }

  /** A character that must be written as a number. */
  predicate Unprintable(c: Byte, utf8Safe: bool) {
    (c < 32 && c != 9 && c != 10 && c != 13) || c == 127 || (c >= 128 && !utf8Safe)
  }

  /** Any other character than those and the six with a letter or a backslash of their own is
      written as its number, with two lower-case hexadecimal digits ... */
  lemma HexForm(c: Byte, utf8Safe: bool)
    requires Unprintable(c, utf8Safe)
    ensures var e := Escaped([c], true, utf8Safe, false);
            && |e| == 4 && e[0] == 92 && e[1] == 120 && FullHexValue(e[2..]) == c
            && (forall d :: d in e[2..] ==> 48 <= d <= 57 || 97 <= d <= 102)
  {
    EscapedOne(c, true, utf8Safe);
    var (h, l) := (HexSymbol(c / 16), HexSymbol(c % 16));
    assert Piece(c, true, utf8Safe, false) == [BACKSLASH, 120, h, l];
    hide Escaped, Piece;
    assert [BACKSLASH, 120, h, l][2..] == [h, l];
    HexDigitOfSymbol(c / 16);
    HexDigitOfSymbol(c % 16);
    TwoHexDigits(h, l);
    hide FullHexValue, HexDigit;
  }

  /** ... or three octal ones. */
  lemma OctalForm(c: Byte, utf8Safe: bool)
    requires Unprintable(c, utf8Safe)
    ensures exists o2: Byte, o1: Byte, o0: Byte ::
              && Escaped([c], false, utf8Safe, false) == [92, o2, o1, o0]
              && 48 <= o2 <= 55 && 48 <= o1 <= 55 && 48 <= o0 <= 55
              && c as int == 64 * (o2 as int - 48) + 8 * (o1 as int - 48) + (o0 as int - 48)
  {
    EscapedOne(c, false, utf8Safe);
    var (o2, o1, o0) := (48 + c / 64, 48 + c / 8 % 8, 48 + c % 8);
    assert Piece(c, false, utf8Safe, false) == [BACKSLASH, o2, o1, o0];
    hide Escaped, Piece;
    assert c == 8 * (c / 8) + c % 8 && c / 8 == 8 * (c / 64) + c / 8 % 8;
  }

  lemma TwoHexDigits(h: Byte, l: Byte)
    ensures FullHexValue([h, l]) == 16 * HexDigit(h) + HexDigit(l)
  {
    hide HexDigit;
    assert [h, l][..1] == [h] && [h][..0] == [];
    assert FullHexValue([h]) == HexDigit(h);
  }

  /** The letters of C: alert, backspace, form feed, line feed, carriage return, horizontal and
      vertical tab, and the characters that stand for themselves. */
  lemma LettersOfC(l: Byte, c: Byte, leaveNulls: bool)
    requires (l, c) in {(97, 7), (98, 8), (102, 12), (110, 10), (114, 13), (116, 9), (118, 11), (92, 92), (63, 63),
                        (39, 39), (34, 34)}
    ensures Unescaped([92, l], leaveNulls) == Some([c])
  {
    var s: Bytes := [92, l];
    assert NextItem(s, leaveNulls) == Some(Item(2, [c]));
    hide NextItem;
    assert s[2..] == [] && [c] + [] == [c];
  }

  /** One to three octal digits, as many as there are, are one character; above 255 they are
      refused. */
  lemma OctalEscapes(d: Bytes, more: Bytes)
    requires 1 <= |d| <= 3 && forall i :: 0 <= i < |d| ==> 48 <= d[i] <= 55
    requires |d| < 3 && more != [] ==> !(48 <= more[0] <= 55)
    ensures var v := if |d| == 1 then At(d, 0) else if |d| == 2 then 8 * At(d, 0) + At(d, 1)
                     else 64 * At(d, 0) + 8 * At(d, 1) + At(d, 2);
            NextItem([92] + d + more, false) == if v > 255 then None else Some(Item(|d| + 1, [v]))
  {
    var s := [92] + d + more;
    OctalRunOf(d, more);
    OctalValueOf(d);
    hide OctalRun, OctalValue, At;
    assert s[1..] == d + more && s[1..1 + |d|] == d;
    assert NextItem(s, false) == OctalItem(s, false);
  }

  /** As many hexadecimal digits as there are, after a small or a capital X, are one character:
      their value modulo 2^32, refused above 0xff. */
  lemma HexEscapes(d: Bytes, more: Bytes, capital: bool)
    requires d != [] && (forall i :: 0 <= i < |d| ==> IsHexDigit(d[i])) && (more != [] ==> !IsHexDigit(more[0]))
    ensures var v := FullHexValue(d) % TWO32;
            NextItem([92, if capital then 88 else 120] + d + more, false)
            == if v > 255 then None else Some(Item(|d| + 2, [v]))
  {
    hide HexRun, HexValue, FullHexValue, IsHexDigit, NextItem, HexItem;
    var x: Byte := if capital then 88 else 120;
    var t := d + more;
    HexRunOf(d, more);
    HexValueWraps(d);
    Associative([92, x], d, more);
    HexDispatch(x, t);
    HexItemAfter(x, t);
    assert t[..|d|] == d;
  }

  lemma HexItemAfter(x: Byte, t: Bytes)
    ensures var k := HexRun(t);
            var v := HexValue(t[..k]);
            HexItem([92, x] + t, false) == if k == 0 || v > 255 then None else Some(Item(2 + k, [v]))
  {
    hide HexRun, HexValue, HexItem;
    HexItemOf([92, x] + t);
    AfterTwo(92, x, t);
    AfterTwoTo(x, t, HexRun(t));
  }

  lemma AfterTwoTo(x: Byte, t: Bytes, k: nat)
    requires k <= |t|
    ensures ([92, x] + t)[2..2 + k] == t[..k]
  {
  }

  lemma HexDispatch(x: Byte, t: Bytes)
    requires x == 88 || x == 120
    ensures NextItem([92, x] + t, false) == HexItem([92, x] + t, false)
  {
    hide HexItem;
  }

  lemma HexItemOf(s: Bytes)
    requires |s| >= 2
    ensures var k := HexRun(s[2..]);
            var v := HexValue(s[2..2 + k]);
            HexItem(s, false) == if k == 0 || v > 255 then None else Some(Item(2 + k, [v]))
  {
    hide HexRun, HexValue;
  }

  lemma {:induction false} HexRunOf(d: Bytes, more: Bytes)
    requires (forall i :: 0 <= i < |d| ==> IsHexDigit(d[i])) && (more != [] ==> !IsHexDigit(more[0]))
    ensures HexRun(d + more) == |d|
    decreases |d|
  {
    hide IsHexDigit;
    if d == [] {
      assert d + more == more;
    } else {
      assert (d + more)[0] == d[0] && (d + more)[1..] == d[1..] + more;
      HexRunOf(d[1..], more);
    }
  }

  /** A backslash before anything else, or before nothing, is an error, as are \x without a digit
      and a backslash at the end. */
  lemma UnknownEscapes(c: Byte, more: Bytes, leaveNulls: bool)
    requires c !in {97, 98, 102, 110, 114, 116, 118, 92, 63, 39, 34, 48, 49, 50, 51, 52, 53, 54, 55, 120, 88, 117, 85}
             || ((c == 120 || c == 88) && (more == [] || !IsHexDigit(more[0])))
    ensures Unescaped([92, c] + more, leaveNulls) == None
    ensures Unescaped([92], leaveNulls) == None
  {
    var s := [92, c] + more;
    assert s[2..] == more && s[2..2 + HexRun(more)] == more[..HexRun(more)];
    assert NextItem(s, leaveNulls) == None;
    assert NextItem([92], leaveNulls) == None;
    hide NextItem;
  }

  /** The digit at i. */
  function At(d: Bytes, i: nat): (v: int)
    requires i < |d|
  {
    var c: int := d[i];
    c - 48
  }

  lemma OctalRunOf(d: Bytes, more: Bytes)
    requires 1 <= |d| <= 3 && forall i :: 0 <= i < |d| ==> 48 <= d[i] <= 55
    requires |d| < 3 && more != [] ==> !(48 <= more[0] <= 55)
    ensures OctalRun(d + more) == |d|
  {
    var s := d + more;
    assert |s| > |d| ==> s[|d|] == more[0];
  }

  lemma OctalValueOf(d: Bytes)
    requires 1 <= |d| <= 3 && forall i :: 0 <= i < |d| ==> 48 <= d[i] <= 55
    ensures OctalValue(d) == if |d| == 1 then At(d, 0) else if |d| == 2 then 8 * At(d, 0) + At(d, 1)
                             else 64 * At(d, 0) + 8 * At(d, 1) + At(d, 2)
    ensures OctalValue(d) >= 0
  {
    assert d[..1][..0] == [] && OctalValue(d[..1]) == At(d, 0);
    if |d| >= 2 {
      assert d[..2][..1] == d[..1] && OctalValue(d[..2]) == 8 * At(d, 0) + At(d, 1);
    }
    if |d| == 3 {
      assert d[..3][..2] == d[..2];
    }
    assert d[..|d|] == d;
  }

  /** The rune that a UTF-8 sequence spells (section 3 of RFC 3629). */
  function RuneOf(e: Bytes): Option<int> {
    if |e| == 1 && e[0] < 0x80 then Some(e[0])
    else if |e| == 2 && 0xC0 <= e[0] < 0xE0 && Continues(e[1..]) then Some(Above(e[0], 0xC0) * 64 + Above(e[1], 0x80))
    else if |e| == 3 && 0xE0 <= e[0] < 0xF0 && Continues(e[1..]) then
      Some(Above(e[0], 0xE0) * 4096 + Above(e[1], 0x80) * 64 + Above(e[2], 0x80))
    else if |e| == 4 && 0xF0 <= e[0] < 0xF8 && Continues(e[1..]) then
      Some(Above(e[0], 0xF0) * 262144 + Above(e[1], 0x80) * 4096 + Above(e[2], 0x80) * 64 + Above(e[3], 0x80))
    else None
  }

  function Above(c: int, base: int): int {
    c - base
  }

  predicate Continues(s: Bytes) {
    forall i :: 0 <= i < |s| ==> 0x80 <= s[i] < 0xC0
  }

  /** Every rune is spelled, in as few bytes as the ranges of the RFC call for. */
  lemma Utf8Spells(rune: nat)
    requires rune <= 0x10FFFF
    ensures RuneOf(Utf8(rune)) == Some(rune)
    ensures |Utf8(rune)| == if rune < 0x80 then 1 else if rune < 0x800 then 2 else if rune < 0x1_0000 then 3 else 4
  {
    var (r1, r2, r3) := (rune / 64, rune / 4096, rune / 262144);
    assert rune == r1 * 64 + rune % 64 && r1 == r2 * 64 + r1 % 64 && r2 == r3 * 64 + r2 % 64;
  }

  /** What \u and \U make of their digits. */
  lemma RuneOfDigits(d: Bytes, n: nat)
    requires (n == 4 || n == 8) && |d| == n && forall i :: 0 <= i < n ==> IsHexDigit(d[i])
    ensures HexRun(d) == n && HexValue(d) == FullHexValue(d)
  {
    hide HexRun, HexValue, FullHexValue, Power16, IsHexDigit;
    AllHex(d);
    HexValueWraps(d);
    Power16Grows(n, 8);
    EightDigits();
  }

  lemma UnescapedOne(s: Bytes, item: Item)
    requires s != [] && NextItem(s, false) == Some(item) && item.width == |s|
    ensures Unescaped(s, false) == Some(item.out)
  {
    hide NextItem;
    assert s[|s|..] == [] && item.out + [] == item.out;
  }

  /** \u with four digits and \U with eight are the UTF-8 form of their value, and refused above
      the Unicode limit. */
  lemma RunesAreSpelled(d: Bytes, capital: bool)
    requires |d| == (if capital then 8 else 4) && forall i :: 0 <= i < |d| ==> IsHexDigit(d[i])
    ensures var u := Unescaped([92, if capital then 85 else 117] + d, false);
            var v := FullHexValue(d);
            if v > 0x10FFFF then u == None else u.Some? && RuneOf(u.value) == Some(v)
  {
    var s: Bytes := [92, if capital then 85 else 117] + d;
    var v := FullHexValue(d);
    RuneOfDigits(d, |d|);
    assert s[2..2 + |d|] == d;
    hide HexRun, HexValue, FullHexValue, Utf8, RuneOf, IsHexDigit, Unescaped, OctalItem, HexItem;
    assert NextItem(s, false) == RuneItem(s, |d|, false);
    if v <= 0x10FFFF {
      Utf8Spells(v);
      UnescapedOne(s, Item(2 + |d|, Utf8(v)));
    } else {
      UnescapedNone(s);
    }
  }

  lemma UnescapedNone(s: Bytes)
    requires s != [] && NextItem(s, false) == None
    ensures Unescaped(s, false) == None
  {
    hide NextItem;
  }

  // ---- Long hexadecimal escapes ----------------------------------------------------

  /** The value the digits denote, without the 32-bit limit. */
  function FullHexValue(s: Bytes): nat {
    if s == [] then 0 else FullHexValue(s[..|s| - 1]) * 16 + HexDigit(s[|s| - 1])
  }

  function Power16(n: nat): (p: nat)
    ensures p >= 1
  {
    if n == 0 then 1 else 16 * Power16(n - 1)
  }

  /** The decoder knows the value modulo 2^32, which is all of it for up to eight digits. */
  lemma {:induction false} HexValueWraps(s: Bytes)
    ensures HexValue(s) == FullHexValue(s) % TWO32
    ensures FullHexValue(s) < Power16(|s|)
    decreases |s|
  {
    hide HexDigit;
    if s != [] {
      var t := s[..|s| - 1];
      HexValueWraps(t);
      WrapStep(FullHexValue(t), HexDigit(s[|s| - 1]));
    }
  }

  lemma WrapStep(v: nat, d: nat)
    ensures (v % TWO32 * 16 + d) % TWO32 == (v * 16 + d) % TWO32
  {
    var q, x := v / TWO32, v % TWO32 * 16 + d;
    Quotient(v, TWO32);
    Quotient(x, TWO32);
    Distribute(q * 16, x / TWO32, TWO32);
    Regroup(q, 16, TWO32);
    DivMod(v * 16 + d, TWO32, q * 16 + x / TWO32, x % TWO32);
  }

  /** The digits of an escape \x at the head of s. */
  function HexDigits(s: Bytes): (d: Bytes)
    requires |s| >= 2
  {
    s[2..2 + HexRun(s[2..])]
  }

  /** An escape \x of any number of digits is refused exactly if its value exceeds 0xff modulo
      2^32. */
  lemma HexIsRefusedIff(s: Bytes, leaveNulls: bool)
    requires |s| >= 2 && HexRun(s[2..]) > 0
    ensures HexItem(s, leaveNulls) == None <==> FullHexValue(HexDigits(s)) % TWO32 > 0xff
  {
    hide HexRun, FullHexValue, HexValue;
    HexValueWraps(HexDigits(s));
  }

  /** So the decoder does as documented, refusing exactly the values above 0xff, if and only if
      the value fits 32 bits or its low 32 bits exceed 0xff themselves. */
  lemma HexIsExact(s: Bytes, leaveNulls: bool)
    requires |s| >= 2 && HexRun(s[2..]) > 0
    ensures var v := FullHexValue(HexDigits(s));
            (HexItem(s, leaveNulls) == None <==> v > 0xff) <==> (v < TWO32 || v % TWO32 > 0xff)
  {
    hide HexDigits, HexItem, HexRun, FullHexValue;
    HexIsRefusedIff(s, leaveNulls);
  }

  predicate AllZero(d: Bytes) {
    forall i :: 0 <= i < |d| ==> HexDigit(d[i]) == 0
  }

  /** The condition in terms of the digits: at most eight, or all zero before the last eight, or
      the last eight exceed 0xff. */
  lemma HexIsExactByDigits(s: Bytes, leaveNulls: bool)
    requires |s| >= 2 && HexRun(s[2..]) > 0
    ensures var d := HexDigits(s);
            (HexItem(s, leaveNulls) == None <==> FullHexValue(d) > 0xff)
            <==> (|d| <= 8 || AllZero(d[..|d| - 8]) || FullHexValue(d[|d| - 8..]) > 0xff)
  {
    var d := HexDigits(s);
    hide HexDigits, HexItem, HexRun, FullHexValue, AllZero, HexDigit, Power16;
    HexIsExact(s, leaveNulls);
    EightDigits();
    HexValueWraps(d);
    if |d| <= 8 {
      Power16Grows(|d|, 8);
    } else {
      var high, low := d[..|d| - 8], d[|d| - 8..];
      assert d == high + low;
      FullHexConcat(high, low);
      HexValueWraps(low);
      ZeroIff(high);
      Multiples(FullHexValue(high), TWO32);
      DivMod(FullHexValue(d), TWO32, FullHexValue(high), FullHexValue(low));
    }
  }

  lemma FullHexLast(s: Bytes)
    requires s != []
    ensures FullHexValue(s) == FullHexValue(s[..|s| - 1]) * 16 + HexDigit(s[|s| - 1])
  {
  }

  lemma Power16Step(n: nat)
    ensures Power16(0) == 1 && Power16(n + 1) == Power16(n) * 16
  {
  }

  lemma {:induction false} FullHexConcat(x: Bytes, y: Bytes)
    ensures FullHexValue(x + y) == FullHexValue(x) * Power16(|y|) + FullHexValue(y)
    decreases |y|
  {
    var s := x + y;
    if y == [] {
      assert s == x;
    } else {
      hide HexDigit, FullHexValue, Power16;
      var t := y[..|y| - 1];
      FullHexConcat(x, t);
      assert s[..|s| - 1] == x + t && s[|s| - 1] == y[|y| - 1];
      FullHexLast(s);
      FullHexLast(y);
      Power16Step(|t|);
      Regroup(FullHexValue(x), Power16(|t|), 16);
      Distribute(FullHexValue(x) * Power16(|t|), FullHexValue(t), 16);
    }
  }

  /** Only zeroes have the value zero. */
  lemma {:induction false} ZeroIff(d: Bytes)
    ensures FullHexValue(d) == 0 <==> AllZero(d)
    decreases |d|
  {
    hide HexDigit;
    if d != [] {
      ZeroIff(d[..|d| - 1]);
    }
  }

  lemma EightDigits()
    ensures Power16(8) == TWO32
  {
    assert Power16(4) == 65536;
  }

  lemma {:induction false} Power16Grows(m: nat, n: nat)
    requires m <= n
    ensures Power16(m) <= Power16(n)
    decreases n
  {
    if m < n {
      Power16Grows(m, n - 1);
    }
  }

  /** The smallest failing family: a 1 in front of eight digits adds 2^32, which is not seen,
      so that \x100000041 is read as the character 0x41. */
  lemma LongHexWraps(d: Bytes)
    requires |d| == 8 && (forall i :: 0 <= i < 8 ==> IsHexDigit(d[i])) && FullHexValue(d) <= 0xff
    ensures FullHexValue([49] + d) >= TWO32
    ensures HexItem([BACKSLASH, 120] + ([49] + d), false) == Some(Item(11, [FullHexValue(d)]))
  {
    hide *;
    EightDigits();
    One();
    var t := [49] + d;
    FullHexConcat([49], d);
    OneDigit(49);
    HexValueWraps(t);
    AllHex(t);
    WrapOnce(FullHexValue(d));
    AfterTwo(BACKSLASH, 120, t);
    HexItemIs([BACKSLASH, 120] + t);
  }

  lemma WrapOnce(v: nat)
    requires v <= 0xff
    ensures (1 * TWO32 + v) % TWO32 == v
  {
  }

  lemma OneDigit(c: Byte)
    ensures FullHexValue([c]) == HexDigit(c)
  {
    hide HexDigit;
    assert [c][..0] == [] && FullHexValue([]) == 0;
  }

  lemma One()
    ensures HexDigit(49) == 1 && IsHexDigit(49)
  {
  }

  lemma AfterTwo(x: Byte, y: Byte, t: Bytes)
    ensures ([x, y] + t)[2..] == t && ([x, y] + t)[2..2 + |t|] == t
  {
  }

  lemma HexItemIs(s: Bytes)
    requires |s| >= 2 && HexRun(s[2..]) > 0 && HexValue(s[2..2 + HexRun(s[2..])]) <= 255
    ensures HexItem(s, false) == Some(Item(2 + HexRun(s[2..]), [HexValue(s[2..2 + HexRun(s[2..])])]))
  {
    hide HexRun, HexValue;
  }

  lemma {:induction false} AllHex(s: Bytes)
    requires forall i :: 0 <= i < |s| ==> IsHexDigit(s[i])
    ensures HexRun(s) == |s|
    decreases |s|
  {
    if s != [] {
      AllHex(s[1..]);
    }
  }

  // ---- The escaper -----------------------------------------------------------------

  lemma PieceCases(c: Byte, useHex: bool, utf8Safe: bool, afterHex: bool)
    ensures |Piece(c, useHex, utf8Safe, afterHex)|
            == if NeedsNumber(c, utf8Safe, afterHex) then 4 else if Letter(c).Some? then 2 else 1
  {
  }

  /** The escaped text has a numeric escape that ends n bytes from its start. */
  predicate NumberEndsAt(x: Bytes, n: nat, useHex: bool, utf8Safe: bool, afterHex: bool) {
    x != []
    && var e := Piece(x[0], useHex, utf8Safe, afterHex);
       var numbered := NeedsNumber(x[0], utf8Safe, afterHex);
       if |e| < n then NumberEndsAt(x[1..], n - |e|, useHex, utf8Safe, useHex && numbered)
       else |e| == n && numbered
  }

  lemma {:induction false} EndsInside(x: Bytes, n: nat, useHex: bool, utf8Safe: bool, afterHex: bool)
    requires NumberEndsAt(x, n, useHex, utf8Safe, afterHex)
    ensures 4 <= n <= |Escaped(x, useHex, utf8Safe, afterHex)|
    decreases |x|
  {
    hide Piece, NeedsNumber;
    var e := Piece(x[0], useHex, utf8Safe, afterHex);
    PieceCases(x[0], useHex, utf8Safe, afterHex);
    if |e| < n {
      EndsInside(x[1..], n - |e|, useHex, utf8Safe, useHex && NeedsNumber(x[0], utf8Safe, afterHex));
    }
  }

  /** snprintf ends a numeric escape with a null of its own.  The documented buffer of 4n + 1 bytes
      always has room for it, and for the text; so has every buffer that gets the whole text. */
  lemma EnoughRoom(x: Bytes, destLen: nat, useHex: bool, utf8Safe: bool)
    ensures destLen >= 4 * |x| + 1 ==> |Escaped(x, useHex, utf8Safe, false)| < destLen
    ensures |Escaped(x, useHex, utf8Safe, false)| < destLen ==> !NumberEndsAt(x, destLen, useHex, utf8Safe, false)
  {
    if NumberEndsAt(x, destLen, useHex, utf8Safe, false) {
      EndsInside(x, destLen, useHex, utf8Safe, false);
    }
  }

  /** A smaller buffer need not: four bytes are too few for the escape of a null character, and
      its snprintf writes a fifth. */
  lemma FourBytesOverrun(useHex: bool, utf8Safe: bool)
    ensures NumberEndsAt([0], 4, useHex, utf8Safe, false)
  {
    PieceCases(0, useHex, utf8Safe, false);
  }

  method PutAll(dest: array<Byte>, at: nat, text: Bytes)
    requires at + |text| <= dest.Length
    modifies dest
    ensures dest[..at + |text|] == old(dest[..at]) + text
    ensures dest[at + |text|..] == old(dest[at + |text|..])
  {
    forall k | 0 <= k < |text| {
      dest[at + k] := text[k];
    }
  }

  /** The body of the loop: one character, if there is room.  dest is the memory the buffer of
      destLen bytes lies in: a numeric escape that ends the buffer has its null put behind it. */
  method EscapeOne(c: Byte, dest: array<Byte>, used: nat, destLen: nat, useHex: bool, utf8Safe: bool,
                   lastHexEscape: bool)
      returns (ok: bool, end: nat, isHexEscape: bool)
    requires used <= destLen < dest.Length
    modifies dest
    ensures ok ==> end == used + |Piece(c, useHex, utf8Safe, lastHexEscape)| <= destLen
    ensures ok ==> dest[..end] == old(dest[..used]) + Piece(c, useHex, utf8Safe, lastHexEscape)
    ensures ok ==> isHexEscape == (useHex && NeedsNumber(c, utf8Safe, lastHexEscape))
    ensures !ok ==> used + |Piece(c, useHex, utf8Safe, lastHexEscape)| >= destLen && dest[..] == old(dest[..])
    ensures !ok && NeedsNumber(c, utf8Safe, lastHexEscape) ==> used + 4 > destLen
    ensures dest[destLen + 1..] == old(dest[destLen + 1..])
    ensures dest[destLen]
            == if ok && NeedsNumber(c, utf8Safe, lastHexEscape) && end == destLen then 0 else old(dest[destLen])
  {
    hide NeedsNumber, Piece, Letter;
    PieceCases(c, useHex, utf8Safe, lastHexEscape);
    ok, end, isHexEscape := false, used, false;
    if destLen - used < 2 { return; }
    var piece := Piece(c, useHex, utf8Safe, lastHexEscape);
    ghost var was := dest[..];
    end := used + |piece|;
    if NeedsNumber(c, utf8Safe, lastHexEscape) {
      if destLen - used < 4 { return; }
      PutAll(dest, used, piece + [0]);
      isHexEscape := useHex;
      assert dest[..end] == dest[..end + 1][..end];
      SameBehind(was, dest[..], end + 1, destLen);
    } else {
      PutAll(dest, used, piece);
      SameBehind(was, dest[..], end, destLen);
    }
    ok := true;
  }

  lemma SameBehind(was: Bytes, now: Bytes, end: nat, n: nat)
    requires |was| == |now| && end <= |now| && now[end..] == was[end..] && n < |now|
    ensures end <= n ==> now[n] == was[n]
    ensures end <= n + 1 ==> now[n + 1..] == was[n + 1..]
  {
    assert end <= n ==> now[end..][n - end] == was[end..][n - end];
    assert end <= n + 1 ==> now[end..][n + 1 - end..] == was[end..][n + 1 - end..];
  }

  lemma EscapedStep(before: Bytes, x: Bytes, useHex: bool, utf8Safe: bool, afterHex: bool)
    requires x != []
    ensures before + Escaped(x, useHex, utf8Safe, afterHex)
            == (before + Piece(x[0], useHex, utf8Safe, afterHex))
               + Escaped(x[1..], useHex, utf8Safe, useHex && NeedsNumber(x[0], utf8Safe, afterHex))
    ensures |Escaped(x, useHex, utf8Safe, afterHex)| >= |Piece(x[0], useHex, utf8Safe, afterHex)|
  {
    hide Piece, NeedsNumber;
    Associative(before, Piece(x[0], useHex, utf8Safe, afterHex),
                Escaped(x[1..], useHex, utf8Safe, useHex && NeedsNumber(x[0], utf8Safe, afterHex)));
  }

  /** The null written so far or still to be written behind the buffer. */
  lemma NumberStep(x: Bytes, used: nat, destLen: nat, useHex: bool, utf8Safe: bool, afterHex: bool)
    requires x != [] && used < destLen
    ensures var end := used + |Piece(x[0], useHex, utf8Safe, afterHex)|;
            var numbered := NeedsNumber(x[0], utf8Safe, afterHex);
            && (end < destLen ==> (NumberEndsAt(x, destLen - used, useHex, utf8Safe, afterHex)
                                   <==> NumberEndsAt(x[1..], destLen - end, useHex, utf8Safe, useHex && numbered)))
            && (end >= destLen ==> (NumberEndsAt(x, destLen - used, useHex, utf8Safe, afterHex)
                                    <==> end == destLen && numbered))
  {
    hide Piece, NeedsNumber;
  }

  /** CEscapeInternal: the length written, not counting the null at the end, or -1 if dest has
      too little room; it asks for no more than the text and the null take.  The byte behind the
      buffer is written if and only if a numeric escape ends the buffer, and nothing is after it. */
  method Escape(src: Bytes, dest: array<Byte>, destLen: nat, useHex: bool, utf8Safe: bool) returns (used: int)
    requires destLen < dest.Length
    modifies dest
    ensures used == var size := |Escaped(src, useHex, utf8Safe, false)|; if size < destLen then size else -1
    ensures used >= 0 ==> dest[..used] == Escaped(src, useHex, utf8Safe, false) && dest[used] == 0
    ensures dest[destLen] == if NumberEndsAt(src, destLen, useHex, utf8Safe, false) then 0 else old(dest[destLen])
    ensures dest[destLen + 1..] == old(dest[destLen + 1..])
  {
    hide NeedsNumber, Piece, Escaped, NumberEndsAt;
    var at: nat := 0;
    var lastHexEscape := false;
    ghost var overrun := false;
    assert src[0..] == src;
    if destLen == 0 { NothingEndsAtZero(src, useHex, utf8Safe); }
    for i := 0 to |src|
      invariant at <= destLen
      invariant dest[..at] + Escaped(src[i..], useHex, utf8Safe, lastHexEscape) == Escaped(src, useHex, utf8Safe, false)
      invariant dest[destLen] == if overrun then 0 else old(dest[destLen])
      invariant dest[destLen + 1..] == old(dest[destLen + 1..])
      invariant NumberEndsAt(src, destLen, useHex, utf8Safe, false)
                <==> overrun || (at < destLen && NumberEndsAt(src[i..], destLen - at, useHex, utf8Safe, lastHexEscape))
      invariant overrun ==> at == destLen
    {
      assert src[i..][0] == src[i] && src[i..][1..] == src[i + 1..];
      EscapedStep(dest[..at], src[i..], useHex, utf8Safe, lastHexEscape);
      if at < destLen { NumberStep(src[i..], at, destLen, useHex, utf8Safe, lastHexEscape); }
      PieceCases(src[i], useHex, utf8Safe, lastHexEscape);
      ghost var numbered := NeedsNumber(src[i], utf8Safe, lastHexEscape);
      var ok;
      ok, at, lastHexEscape := EscapeOne(src[i], dest, at, destLen, useHex, utf8Safe, lastHexEscape);
      if !ok { return -1; }
      overrun := overrun || (numbered && at == destLen);
    }
    NothingEscaped(useHex, utf8Safe, lastHexEscape);
    NoNumberInNothing(destLen - at, useHex, utf8Safe, lastHexEscape);
    assert src[|src|..] == [];
    if destLen - at < 1 { return -1; }
    ghost var text := dest[..at];
    dest[at] := 0;
    assert dest[..at] == text;
    used := at;
  }

  lemma NothingEndsAtZero(x: Bytes, useHex: bool, utf8Safe: bool)
    ensures !NumberEndsAt(x, 0, useHex, utf8Safe, false)
  {
  }

  lemma NoNumberInNothing(n: nat, useHex: bool, utf8Safe: bool, afterHex: bool)
    ensures !NumberEndsAt([], n, useHex, utf8Safe, afterHex)
  {
  }

  lemma NothingEscaped(useHex: bool, utf8Safe: bool, afterHex: bool)
    ensures Escaped([], useHex, utf8Safe, afterHex) == []
  {
  }

  // ---- The decoder -----------------------------------------------------------------

  /** The loop over the digits of \x, and of \u and \U as far as limit goes. */
  method ReadHex(src: array<Byte>, start: nat, end: nat) returns (k: nat, value: nat)
    requires start <= end <= src.Length
    ensures k == HexRun(src[start..end]) && value == HexValue(src[start..end][..k])
  {
    hide IsHexDigit, HexDigit, HexValue, HexRun;
    k, value := 0, 0;
    ghost var s := src[start..end];
    HexStart(s);
    while start + k < end && IsHexDigit(src[start + k])
      invariant start + k <= end && k + HexRun(s[k..]) == HexRun(s) && value == HexValue(s[..k])
    {
      assert s[k] == src[start + k];
      HexStep(s, k);
      value := (value * 16 + HexDigit(src[start + k])) % TWO32;
      k := k + 1;
    }
    assert start + k < end ==> s[k] == src[start + k];
    HexEnd(s, k);
  }

  lemma HexStart(s: Bytes)
    ensures HexRun(s[0..]) == HexRun(s) && HexValue(s[..0]) == 0
  {
    assert s[0..] == s && s[..0] == [];
  }

  lemma HexStep(s: Bytes, k: nat)
    requires k < |s| && IsHexDigit(s[k])
    ensures HexRun(s[k..]) == HexRun(s[k + 1..]) + 1
    ensures HexValue(s[..k + 1]) == (HexValue(s[..k]) * 16 + HexDigit(s[k])) % TWO32
  {
    assert s[k..][1..] == s[k + 1..] && s[..k + 1][..k] == s[..k];
  }

  lemma HexEnd(s: Bytes, k: nat)
    requires k <= |s| && (k < |s| ==> !IsHexDigit(s[k]))
    ensures HexRun(s[k..]) == 0
  {
  }

  method ReadOctal(src: array<Byte>, start: nat, end: nat) returns (k: nat, value: int)
    requires start < end <= src.Length && IsOctalDigit(src[start])
    ensures k == OctalRun(src[start..end]) && value == OctalValue(src[start..end][..k])
  {
    ghost var s := src[start..end];
    k, value := 1, src[start] - 48;
    assert s[..1][..0] == [] && OctalValue(s[..1]) == value;
    if start + 1 < end && IsOctalDigit(src[start + 1]) {
      value := value * 8 + src[start + 1] - 48;
      k := 2;
      assert s[..2][..1] == s[..1] && OctalValue(s[..2]) == value;
      if start + 2 < end && IsOctalDigit(src[start + 2]) {
        value := value * 8 + src[start + 2] - 48;
        k := 3;
        assert s[..3][..2] == s[..2] && OctalValue(s[..3]) == value;
      }
    }
  }

  lemma SubSlice(src: array<Byte>, p: nat, end: nat, i: nat, j: nat)
    requires p <= end <= src.Length && i <= j <= end - p
    ensures src[p..end][i..j] == src[p + i..p + j]
    ensures j == end - p ==> src[p..end][i..] == src[p + i..end]
    ensures i == 0 ==> src[p..end][..j] == src[p..p + j]
  {
    var s := src[p..end];
    forall k | 0 <= k < j - i ensures s[i..j][k] == src[p + i..p + j][k] {
    }
    assert s[i..j] == src[p + i..p + j];
    assert j == |s| ==> s[i..] == s[i..j];
    assert i == 0 ==> s[..j] == s[i..j];
  }

  lemma SliceFrom(src: array<Byte>, p: nat, size: nat)
    requires p <= size <= src.Length
    ensures src[..size][p..] == src[p..size]
  {
  }

  /** An octal escape. */
  method ReadOctalItem(src: array<Byte>, p: nat, end: nat, leaveNulls: bool) returns (ok: bool, width: nat, out: Bytes)
    requires p + 2 <= end <= src.Length && IsOctalDigit(src[p + 1])
    ensures OctalItem(src[p..end], leaveNulls) == if ok then Some(Item(width, out)) else None
  {
    hide OctalRun, OctalValue;
    ok, width, out := false, 0, [];
    var k, ch := ReadOctal(src, p + 1, end);
    SubSlice(src, p, end, 1, end - p);
    SubSlice(src, p, end, 1, 1 + k);
    SubSlice(src, p + 1, end, 0, k);
    if ch < 0 || ch > 0xff { return; }
    ok, width := true, 1 + k;
    SubSlice(src, p, end, 0, width);
    out := if ch == 0 && leaveNulls then src[p..p + width] else [ch];
  }

  /** A hexadecimal escape. */
  method ReadHexItem(src: array<Byte>, p: nat, end: nat, leaveNulls: bool) returns (ok: bool, width: nat, out: Bytes)
    requires p + 2 <= end <= src.Length
    ensures HexItem(src[p..end], leaveNulls) == if ok then Some(Item(width, out)) else None
  {
    hide HexRun, HexValue;
    ok, width, out := false, 0, [];
    var k, ch := ReadHex(src, p + 2, end);
    SubSlice(src, p, end, 2, end - p);
    SubSlice(src, p, end, 2, 2 + k);
    SubSlice(src, p + 2, end, 0, k);
    if k == 0 || ch > 0xff { return; }
    ok, width := true, 2 + k;
    SubSlice(src, p, end, 0, width);
    out := if ch == 0 && leaveNulls then src[p..p + width] else [ch];
  }

  /** The switch: the item at p, before the end of the text. */
  method ReadItem(src: array<Byte>, p: nat, end: nat, leaveNulls: bool) returns (ok: bool, width: nat, out: Bytes)
    requires p < end <= src.Length
    ensures NextItem(src[p..end], leaveNulls) == if ok then Some(Item(width, out)) else None
  {
    hide Simple, OctalItem, HexItem, RuneItem;
    ghost var s := src[p..end];
    assert s[0] == src[p];
    ok, width, out := false, 1, [src[p]];
    if src[p] != BACKSLASH {
      ok := true;
      PlainItem(s, leaveNulls);
    } else if p + 1 < end {
      var c := src[p + 1];
      assert s[1] == c;
      if Simple(c).Some? {
        ok, width, out := true, 2, [Simple(c).value];
      } else if IsOctalDigit(c) {
        ok, width, out := ReadOctalItem(src, p, end, leaveNulls);
      } else if c == 120 || c == 88 {
        ok, width, out := ReadHexItem(src, p, end, leaveNulls);
      } else if c == 117 || c == 85 {
        ok, width, out := ReadRune(src, p, end, if c == 117 then 4 else 8, leaveNulls);
      }
    }
  }

  /** \u and \U: exactly four or eight digits, below the Unicode limit. */
  method ReadRune(src: array<Byte>, p: nat, end: nat, digits: nat, leaveNulls: bool)
      returns (ok: bool, width: nat, out: Bytes)
    requires p + 2 <= end <= src.Length && (digits == 4 || digits == 8)
    ensures RuneItem(src[p..end], digits, leaveNulls) == if ok then Some(Item(width, out)) else None
  {
    hide HexRun, HexValue, Utf8;
    ghost var s := src[p..end];
    ok, width, out := false, 2 + digits, [];
    if p + 1 + digits >= end { return; }
    SubSlice(src, p, end, 2, 2 + digits);
    var k, rune := ReadHex(src, p + 2, p + 2 + digits);
    if k < digits { return; }
    assert src[p + 2..p + 2 + digits][..k] == src[p + 2..p + 2 + digits];
    if rune > 0x10FFFF { return; }
    ok := true;
    out := if rune == 0 && leaveNulls then src[p..p + width] else Utf8(rune);
    SubSlice(src, p, end, 0, width);
  }

  /** What has been decoded, and what is still to be, make up the whole. */
  ghost predicate Decoding(text: Bytes, done: Bytes, rest: Bytes, leaveNulls: bool) {
    Unescaped(text, leaveNulls) == match Unescaped(rest, leaveNulls) case None => None case Some(r) => Some(done + r)
  }

  lemma StartUnescape(text: Bytes, leaveNulls: bool)
    ensures text[0..] == text && Decoding(text, [], text, leaveNulls)
  {
    hide NextItem;
    match Unescaped(text, leaveNulls)
    case None =>
    case Some(r) => assert [] + r == r;
  }

  lemma DecodeItem(text: Bytes, done: Bytes, rest: Bytes, leaveNulls: bool)
    requires rest != [] && Decoding(text, done, rest, leaveNulls)
    ensures var i := NextItem(rest, leaveNulls);
            && (i == None ==> Unescaped(text, leaveNulls) == None)
            && (i.Some? ==> 1 <= i.value.width <= |rest| && |i.value.out| <= i.value.width)
            && (i.Some? ==> Decoding(text, done + i.value.out, rest[i.value.width..], leaveNulls))
  {
    ItemFits(rest, leaveNulls);
    hide NextItem;
    match NextItem(rest, leaveNulls)
    case None =>
    case Some(item) =>
      match Unescaped(rest[item.width..], leaveNulls)
      case None =>
      case Some(r) => Associative(done, item.out, r);
  }

  lemma EndUnescape(text: Bytes, done: Bytes, leaveNulls: bool)
    requires Decoding(text, done, [], leaveNulls)
    ensures Unescaped(text, leaveNulls) == Some(done)
  {
    assert done + [] == done;
  }

  lemma PlainItem(s: Bytes, leaveNulls: bool)
    requires s != [] && s[0] != BACKSLASH
    ensures NextItem(s, leaveNulls) == Some(Item(1, [s[0]]))
  {
    assert s[..1] == [s[0]];
  }

  lemma KeptAfter(was: Bytes, now: Bytes, d: nat, p: nat, size: nat)
    requires d <= p <= size <= |was| == |now| && now[d..] == was[d..]
    ensures now[p..size] == was[p..size]
  {
    assert now[d..][p - d..size - d] == now[p..size] && was[d..][p - d..size - d] == was[p..size];
  }

  /** Writing an item, with the rest of the text left as it was even in place. */
  method PutItem(src: array<Byte>, size: nat, dest: array<Byte>, d: nat, p: nat, out: Bytes)
    requires d + |out| <= p <= size <= src.Length && size <= dest.Length
    modifies dest
    ensures dest[..d + |out|] == old(dest[..d]) + out
    ensures src[p..size] == old(src[p..size])
  {
    ghost var was := dest[..];
    PutAll(dest, d, out);
    assert dest[..][d + |out|..] == dest[d + |out|..] == was[d + |out|..];
    if src == dest {
      KeptAfter(was, dest[..], d + |out|, p, size);
      assert src[p..size] == dest[..][p..size] && was[p..size] == old(src[p..size]);
    }
  }

  /** In place, nothing has to be written before the first backslash. */
  method SkipPlain(src: array<Byte>, size: nat, leaveNulls: bool) returns (p: nat)
    requires size <= src.Length
    ensures p <= size && Decoding(src[..size], src[..p], src[p..size], leaveNulls)
    ensures Tracking(src[..size], true, false, src[p..size], 0, leaveNulls)
  {
    hide NextItem, Unescaped, Decoding, Overlaps, Tracking;
    ghost var text := src[..size];
    p := 0;
    StartUnescape(text, leaveNulls);
    StartTracking(text, true, leaveNulls);
    assert src[0..size] == text && src[..0] == [];
    while p < size && src[p] != BACKSLASH
      invariant p <= size && Decoding(text, src[..p], src[p..size], leaveNulls)
      invariant Tracking(text, true, false, src[p..size], 0, leaveNulls)
    {
      ghost var rest := src[p..size];
      PlainItem(rest, leaveNulls);
      DecodeItem(text, src[..p], rest, leaveNulls);
      TrackPlain(text, true, false, rest, 0, leaveNulls);
      assert src[..p + 1] == src[..p] + [src[p]] && rest[1..] == src[p + 1..size];
      p := p + 1;
    }
  }

  /** The escape sequence item at the head of s is kept as it is; its memcpy copies what follows
      the backslash. */
  predicate IsKept(s: Bytes, item: Item) {
    s != [] && s[0] == BACKSLASH && |item.out| == item.width
  }

  /** Decoding in place, with the output gap bytes behind the input, some kept escape is copied
      onto a range that overlaps its own. */
  predicate Overlaps(s: Bytes, gap: nat, leaveNulls: bool)
    decreases |s|
  {
    s != []
    && var i := NextItem(s, leaveNulls);
       ItemFits(s, leaveNulls);
       i.Some?
       && ((IsKept(s, i.value) && gap < i.value.width - 1)
           || Overlaps(s[i.value.width..], gap + i.value.width - |i.value.out|, leaveNulls))
  }

  /** Only an escaped null character is kept, and only if asked for. */
  lemma KeptIsNull(s: Bytes, leaveNulls: bool)
    requires s != [] && NextItem(s, leaveNulls).Some? && IsKept(s, NextItem(s, leaveNulls).value)
    ensures leaveNulls && NextItem(s, false).Some? && NextItem(s, false).value.out == [0]
    ensures NextItem(s, leaveNulls).value.out == s[..NextItem(s, leaveNulls).value.width]
  {
    if |s| >= 6 {
      FourDigits(s[2..6]);
    }
  }

  /** Without leave_nulls_escaped nothing is copied, let alone onto itself. */
  lemma {:induction false} NoOverlap(s: Bytes, gap: nat)
    ensures !Overlaps(s, gap, false)
    decreases |s|
  {
    hide NextItem, IsKept;
    if s != [] {
      ItemFits(s, false);
      var i := NextItem(s, false);
      if i.Some? {
        if IsKept(s, i.value) {
          KeptIsNull(s, false);
        }
        NoOverlap(s[i.value.width..], gap + i.value.width - |i.value.out|);
      }
    }
  }

  /** The text \n\x0: one byte gained, and two bytes to move. */
  lemma ShortenedEscapeOverlaps()
    ensures Overlaps([BACKSLASH, 110, BACKSLASH, 120, 48], 0, true)
  {
    var s: Bytes := [BACKSLASH, 110, BACKSLASH, 120, 48];
    var t: Bytes := [BACKSLASH, 120, 48];
    assert NextItem(s, true) == Some(Item(2, [10]));
    assert s[2..] == t;
    assert t[2..] == [48] && [48][1..] == [] && HexRun([48]) == 1;
    assert t[2..3] == [48] && [48][..0] == [] && HexValue([48]) == 0;
    assert t[..3] == t;
    assert NextItem(t, true) == Some(Item(3, t));
  }

  /** What has been copied over itself so far, and what is still to be. */
  ghost predicate Tracking(text: Bytes, inPlace: bool, overlap: bool, rest: Bytes, gap: nat, leaveNulls: bool) {
    overlap || (inPlace && Overlaps(rest, gap, leaveNulls)) <==> inPlace && Overlaps(text, 0, leaveNulls)
  }

  lemma TrackItem(text: Bytes, inPlace: bool, overlap: bool, rest: Bytes, gap: nat, leaveNulls: bool)
    requires rest != [] && Tracking(text, inPlace, overlap, rest, gap, leaveNulls)
    ensures var i := NextItem(rest, leaveNulls);
            && (i == None ==> (overlap <==> inPlace && Overlaps(text, 0, leaveNulls)))
            && (i.Some? ==>
                  && i.value.width <= |rest| && |i.value.out| <= i.value.width
                  && var again := inPlace && IsKept(rest, i.value) && gap < i.value.width - 1;
                     Tracking(text, inPlace, overlap || again, rest[i.value.width..],
                              gap + i.value.width - |i.value.out|, leaveNulls))
  {
    hide NextItem, IsKept, Overlaps;
    ItemFits(rest, leaveNulls);
    OverlapsUnfold(rest, gap, leaveNulls);
  }

  lemma OverlapsUnfold(s: Bytes, gap: nat, leaveNulls: bool)
    requires s != []
    ensures var i := NextItem(s, leaveNulls);
            && (i == None ==> !Overlaps(s, gap, leaveNulls))
            && (i.Some? ==>
                  && i.value.width <= |s| && |i.value.out| <= i.value.width
                  && (Overlaps(s, gap, leaveNulls)
                      <==> (IsKept(s, i.value) && gap < i.value.width - 1)
                           || Overlaps(s[i.value.width..], gap + i.value.width - |i.value.out|, leaveNulls)))
  {
    hide NextItem, IsKept;
    ItemFits(s, leaveNulls);
  }

  lemma TrackPlain(text: Bytes, inPlace: bool, overlap: bool, rest: Bytes, gap: nat, leaveNulls: bool)
    requires rest != [] && rest[0] != BACKSLASH && Tracking(text, inPlace, overlap, rest, gap, leaveNulls)
    ensures Tracking(text, inPlace, overlap, rest[1..], gap, leaveNulls)
  {
    PlainItem(rest, leaveNulls);
    hide NextItem;
    TrackItem(text, inPlace, overlap, rest, gap, leaveNulls);
  }

  lemma StartTracking(text: Bytes, inPlace: bool, leaveNulls: bool)
    ensures Tracking(text, inPlace, false, text, 0, leaveNulls)
  {
  }

  lemma TrackEnd(text: Bytes, inPlace: bool, overlap: bool, gap: nat, leaveNulls: bool)
    requires Tracking(text, inPlace, overlap, [], gap, leaveNulls)
    ensures overlap <==> inPlace && Overlaps(text, 0, leaveNulls)
  {
  }

  /** CUnescapeInternal.  src and dest may be the same array: what is written never reaches what
      is still to be read.  A kept escape is moved as a whole; overlap tells that the memcpy which
      does this in the code was given overlapping ranges, where its result is not defined. */
  method Unescape(src: array<Byte>, size: nat, dest: array<Byte>, leaveNulls: bool)
      returns (ok: bool, destLen: nat, overlap: bool)
    requires size <= src.Length && size <= dest.Length
    modifies dest
    ensures overlap <==> src == dest && old(Overlaps(src[..size], 0, leaveNulls))
    ensures ok <==> old(Unescaped(src[..size], leaveNulls)).Some?
    ensures ok ==> destLen <= size && old(Unescaped(src[..size], leaveNulls)) == Some(dest[..destLen])
  {
    hide NextItem, Unescaped, Decoding, Overlaps, Tracking;
    ghost var text := src[..size];
    ok, destLen, overlap := false, 0, false;
    var p: nat := 0;
    StartTracking(text, src == dest, leaveNulls);
    if src == dest {
      p := SkipPlain(src, size, leaveNulls);
    } else {
      StartUnescape(text, leaveNulls);
      SliceFrom(src, 0, size);
    }
    var d: nat := p;
    while p < size
      invariant d <= p <= size && Decoding(text, dest[..d], src[p..size], leaveNulls)
      invariant Tracking(text, src == dest, overlap, src[p..size], p - d, leaveNulls)
    {
      ghost var rest := src[p..size];
      DecodeItem(text, dest[..d], rest, leaveNulls);
      TrackItem(text, src == dest, overlap, rest, p - d, leaveNulls);
      var good, width, out := ReadItem(src, p, size, leaveNulls);
      if !good { return; }
      assert rest[0] == src[p];
      overlap := overlap || (src == dest && src[p] == BACKSLASH && |out| == width && p - d < width - 1);
      assert rest[width..] == src[p + width..size];
      PutItem(src, size, dest, d, p + width, out);
      d, p := d + |out|, p + width;
    }
    assert src[p..size] == [];
    EndUnescape(text, dest[..d], leaveNulls);
    TrackEnd(text, src == dest, overlap, p - d, leaveNulls);
    ok, destLen := true, d;
  }
}
