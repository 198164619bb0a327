/** Base64 (strings/escaping.cc; sections 4 and 5 of RFC 4648): the encoder, and the decoder that
    takes four characters at a time where it can, against a character-at-a-time reading. */
module Base64 {
  import opened Wrappers

  type Byte = bv8
  type Text = seq<Byte>

  const PAD: Byte := 61
  const NUL: Byte := 0
  const BAD: bv32 := 0xffff_ffff

  // ---- Alphabets -------------------------------------------------------------------

  /** kBase64Chars and kWebSafeBase64Chars, for a value below 64. */
  function Char(v: Byte, webSafe: bool): Byte {
    if v < 26 then v + 65
    else if v < 52 then v - 26 + 97
    else if v < 62 then v - 52 + 48
    else if v == 62 then (if webSafe then 45 else 43)
    else (if webSafe then 95 else 47)
  }

  /** kUnBase64 and kUnWebSafeBase64. */
  function Value(c: Byte, webSafe: bool): bv32 {
    if 65 <= c <= 90 then (c - 65) as bv32
    else if 97 <= c <= 122 then (c - 97 + 26) as bv32
    else if 48 <= c <= 57 then (c - 48 + 52) as bv32
    else if c == (if webSafe then 45 else 43) then 62
    else if c == (if webSafe then 95 else 47) then 63
    else BAD
  }

  predicate IsData(c: Byte, webSafe: bool) {
    Value(c, webSafe) != BAD
  }

  predicate IsSpace(c: Byte) {
    c == 32 || 9 <= c <= 13
  }

  lemma ValueOfChar(v: Byte, webSafe: bool)
    requires v < 64
    ensures Value(Char(v, webSafe), webSafe) == v as bv32 != BAD
  {
  }

  lemma NotData(webSafe: bool)
    ensures !IsData(PAD, webSafe) && !IsData(NUL, webSafe) && !IsSpace(PAD) && !IsSpace(NUL)
  {
  }

  // ---- The encoding ----------------------------------------------------------------

  /** The six-bit values of three bytes a, b, c. */
  function First(a: Byte): Byte {
    a >> 2
  }

  function Second(a: Byte, b: Byte): Byte {
    ((a & 3) << 4) + (b >> 4)
  }

  function Third(b: Byte, c: Byte): Byte {
    ((b & 15) << 2) + (c >> 6)
  }

  function Fourth(c: Byte): Byte {
    c & 63
  }

  function Group3(a: Byte, b: Byte, c: Byte, webSafe: bool): (g: Text)
    ensures |g| == 4
  {
    [Char(First(a), webSafe), Char(Second(a, b), webSafe), Char(Third(b, c), webSafe), Char(Fourth(c), webSafe)]
  }

  function Group2(a: Byte, b: Byte, webSafe: bool): (g: Text)
    ensures |g| == 3
  {
    [Char(First(a), webSafe), Char(Second(a, b), webSafe), Char(Third(b, 0), webSafe)]
  }

  function Group1(a: Byte, webSafe: bool): (g: Text)
    ensures |g| == 2
  {
    [Char(First(a), webSafe), Char(Second(a, 0), webSafe)]
  }

  function Digits(x: Text, webSafe: bool): Text {
    if |x| >= 3 then Group3(x[0], x[1], x[2], webSafe) + Digits(x[3..], webSafe)
    else if |x| == 2 then Group2(x[0], x[1], webSafe)
    else if |x| == 1 then Group1(x[0], webSafe)
    else []
  }

  function Padding(n: nat, padding: bool): Text {
    if padding && n % 3 == 1 then [PAD, PAD] else if padding && n % 3 == 2 then [PAD] else []
  }

  function Encoding(x: Text, webSafe: bool, padding: bool): Text {
    Digits(x, webSafe) + Padding(|x|, padding)
  }

  /** CalculateBase64EscapedLen. */
  function EscapedLen(n: nat, padding: bool): nat {
    n / 3 * 4 + if n % 3 == 0 then 0 else if n % 3 == 1 then (if padding then 4 else 2) else if padding then 4 else 3
  }

  lemma {:induction false} DigitsLength(x: Text, webSafe: bool)
    ensures |Digits(x, webSafe)| == EscapedLen(|x|, false)
    decreases |x|
  {
    hide Char, Group3, Group2, Group1;
    if |x| >= 3 {
      DigitsLength(x[3..], webSafe);
      assert |x| / 3 == |x[3..]| / 3 + 1;
    }
  }

  /** The encoding is exactly as long as CalculateBase64EscapedLen says. */
  lemma EncodingLength(x: Text, webSafe: bool, padding: bool)
    ensures |Encoding(x, webSafe, padding)| == EscapedLen(|x|, padding)
  {
    hide Digits;
    DigitsLength(x, webSafe);
  }

  // ---- The decoding, one character at a time ---------------------------------------

  datatype Scan = Through(rest: Text, data: seq<bv32>) | Stopped(rest: Text, data: seq<bv32>, ch: Byte)

  /** The first loop: groups of four data characters with spaces between them.  remain is how
      many of the group are missing.  It ends before a group with fewer than four characters
      left, or right after a character that is neither data nor a space it may skip. */
  function Groups(s: Text, remain: nat, data: seq<bv32>, webSafe: bool): Scan
    requires 1 <= remain <= 4 && (remain < 4 ==> |s| >= remain)
    decreases |s|
  {
    if |s| < remain then Through(s, data)
    else if IsData(s[0], webSafe) then
      Groups(s[1..], if remain == 1 then 4 else remain - 1, data + [Value(s[0], webSafe)], webSafe)
    else if IsSpace(s[0]) && |s| > remain then Groups(s[1..], remain, data, webSafe)
    else Stopped(s[1..], data, s[0])
  }

  /** The second loop: up to a pad character, the character after a null, or the end. */
  function Singles(s: Text, data: seq<bv32>, webSafe: bool): Option<(Text, seq<bv32>)>
    decreases |s|
  {
    if s == [] then Some((s, data))
    else if IsData(s[0], webSafe) then Singles(s[1..], data + [Value(s[0], webSafe)], webSafe)
    else if IsSpace(s[0]) then Singles(s[1..], data, webSafe)
    else if s[0] == NUL then Some((s[1..], data))
    else if s[0] == PAD then Some((s, data))
    else None
  }

  function Data(s: Text, webSafe: bool): Option<(Text, seq<bv32>)> {
    AfterGroups(Groups(s, 4, [], webSafe), webSafe)
  }

  function AfterGroups(scan: Scan, webSafe: bool): Option<(Text, seq<bv32>)> {
    if scan.Stopped? && scan.ch == PAD then Some(([PAD] + scan.rest, scan.data))
    else if scan.Stopped? && scan.ch != NUL && !IsSpace(scan.ch) then None
    else Singles(scan.rest, scan.data, webSafe)
  }

  /** The pad characters at the end, up to a null; only spaces may be among them. */
  function Equals(s: Text): Option<nat> {
    if s == [] || s[0] == NUL then Some(0)
    else match Equals(s[1..])
      case None => None
      case Some(n) => if s[0] == PAD then Some(n + 1) else if IsSpace(s[0]) then Some(n) else None
  }

  /** Each value is six bits. */
  function Bits(d0: bv32, d1: bv32, d2: bv32, d3: bv32): bv32 {
    (((((d0 << 6) | d1) << 6) | d2) << 6) | d3
  }

  function Low(t: bv32): Byte {
    (t & 0xff) as bv8
  }

  function Middle(t: bv32): Byte {
    Low(t >> 8)
  }

  function Upper(t: bv32): Byte {
    Low(t >> 16)
  }

  function Cut2(t: bv32): bv32 {
    t >> 2
  }

  function Cut4(t: bv32): bv32 {
    t >> 4
  }

  function Cut8(t: bv32): bv32 {
    t >> 8
  }

  /** The bytes in four, three or two values. */
  function Bytes3(d0: bv32, d1: bv32, d2: bv32, d3: bv32): (bs: Text)
    ensures |bs| == 3
  {
    var t := Bits(d0, d1, d2, d3);
    [Upper(t), Middle(t), Low(t)]
  }

  function Bytes2(d0: bv32, d1: bv32, d2: bv32): (bs: Text)
    ensures |bs| == 2
  {
    var t := Bits(0, d0, d1, d2);
    [Middle(Cut2(t)), Low(Cut2(t))]
  }

  function Bytes1(d0: bv32, d1: bv32): (bs: Text)
    ensures |bs| == 1
  {
    [Low(Cut4(Bits(0, 0, d0, d1)))]
  }

  function Bytes(ds: seq<bv32>): (bs: Text)
    ensures |bs| == |ds| / 4 * 3 + if |ds| % 4 < 2 then 0 else |ds| % 4 - 1
  {
    if |ds| >= 4 then Bytes3(ds[0], ds[1], ds[2], ds[3]) + Bytes(ds[4..])
    else if |ds| == 3 then Bytes2(ds[0], ds[1], ds[2])
    else if |ds| == 2 then Bytes1(ds[0], ds[1])
    else []
  }

  /** Padding may be left out, but if present it must be complete. */
  function Decoding(s: Text, webSafe: bool): Option<Text> {
    match Data(s, webSafe)
    case None => None
    case Some((rest, data)) =>
      match Equals(rest)
      case None => None
      case Some(equals) =>
        if |data| % 4 == 1 then None
        else if equals == 0 || equals == Expected(|data| % 4) then Some(Bytes(data))
        else None
  }

  function Expected(state: nat): nat {
    if state == 2 then 2 else if state == 3 then 1 else 0
  }

  // ---- Round trip ------------------------------------------------------------------

  predicate AllData(t: Text, webSafe: bool) {
    forall i :: 0 <= i < |t| ==> IsData(t[i], webSafe)
  }

  function Values(t: Text, webSafe: bool): (vs: seq<bv32>)
    ensures |vs| == |t|
  {
    seq(|t|, i requires 0 <= i < |t| => Value(t[i], webSafe))
  }

  lemma {:induction false} SinglesOfData(t: Text, e: Text, data: seq<bv32>, webSafe: bool)
    requires AllData(t, webSafe) && (e != [] ==> e[0] == PAD)
    ensures Singles(t + e, data, webSafe) == Some((e, data + Values(t, webSafe)))
    decreases |t|
  {
    hide Value, IsSpace, IsData;
    NotData(webSafe);
    if t == [] {
      assert t + e == e && data + Values(t, webSafe) == data;
    } else {
      assert (t + e)[0] == t[0] && (t + e)[1..] == t[1..] + e;
      SinglesOfData(t[1..], e, data + [Value(t[0], webSafe)], webSafe);
      assert data + Values(t, webSafe) == data + [Value(t[0], webSafe)] + Values(t[1..], webSafe);
    }
  }

  lemma {:induction false} GroupsOfData(t: Text, e: Text, remain: nat, data: seq<bv32>, webSafe: bool)
    requires AllData(t, webSafe) && (e != [] ==> e[0] == PAD)
    requires 1 <= remain <= 4 && (remain < 4 ==> |t| + |e| >= remain)
    ensures AfterGroups(Groups(t + e, remain, data, webSafe), webSafe) == Some((e, data + Values(t, webSafe)))
    decreases |t|
  {
    hide Value, IsSpace, IsData;
    NotData(webSafe);
    if |t + e| < remain {
      SinglesOfData(t, e, data, webSafe);
    } else if t == [] {
      assert t + e == e && data + Values(t, webSafe) == data && [PAD] + e[1..] == e;
    } else {
      assert (t + e)[0] == t[0] && (t + e)[1..] == t[1..] + e;
      GroupsOfData(t[1..], e, if remain == 1 then 4 else remain - 1, data + [Value(t[0], webSafe)], webSafe);
      assert data + Values(t, webSafe) == data + [Value(t[0], webSafe)] + Values(t[1..], webSafe);
    }
  }

  lemma SixBits(a: Byte, b: Byte)
    ensures First(a) < 64 && Second(a, b) < 64 && Third(a, b) < 64 && Fourth(a) < 64
  {
  }

  function Wide(v: Byte): bv32 {
    v as bv32
  }

  lemma ThreeBytes(a: Byte, b: Byte, c: Byte)
    ensures var bs := Bytes3(Wide(First(a)), Wide(Second(a, b)), Wide(Third(b, c)), Wide(Fourth(c)));
            bs[0] == a && bs[1] == b && bs[2] == c
  {
  }

  lemma TwoBytes(a: Byte, b: Byte)
    ensures var bs := Bytes2(Wide(First(a)), Wide(Second(a, b)), Wide(Third(b, 0))); bs[0] == a && bs[1] == b
  {
  }

  lemma OneByte(a: Byte)
    ensures Bytes1(Wide(First(a)), Wide(Second(a, 0)))[0] == a
  {
  }

  lemma CharOfSix(v: Byte, webSafe: bool)
    requires v < 64
    ensures Value(Char(v, webSafe), webSafe) == Wide(v) && IsData(Char(v, webSafe), webSafe)
  {
    ValueOfChar(v, webSafe);
  }

  /** Decoding a group on its own. */
  lemma DecodeGroup3(a: Byte, b: Byte, c: Byte, webSafe: bool)
    ensures var g := Group3(a, b, c, webSafe); AllData(g, webSafe) && Bytes(Values(g, webSafe)) == [a, b, c]
  {
    hide Value, Char, First, Second, Third, Fourth, Bytes1, Bytes2, Bytes3, IsData, Wide;
    SixBits(a, b);
    SixBits(b, c);
    SixBits(c, c);
    CharOfSix(First(a), webSafe);
    CharOfSix(Second(a, b), webSafe);
    CharOfSix(Third(b, c), webSafe);
    CharOfSix(Fourth(c), webSafe);
    ThreeBytes(a, b, c);
    NoBytes();
  }

  lemma DecodeGroup2(a: Byte, b: Byte, webSafe: bool)
    ensures var g := Group2(a, b, webSafe); AllData(g, webSafe) && Bytes(Values(g, webSafe)) == [a, b]
  {
    hide Value, Char, First, Second, Third, Fourth, Bytes1, Bytes2, Bytes3, IsData, Wide;
    SixBits(a, b);
    SixBits(b, 0);
    CharOfSix(First(a), webSafe);
    CharOfSix(Second(a, b), webSafe);
    CharOfSix(Third(b, 0), webSafe);
    TwoBytes(a, b);
  }

  lemma DecodeGroup1(a: Byte, webSafe: bool)
    ensures var g := Group1(a, webSafe); AllData(g, webSafe) && Bytes(Values(g, webSafe)) == [a]
  {
    hide Value, Char, First, Second, Third, Fourth, Bytes1, Bytes2, Bytes3, IsData, Wide;
    SixBits(a, 0);
    CharOfSix(First(a), webSafe);
    CharOfSix(Second(a, 0), webSafe);
    OneByte(a);
  }

  lemma BytesOfGroup(g: Text, t: Text, webSafe: bool)
    requires |g| == 4
    ensures AllData(g, webSafe) && AllData(t, webSafe) ==> AllData(g + t, webSafe)
    ensures Bytes(Values(g + t, webSafe)) == Bytes(Values(g, webSafe)) + Bytes(Values(t, webSafe))
  {
    hide Bytes1, Bytes2, Bytes3, IsData;
    var vs := Values(g + t, webSafe);
    assert vs[4..] == Values(t, webSafe);
    assert Values(g, webSafe)[4..] == [];
    NoBytes();
  }

  lemma {:induction false} BytesOfDigits(x: Text, webSafe: bool)
    ensures AllData(Digits(x, webSafe), webSafe) && Bytes(Values(Digits(x, webSafe), webSafe)) == x
    decreases |x|
  {
    hide Value, Values, Bytes, Group3, Group2, Group1, AllData;
    if |x| >= 3 {
      BytesOfDigits(x[3..], webSafe);
      DecodeGroup3(x[0], x[1], x[2], webSafe);
      BytesOfGroup(Group3(x[0], x[1], x[2], webSafe), Digits(x[3..], webSafe), webSafe);
      assert x == [x[0], x[1], x[2]] + x[3..];
    } else if |x| == 2 {
      DecodeGroup2(x[0], x[1], webSafe);
    } else if |x| == 1 {
      DecodeGroup1(x[0], webSafe);
    } else {
      NoBytes();
      NoValues(webSafe);
    }
  }

  lemma NoBytes()
    ensures Bytes([]) == []
  {
  }

  lemma NoValues(webSafe: bool)
    ensures AllData([], webSafe) && Values([], webSafe) == []
  {
  }

  /** Decoding undoes encoding, for both alphabets, padded or not. */
  lemma RoundTrip(x: Text, webSafe: bool, padding: bool)
    ensures Decoding(Encoding(x, webSafe, padding), webSafe) == Some(x)
  {
    hide Digits, Groups, Singles, AfterGroups, Equals, Bytes, Values, Value;
    BytesOfDigits(x, webSafe);
    DigitsLength(x, webSafe);
    GroupsOfData(Digits(x, webSafe), Padding(|x|, padding), 4, [], webSafe);
    EqualsOfPadding(|x|, padding);
    assert [] + Values(Digits(x, webSafe), webSafe) == Values(Digits(x, webSafe), webSafe);
  }

  lemma EqualsOfPadding(n: nat, padding: bool)
    ensures Equals(Padding(n, padding)) == Some(|Padding(n, padding)|)
  {
    assert Equals([PAD]) == Some(1);
    assert [PAD, PAD][1..] == [PAD];
  }

  // ---- Spaces and padding ----------------------------------------------------------

  /** The text without white space: blanks, tabs, line feeds, vertical tabs, form feeds and
      carriage returns. */
  function Stripped(s: Text): Text {
    if s == [] then [] else (if s[0] == 32 || 9 <= s[0] <= 13 then [] else [s[0]]) + Stripped(s[1..])
  }

  predicate NullFree(s: Text) {
    forall i :: 0 <= i < |s| ==> s[i] != 0
  }

  /** Without a null character the two loops read what the second alone would. */
  lemma {:induction false} GroupsAreSingles(s: Text, remain: nat, data: seq<bv32>, webSafe: bool)
    requires NullFree(s) && 1 <= remain <= 4 && (remain < 4 ==> |s| >= remain)
    ensures AfterGroups(Groups(s, remain, data, webSafe), webSafe) == Singles(s, data, webSafe)
    decreases |s|
  {
    hide Value, IsSpace, IsData, Singles;
    NotData(webSafe);
    if |s| >= remain {
      SinglesStep(s, data, webSafe);
      if IsData(s[0], webSafe) {
        GroupsAreSingles(s[1..], if remain == 1 then 4 else remain - 1, data + [Value(s[0], webSafe)], webSafe);
      } else if IsSpace(s[0]) && |s| > remain {
        GroupsAreSingles(s[1..], remain, data, webSafe);
      } else {
        assert s == [s[0]] + s[1..];
      }
    }
  }

  lemma SpaceIs(c: Byte, webSafe: bool)
    ensures IsSpace(c) <==> c == 32 || 9 <= c <= 13
    ensures IsSpace(c) ==> !IsData(c, webSafe) && c != PAD && c != NUL
  {
  }

  lemma {:induction false} SinglesOfStripped(s: Text, data: seq<bv32>, webSafe: bool)
    requires NullFree(s)
    ensures var (d, e) := (Singles(s, data, webSafe), Singles(Stripped(s), data, webSafe));
            if d == None then e == None
            else NullFree(d.value.0) && e == Some((Stripped(d.value.0), d.value.1))
    decreases |s|
  {
    hide Value, IsSpace, IsData, Singles;
    NotData(webSafe);
    if s == [] {
      SinglesEnd(data, webSafe);
    } else {
      SpaceIs(s[0], webSafe);
      SinglesStep(s, data, webSafe);
      var more := if IsData(s[0], webSafe) then data + [Value(s[0], webSafe)] else data;
      SinglesOfStripped(s[1..], more, webSafe);
      if !IsSpace(s[0]) {
        assert Stripped(s)[0] == s[0] && Stripped(s)[1..] == Stripped(s[1..]);
        SinglesStep(Stripped(s), data, webSafe);
      } else {
        assert Stripped(s) == Stripped(s[1..]);
      }
    }
  }

  lemma {:induction false} EqualsOfStripped(s: Text)
    requires NullFree(s)
    ensures Equals(Stripped(s)) == Equals(s)
    decreases |s|
  {
    if s != [] {
      EqualsOfStripped(s[1..]);
      SpaceIs(s[0], false);
      hide IsSpace;
      if IsSpace(s[0]) {
        assert Stripped(s) == Stripped(s[1..]);
      } else {
        assert Stripped(s)[0] == s[0] && Stripped(s)[1..] == Stripped(s[1..]);
      }
    }
  }

  lemma {:induction false} StrippedIsNullFree(s: Text)
    requires NullFree(s)
    ensures NullFree(Stripped(s))
    decreases |s|
  {
    if s != [] {
      StrippedIsNullFree(s[1..]);
    }
  }

  /** White space anywhere in a text without null characters does not matter. */
  lemma SpacesDoNotMatter(s: Text, webSafe: bool)
    requires NullFree(s)
    ensures Decoding(s, webSafe) == Decoding(Stripped(s), webSafe)
  {
    hide Groups, Singles, AfterGroups, Equals, Bytes, Stripped;
    StrippedIsNullFree(s);
    GroupsAreSingles(s, 4, [], webSafe);
    GroupsAreSingles(Stripped(s), 4, [], webSafe);
    SinglesOfStripped(s, [], webSafe);
    match Singles(s, [], webSafe)
    case None =>
    case Some((rest, _)) => EqualsOfStripped(rest);
  }

  /** A null character between whole groups and at least three more characters is skipped, but one
      closer to the end is the end of the text. */
  lemma {:induction false} NullRule(t: Text, u: Text, data: seq<bv32>, webSafe: bool)
    requires AllData(t, webSafe) && |t| % 4 == 0 && NullFree(u)
    ensures AfterGroups(Groups(t + [0] + u, 4, data, webSafe), webSafe)
            == if |u| >= 3 then AfterGroups(Groups(t + u, 4, data, webSafe), webSafe)
               else Some((u, data + Values(t, webSafe)))
    decreases |t|
  {
    hide Groups, Singles, AfterGroups, Value, IsData;
    if t == [] {
      assert [] + [0] + u == [0] + u && [] + u == u;
      assert data + Values(t, webSafe) == data;
      NullFirst(u, data, webSafe);
    } else {
      var v := t[4..];
      FirstGroup(t, [0] + u, data, webSafe);
      FirstGroup(t, u, data, webSafe);
      Associative(t, [0], u);
      Associative(v, [0], u);
      NullRule(v, u, data + Values(t[..4], webSafe), webSafe);
      assert Values(t, webSafe) == Values(t[..4], webSafe) + Values(v, webSafe);
      Associative(data, Values(t[..4], webSafe), Values(v, webSafe));
    }
  }

  lemma NullFirst(u: Text, data: seq<bv32>, webSafe: bool)
    requires NullFree(u)
    ensures AfterGroups(Groups([0] + u, 4, data, webSafe), webSafe)
            == if |u| >= 3 then AfterGroups(Groups(u, 4, data, webSafe), webSafe) else Some((u, data))
  {
    hide Value, IsSpace, IsData;
    NotData(webSafe);
    assert ([0] + u)[1..] == u;
    GroupsAreSingles(u, 4, data, webSafe);
  }

  lemma FirstGroup(t: Text, s: Text, data: seq<bv32>, webSafe: bool)
    requires AllData(t, webSafe) && |t| >= 4
    ensures Groups(t + s, 4, data, webSafe) == Groups(t[4..] + s, 4, data + Values(t[..4], webSafe), webSafe)
  {
    hide Value, IsData, Groups;
    QuadOfGroups(t + s, data, webSafe);
    assert (t + s)[4..] == t[4..] + s;
    assert (t + s)[..4] == t[..4];
  }

  /** A character that is neither data nor white space nor a pad is refused wherever the data are
      read. */
  lemma {:induction false} BadCharacters(t: Text, c: Byte, u: Text, data: seq<bv32>, webSafe: bool)
    requires forall i :: 0 <= i < |t| ==> t[i] != 0 && t[i] != 61
    requires c != 0 && c != 61 && !IsData(c, webSafe) && !IsSpace(c)
    ensures Singles(t + [c] + u, data, webSafe) == None
    decreases |t|
  {
    var s := t + [c] + u;
    SinglesStep(s, data, webSafe);
    hide Singles, Value, IsData, IsSpace;
    if t != [] {
      var more := if IsData(t[0], webSafe) then data + [Value(t[0], webSafe)] else data;
      assert s[0] == t[0] && s[1..] == t[1..] + [c] + u;
      BadCharacters(t[1..], c, u, more, webSafe);
    } else {
      assert s[0] == c;
    }
  }

  function Pads(k: nat): (p: Text)
    ensures |p| == k
  {
    if k == 0 then [] else [61] + Pads(k - 1)
  }

  lemma {:induction false} EqualsOfPads(k: nat)
    ensures Equals(Pads(k)) == Some(k)
    decreases k
  {
    if k > 0 {
      assert Pads(k)[1..] == Pads(k - 1);
      EqualsOfPads(k - 1);
    }
  }

  /** Data characters and pads are a valid text if and only if no single character is left over and
      the pads are none or complete the last group. */
  lemma PaddingRule(t: Text, k: nat, webSafe: bool)
    requires AllData(t, webSafe)
    ensures Decoding(t + Pads(k), webSafe).Some? <==>
            |t| % 4 != 1 && (k == 0 || (|t| % 4 >= 2 && (|t| + k) % 4 == 0 && k < 4))
    ensures var d := Decoding(t + Pads(k), webSafe); d.Some? ==> |d.value| == |t| * 3 / 4
  {
    hide Decoding, Bytes, Values, Expected, Pads;
    DecodingOfData(t, k, webSafe);
    ExpectedIs(|t|, k);
  }

  lemma DecodingOfData(t: Text, k: nat, webSafe: bool)
    requires AllData(t, webSafe)
    ensures Decoding(t + Pads(k), webSafe)
            == if |t| % 4 != 1 && (k == 0 || k == Expected(|t| % 4)) then Some(Bytes(Values(t, webSafe))) else None
  {
    hide Groups, Singles, AfterGroups, Equals, Value, Bytes, Values, Expected;
    GroupsOfData(t, Pads(k), 4, [], webSafe);
    EqualsOfPads(k);
    assert [] + Values(t, webSafe) == Values(t, webSafe);
  }

  lemma ExpectedIs(n: nat, k: nat)
    ensures n % 4 != 1 && (k == 0 || k == Expected(n % 4)) <==>
            n % 4 != 1 && (k == 0 || (n % 4 >= 2 && (n + k) % 4 == 0 && k < 4))
    ensures n % 4 != 1 ==> n / 4 * 3 + (if n % 4 < 2 then 0 else n % 4 - 1) == n * 3 / 4
  {
    assert n == n / 4 * 4 + n % 4;
  }

  /** Two vectors: foobar, from section 10 of RFC 4648, and three bytes that use the two characters
      in which the alphabets differ. */
  lemma KnownEncodings(padding: bool)
    ensures Encoding([102, 111, 111, 98, 97, 114], false, padding) == [90, 109, 57, 118, 89, 109, 70, 121]
    ensures Encoding([251, 239, 255], false, padding) == [43, 43, 47, 47]
    ensures Encoding([251, 239, 255], true, padding) == [45, 45, 95, 95]
  {
    var x: Text := [102, 111, 111, 98, 97, 114];
    assert x[3..] == [98, 97, 114] && [98, 97, 114][3..] == [] && [251, 239, 255][3..] == [];
    assert Digits(x[3..], false) == Group3(98, 97, 114, false) + [];
    assert Digits(x, false) == Group3(102, 111, 111, false) + Digits(x[3..], false);
    assert Digits([251, 239, 255], false) == Group3(251, 239, 255, false) + [];
    assert Digits([251, 239, 255], true) == Group3(251, 239, 255, true) + [];
  }

  // ---- The encoder -----------------------------------------------------------------

  /** The switch at the end of Base64EscapeInternal: the last one or two bytes. */
  method EscapeTail(rest: Text, dest: array<Byte>, szdest: nat, at: nat, webSafe: bool, doPadding: bool)
      returns (ok: bool, end: nat)
    requires |rest| < 3 && at <= szdest <= dest.Length
    modifies dest
    ensures ok <==> at + |Encoding(rest, webSafe, doPadding)| <= szdest
    ensures ok ==> end == at + |Encoding(rest, webSafe, doPadding)|
    ensures ok ==> dest[..end] == old(dest[..at]) + Encoding(rest, webSafe, doPadding)
  {
    hide Group1, Group2, Group3, Encoding;
    EncodingOfTail(rest, webSafe, doPadding);
    ok, end := true, at;
    ghost var before := dest[..at];
    if |rest| == 1 {
      if szdest - end < 2 { return false, end; }
      var g := Group1(rest[0], webSafe);
      dest[end], dest[end + 1] := g[0], g[1];
      end := end + 2;
      assert dest[..end] == before + g;
      if doPadding {
        if szdest - end < 2 { return false, end; }
        dest[end], dest[end + 1] := PAD, PAD;
        end := end + 2;
        assert dest[..end] == before + (g + [PAD, PAD]);
      }
    } else if |rest| == 2 {
      if szdest - end < 3 { return false, end; }
      var g := Group2(rest[0], rest[1], webSafe);
      dest[end], dest[end + 1], dest[end + 2] := g[0], g[1], g[2];
      end := end + 3;
      assert dest[..end] == before + g;
      if doPadding {
        if szdest - end < 1 { return false, end; }
        dest[end] := PAD;
        end := end + 1;
        assert dest[..end] == before + (g + [PAD]);
      }
    }
  }

  lemma EncodingOfTail(rest: Text, webSafe: bool, doPadding: bool)
    requires |rest| < 3
    ensures Encoding(rest, webSafe, doPadding)
            == if |rest| == 0 then []
               else if |rest| == 1 then Group1(rest[0], webSafe) + (if doPadding then [PAD, PAD] else [])
               else Group2(rest[0], rest[1], webSafe) + (if doPadding then [PAD] else [])
  {
    hide Group1, Group2, Group3;
  }

  /** Base64EscapeInternal: the length of the encoding, or 0 if dest has too little room. */
  method Escape(src: Text, dest: array<Byte>, szdest: nat, webSafe: bool, doPadding: bool) returns (n: nat)
    requires szdest <= dest.Length
    modifies dest
    ensures n == if |Encoding(src, webSafe, doPadding)| <= szdest then |Encoding(src, webSafe, doPadding)| else 0
    ensures n > 0 ==> dest[..n] == Encoding(src, webSafe, doPadding)
  {
    hide Group1, Group2, Group3, Encoding;
    var done, at := 0, 0;
    assert src[0..] == src;
    while |src| - done > 2
      invariant done <= |src| && at <= szdest
      invariant dest[..at] + Encoding(src[done..], webSafe, doPadding) == Encoding(src, webSafe, doPadding)
    {
      ghost var more := Encoding(src[done + 3..], webSafe, doPadding);
      EncodingHead(src[done..], webSafe, doPadding);
      assert src[done..][3..] == src[done + 3..];
      if szdest - at < 4 { return 0; }
      ghost var before := dest[..at];
      var g := Group3(src[done], src[done + 1], src[done + 2], webSafe);
      dest[at], dest[at + 1], dest[at + 2], dest[at + 3] := g[0], g[1], g[2], g[3];
      assert dest[..at + 4] == before + g;
      Associative(before, g, more);
      at, done := at + 4, done + 3;
    }
    var ok, end := EscapeTail(src[done..], dest, szdest, at, webSafe, doPadding);
    n := if ok then end else 0;
  }

  lemma EncodingHead(x: Text, webSafe: bool, padding: bool)
    requires |x| >= 3
    ensures Encoding(x, webSafe, padding) == Group3(x[0], x[1], x[2], webSafe) + Encoding(x[3..], webSafe, padding)
  {
    hide Group1, Group2, Group3;
    assert |x[3..]| % 3 == |x| % 3;
  }

  // ---- The decoder -----------------------------------------------------------------

  function NextRemain(remain: nat): nat {
    if remain <= 1 then 4 else remain - 1
  }

  /** The GET_INPUT macro: the next data character of a group, or the character that stopped it. */
  method GetInput(src: Text, start: nat, remain: nat, webSafe: bool, ghost data: seq<bv32>)
      returns (pos: nat, decode: bv32, ch: Byte)
    requires 1 <= remain <= 4 && start + remain <= |src|
    ensures start < pos <= |src| && ch == src[pos - 1] && decode == Value(ch, webSafe)
    ensures decode != BAD ==> pos + remain - 1 <= |src|
    ensures Groups(src[start..], remain, data, webSafe)
            == if decode == BAD then Stopped(src[pos..], data, ch)
               else Groups(src[pos..], NextRemain(remain), data + [decode], webSafe)
  {
    hide Value, IsSpace;
    pos := start;
    while true
      invariant start <= pos && pos + remain <= |src|
      invariant Groups(src[start..], remain, data, webSafe) == Groups(src[pos..], remain, data, webSafe)
      decreases |src| - pos
    {
      ghost var s := src[pos..];
      assert s[0] == src[pos] && s[1..] == src[pos + 1..];
      ch := src[pos];
      pos := pos + 1;
      decode := Value(ch, webSafe);
      if decode == BAD {
        if IsSpace(ch) && |src| - pos >= remain { continue; }
        return;
      }
      return;
    }
  }

  /** How the first loop ended: scan is what the character-at-a-time reading says, and decode
      and ch are what the code remembers of it. */
  ghost predicate Ended(scan: Scan, rest: Text, data: seq<bv32>, decode: bv32, ch: Byte) {
    && scan.rest == rest && scan.data == data
    && (scan.Stopped? ==> decode == BAD && ch == scan.ch)
    && (scan.Through? ==> ch != PAD && (decode == BAD ==> ch == NUL))
  }

  /** Four good characters at once: the test of the high bit finds them good, and the word is
      the same as if they had been shifted in one by one. */
  function Quad(a: Byte, b: Byte, c: Byte, d: Byte, webSafe: bool): bv32 {
    (Value(a, webSafe) << 18) | (Value(b, webSafe) << 12) | (Value(c, webSafe) << 6) | Value(d, webSafe)
  }

  predicate HighBit(t: bv32) {
    t & 0x8000_0000 != 0
  }

  lemma QuadIsExact(a: Byte, b: Byte, c: Byte, d: Byte, webSafe: bool)
    ensures !HighBit(Quad(a, b, c, d, webSafe)) <==>
              IsData(a, webSafe) && IsData(b, webSafe) && IsData(c, webSafe) && IsData(d, webSafe)
    ensures !HighBit(Quad(a, b, c, d, webSafe)) ==>
              Quad(a, b, c, d, webSafe)
              == Bits(Value(a, webSafe), Value(b, webSafe), Value(c, webSafe), Value(d, webSafe))
  {
  }

  function Whole(data: seq<bv32>): seq<bv32> {
    data[..|data| - |data| % 4]
  }

  function Pending(data: seq<bv32>): (ds: seq<bv32>)
    ensures |ds| == |data| % 4
  {
    data[|data| - |data| % 4..]
  }

  function ShiftIn(temp: bv32, d: bv32): bv32 {
    (temp << 6) | d
  }

  /** The values ds shifted into temp, whose earlier contents were junk. */
  function ShiftedIn(junk: bv32, ds: seq<bv32>): bv32
    requires |ds| <= 4
  {
    if |ds| == 0 then junk
    else if |ds| == 1 then ShiftIn(junk, ds[0])
    else if |ds| == 2 then ShiftIn(ShiftIn(junk, ds[0]), ds[1])
    else if |ds| == 3 then ShiftIn(ShiftIn(ShiftIn(junk, ds[0]), ds[1]), ds[2])
    else ShiftIn(ShiftIn(ShiftIn(ShiftIn(junk, ds[0]), ds[1]), ds[2]), ds[3])
  }

  ghost predicate Holds(temp: bv32, ds: seq<bv32>)
    requires |ds| <= 4
  {
    exists junk :: temp == ShiftedIn(junk, ds)
  }

  lemma HoldsMore(temp: bv32, ds: seq<bv32>, d: bv32)
    requires |ds| <= 3 && Holds(temp, ds)
    ensures Holds(ShiftIn(temp, d), ds + [d])
  {
    hide ShiftIn;
    var junk :| temp == ShiftedIn(junk, ds);
    assert ShiftIn(temp, d) == ShiftedIn(junk, ds + [d]);
  }

  lemma HoldsFirst(d: bv32)
    ensures Holds(d, [d])
  {
    assert d == ShiftedIn(0, [d]);
  }

  lemma HoldsNothing(temp: bv32)
    ensures Holds(temp, [])
  {
    assert temp == ShiftedIn(temp, []);
  }

  /** The stores of the decoder: for a group of four values, and for the three or two left over.
      Whatever else is in temp is shifted out or cut off. */
  function Store3(t: bv32): (bs: Text) {
    [Low(Cut8(Cut8(t))), Low(Cut8(t)), Low(t)]
  }

  function Store2(t: bv32): (bs: Text) {
    [Low(Cut8(Cut2(t))), Low(Cut2(t))]
  }

  function Store1(t: bv32): (bs: Text) {
    [Low(Cut4(t))]
  }

  function Shift4(junk: bv32, a: bv32, b: bv32, c: bv32, d: bv32): bv32 {
    ShiftIn(ShiftIn(ShiftIn(ShiftIn(junk, a), b), c), d)
  }

  lemma JunkLow(junk: bv32, a: bv32, b: bv32, c: bv32, d: bv32)
    ensures Low(Shift4(junk, a, b, c, d)) == Low(Bits(a, b, c, d))
  {
  }

  lemma JunkMiddle(junk: bv32, a: bv32, b: bv32, c: bv32, d: bv32)
    ensures Low(Cut8(Shift4(junk, a, b, c, d))) == Middle(Bits(a, b, c, d))
  {
  }

  lemma JunkUpper(junk: bv32, a: bv32, b: bv32, c: bv32, d: bv32)
    ensures Low(Cut8(Cut8(Shift4(junk, a, b, c, d)))) == Upper(Bits(a, b, c, d))
  {
  }

  lemma Junk2(junk: bv32, a: bv32, b: bv32, c: bv32)
    ensures Low(Cut2(ShiftIn(ShiftIn(ShiftIn(junk, a), b), c))) == Low(Cut2(Bits(0, a, b, c)))
    ensures Low(Cut8(Cut2(ShiftIn(ShiftIn(ShiftIn(junk, a), b), c)))) == Middle(Cut2(Bits(0, a, b, c)))
  {
  }

  lemma Junk1(junk: bv32, a: bv32, b: bv32)
    ensures Low(Cut4(ShiftIn(ShiftIn(junk, a), b))) == Low(Cut4(Bits(0, 0, a, b)))
  {
  }

  lemma JunkIsLost(junk: bv32, a: bv32, b: bv32, c: bv32, d: bv32)
    ensures Store3(ShiftIn(ShiftIn(ShiftIn(ShiftIn(junk, a), b), c), d)) == Bytes3(a, b, c, d)
    ensures Store2(ShiftIn(ShiftIn(ShiftIn(junk, a), b), c)) == Bytes2(a, b, c)
    ensures Store1(ShiftIn(ShiftIn(junk, a), b)) == Bytes1(a, b)
  {
    hide ShiftIn, Bits, Low, Cut2, Cut4, Cut8, Middle, Upper;
    JunkLow(junk, a, b, c, d);
    JunkMiddle(junk, a, b, c, d);
    JunkUpper(junk, a, b, c, d);
    Junk2(junk, a, b, c);
    Junk1(junk, a, b);
  }

  lemma StoredBytes(temp: bv32, ds: seq<bv32>)
    requires 2 <= |ds| <= 4 && Holds(temp, ds)
    ensures (if |ds| == 4 then Store3(temp) else if |ds| == 3 then Store2(temp) else Store1(temp)) == Bytes(ds)
  {
    hide ShiftIn, Store1, Store2, Store3, Bytes1, Bytes2, Bytes3, Low;
    var junk :| temp == ShiftedIn(junk, ds);
    if |ds| == 4 {
      assert ds == [ds[0], ds[1], ds[2], ds[3]] && ds[4..] == [];
      NoBytes();
      JunkIsLost(junk, ds[0], ds[1], ds[2], ds[3]);
    } else if |ds| == 3 {
      assert ds == [ds[0], ds[1], ds[2]];
      JunkIsLost(junk, ds[0], ds[1], ds[2], 0);
    } else {
      assert ds == [ds[0], ds[1]];
      JunkIsLost(junk, ds[0], ds[1], 0, 0);
    }
  }

  /** One group read by GET_INPUT; with stopped, the values before the character that stopped it. */
  method ReadGroup(src: Text, start: nat, webSafe: bool, junk: bv32, ghost data: seq<bv32>)
      returns (stopped: bool, got: nat, pos: nat, temp: bv32, decode: bv32, ch: Byte, ghost ds: seq<bv32>)
    requires start + 4 <= |src|
    ensures start < pos <= |src| && ch == src[pos - 1] && decode == Value(ch, webSafe) && (stopped <==> decode == BAD)
    ensures Groups(src[start..], 4, data, webSafe)
            == if stopped then Stopped(src[pos..], data + ds, ch) else Groups(src[pos..], 4, data + ds, webSafe)
    ensures if stopped then |ds| < 4 else |ds| == 4
    ensures |ds| == got <= 4 && Holds(temp, ds)
  {
    hide Groups, Value, ShiftIn, Holds, Low;
    ds := [];
    temp := junk;
    HoldsNothing(temp);
    pos := start;
    var remain := 4;
    stopped := false;
    assert data + ds == data;
    decode, ch := 0, 0;
    while remain > 0
      invariant start <= pos && pos + remain <= |src| && |ds| == 4 - remain && Holds(temp, ds)
      invariant remain < 4 ==> start < pos && ch == src[pos - 1] && decode == Value(ch, webSafe) != BAD
      invariant Groups(src[start..], 4, data, webSafe)
                == Groups(src[pos..], if remain == 0 then 4 else remain, data + ds, webSafe)
    {
      pos, decode, ch := GetInput(src, pos, remain, webSafe, data + ds);
      if decode == BAD {
        stopped, got := true, 4 - remain;
        return;
      }
      Associative(data, ds, [decode]);
      if remain == 4 {
        HoldsFirst(decode);
        assert ds + [decode] == [decode];
        temp := decode;
      } else {
        HoldsMore(temp, ds, decode);
        temp := ShiftIn(temp, decode);
      }
      ds := ds + [decode];
      remain := remain - 1;
    }
    got := 4;
  }

  /** What has been decoded: the bytes of the whole groups are in dest, unless it is null, and
      the values of an incomplete group are in temp. */
  ghost predicate Kept(dest: array?<Byte>, szdest: nat, destidx: nat, temp: bv32, data: seq<bv32>)
    reads if dest == null then {} else {dest}
  {
    && destidx == |data| / 4 * 3
    && (dest != null ==> destidx <= szdest <= dest.Length && dest[..destidx] == Bytes(Whole(data)))
    && (dest != null ==> Holds(temp, Pending(data)))
  }

  /** The decoding, or an error if dest has too little room for it. */
  function Outcome(d: Option<Text>, checkOnly: bool, szdest: nat): int {
    match d
    case None => -1
    case Some(bs) => if checkOnly || |bs| <= szdest then |bs| else -1
  }

  lemma BytesConcat(ds: seq<bv32>, es: seq<bv32>)
    requires |ds| % 4 == 0
    ensures Bytes(ds + es) == Bytes(ds) + Bytes(es)
    decreases |ds|
  {
    hide Bytes1, Bytes2, Bytes3;
    if ds == [] {
      assert ds + es == es;
    } else {
      assert (ds + es)[4..] == ds[4..] + es;
      BytesConcat(ds[4..], es);
    }
  }

  /** Storing a complete group. */
  method StoreGroup(dest: array<Byte>, szdest: nat, destidx: nat, ghost was: bv32, temp: bv32,
                    ghost data: seq<bv32>, ghost ds: seq<bv32>) returns (rest: bv32)
    requires Kept(dest, szdest, destidx, was, data) && |data| % 4 == 0 && destidx + 3 <= szdest
    requires |ds| == 4 && Holds(temp, ds)
    modifies dest
    ensures Kept(dest, szdest, destidx + 3, rest, data + ds)
  {
    hide Holds, Bytes, Store3;
    assert Whole(data) == data;
    StoredBytes(temp, ds);
    BytesConcat(data, ds);
    rest := StoreThree(dest, destidx, temp);
    HoldsNothing(rest);
    assert Whole(data + ds) == data + ds && Pending(data + ds) == [];
  }

  /** The three stores, from the last byte to the first. */
  method StoreThree(dest: array<Byte>, destidx: nat, temp: bv32) returns (rest: bv32)
    requires destidx + 2 < dest.Length
    modifies dest
    ensures dest[..destidx + 3] == old(dest[..destidx]) + Store3(temp)
  {
    hide Low, Cut8;
    rest := temp;
    dest[destidx + 2] := Low(rest);
    rest := Cut8(rest);
    dest[destidx + 1] := Low(rest);
    rest := Cut8(rest);
    dest[destidx] := Low(rest);
  }

  /** Four characters at once, when all of them are data. */
  lemma QuadOfGroups(s: Text, data: seq<bv32>, webSafe: bool)
    requires |s| >= 4
    requires IsData(s[0], webSafe) && IsData(s[1], webSafe) && IsData(s[2], webSafe) && IsData(s[3], webSafe)
    ensures Groups(s, 4, data, webSafe) == Groups(s[4..], 4, data + Values(s[..4], webSafe), webSafe)
  {
    hide Value, IsData;
    assert s[1..][1..] == s[2..] && s[2..][1..] == s[3..] && s[3..][1..] == s[4..];
    var (a, b, c, d) := (Value(s[0], webSafe), Value(s[1], webSafe), Value(s[2], webSafe), Value(s[3], webSafe));
    assert Groups(s, 4, data, webSafe) == Groups(s[1..], 3, data + [a], webSafe);
    assert Groups(s[1..], 3, data + [a], webSafe) == Groups(s[2..], 2, data + [a] + [b], webSafe);
    assert Groups(s[2..], 2, data + [a] + [b], webSafe) == Groups(s[3..], 1, data + [a] + [b] + [c], webSafe);
    assert data + [a] + [b] + [c] + [d] == data + Values(s[..4], webSafe);
  }

  lemma {:induction false} GroupsGrow(s: Text, remain: nat, data: seq<bv32>, webSafe: bool)
    requires 1 <= remain <= 4 && (remain < 4 ==> |s| >= remain)
    ensures |Groups(s, remain, data, webSafe).data| >= |data|
    decreases |s|
  {
    if |s| >= remain {
      if IsData(s[0], webSafe) {
        GroupsGrow(s[1..], if remain == 1 then 4 else remain - 1, data + [Value(s[0], webSafe)], webSafe);
      } else if IsSpace(s[0]) && |s| > remain {
        GroupsGrow(s[1..], remain, data, webSafe);
      }
    }
  }

  lemma {:induction false} SinglesGrow(s: Text, data: seq<bv32>, webSafe: bool)
    ensures Singles(s, data, webSafe).Some? ==> |Singles(s, data, webSafe).value.1| >= |data|
    decreases |s|
  {
    if s != [] {
      if IsData(s[0], webSafe) {
        SinglesGrow(s[1..], data + [Value(s[0], webSafe)], webSafe);
      } else if IsSpace(s[0]) {
        SinglesGrow(s[1..], data, webSafe);
      }
    }
  }

  /** Whatever the rest of the input is, the decoding will not fit. */
  ghost predicate TooLong(src: Text, webSafe: bool, szdest: nat) {
    Data(src, webSafe).Some? ==> |Data(src, webSafe).value.1| / 4 * 3 > szdest
  }

  lemma TooLongByGroups(src: Text, rest: Text, data: seq<bv32>, webSafe: bool, szdest: nat)
    requires Groups(src, 4, [], webSafe) == Groups(rest, 4, data, webSafe) && |data| / 4 * 3 > szdest
    ensures TooLong(src, webSafe, szdest)
  {
    hide Groups, Singles;
    GroupsGrow(rest, 4, data, webSafe);
    var scan := Groups(src, 4, [], webSafe);
    SinglesGrow(scan.rest, scan.data, webSafe);
  }

  lemma BitsShift(a: bv32, b: bv32, c: bv32, d: bv32)
    ensures Bits(a, b, c, d) == Shift4(0, a, b, c, d)
  {
  }

  lemma HoldsBits(a: bv32, b: bv32, c: bv32, d: bv32)
    ensures Holds(Bits(a, b, c, d), [a, b, c, d])
  {
    hide Bits, ShiftIn;
    BitsShift(a, b, c, d);
    assert Bits(a, b, c, d) == ShiftedIn(0, [a, b, c, d]);
  }

  /** One round of the first loop: four good characters at once, or one by one. */
  method NextGroup(src: Text, start: nat, webSafe: bool, ghost data: seq<bv32>)
      returns (stopped: bool, got: nat, pos: nat, temp: bv32, decode: bv32, ch: Byte, ghost ds: seq<bv32>)
    requires start + 4 <= |src|
    ensures start < pos <= |src| && |ds| == got <= 4 && Holds(temp, ds)
    ensures stopped ==> |ds| < 4 && Groups(src[start..], 4, data, webSafe) == Stopped(src[pos..], data + ds, ch)
                        && decode == BAD && ch == src[pos - 1]
    ensures !stopped ==>
              |ds| == 4 && Groups(src[start..], 4, data, webSafe) == Groups(src[pos..], 4, data + ds, webSafe)
                         && ch != PAD && (decode == BAD ==> ch == NUL)
  {
    hide Groups, Value, Quad, Bits, Holds, HighBit;
    var quad := Quad(src[start], src[start + 1], src[start + 2], src[start + 3], webSafe);
    if src[start] == NUL || src[start + 1] == NUL || src[start + 2] == NUL || HighBit(quad) {
      stopped, got, pos, temp, decode, ch, ds := ReadGroup(src, start, webSafe, quad, data);
      NotData(webSafe);
    } else {
      ghost var s := src[start..];
      QuadIsExact(src[start], src[start + 1], src[start + 2], src[start + 3], webSafe);
      QuadOfGroups(s, data, webSafe);
      ds := Values(s[..4], webSafe);
      HoldsBits(ds[0], ds[1], ds[2], ds[3]);
      assert ds == [ds[0], ds[1], ds[2], ds[3]] && s[4..] == src[start + 4..];
      stopped, got, temp := false, 4, quad;
      pos, decode, ch := start + 4, BAD, NUL;
    }
  }

  /** The first loop.  The code has it twice, with and without the stores: the second copy, for
      a null dest, does not keep temp either. */
  method FirstLoop(src: Text, dest: array?<Byte>, szdest: nat, webSafe: bool)
      returns (overflow: bool, pos: nat, destidx: nat, state: nat, temp: bv32, decode: bv32, ch: Byte,
               ghost data: seq<bv32>)
    requires dest != null ==> szdest <= dest.Length
    modifies if dest == null then {} else {dest}
    ensures overflow ==> dest != null && TooLong(src, webSafe, szdest)
    ensures !overflow ==> pos <= |src| && (ch == PAD ==> pos > 0 && src[pos - 1] == PAD)
    ensures !overflow ==> Ended(Groups(src, 4, [], webSafe), src[pos..], data, decode, ch)
    ensures !overflow ==> Kept(dest, szdest, destidx, temp, data) && state == |data| % 4
  {
    hide Groups, Bytes, Holds, TooLong, Kept;
    overflow, pos, destidx, state, temp, decode, ch, data := false, 0, 0, 0, 0, 0, 0, [];
    assert src[0..] == src;
    NothingKept(dest, szdest);
    while |src| - pos >= 4
      invariant pos <= |src| && |data| % 4 == 0 && destidx == |data| / 4 * 3
      invariant Groups(src, 4, [], webSafe) == Groups(src[pos..], 4, data, webSafe)
      invariant Kept(dest, szdest, destidx, temp, data)
      invariant ch != PAD && (decode == BAD ==> ch == NUL)
      decreases |src| - pos
    {
      var stopped; ghost var ds; var was := temp;
      var got;
      stopped, got, pos, temp, decode, ch, ds := NextGroup(src, pos, webSafe, data);
      if stopped {
        KeepMore(dest, szdest, destidx, was, data, temp, ds);
        data := data + ds;
        state := got;
        return;
      }
      if dest != null {
        if destidx + 3 > szdest {
          TooLongByGroups(src, src[pos..], data + ds, webSafe, szdest);
          overflow := true;
          return;
        }
        temp := StoreGroup(dest, szdest, destidx, was, temp, data, ds);
      } else {
        KeepNull(szdest, destidx + 3, temp, data + ds);
      }
      data := data + ds;
      destidx := destidx + 3;
    }
    GroupsEnd(src[pos..], data, webSafe);
  }

  lemma NothingKept(dest: array?<Byte>, szdest: nat)
    requires dest != null ==> szdest <= dest.Length
    ensures Kept(dest, szdest, 0, 0, [])
  {
    NoBytes();
    HoldsNothing(0);
  }

  lemma KeepNull(szdest: nat, destidx: nat, temp: bv32, data: seq<bv32>)
    requires destidx == |data| / 4 * 3
    ensures Kept(null, szdest, destidx, temp, data)
  {
  }

  /** Values of an incomplete group after whole groups. */
  lemma KeepMore(dest: array?<Byte>, szdest: nat, destidx: nat, was: bv32, data: seq<bv32>, temp: bv32, ds: seq<bv32>)
    requires Kept(dest, szdest, destidx, was, data) && |data| % 4 == 0 && |ds| < 4 && Holds(temp, ds)
    ensures Kept(dest, szdest, destidx, temp, data + ds) && |data + ds| % 4 == |ds|
  {
    assert Whole(data + ds) == Whole(data) == data && Pending(data + ds) == ds;
  }

  lemma GroupsEnd(s: Text, data: seq<bv32>, webSafe: bool)
    requires |s| < 4
    ensures Groups(s, 4, data, webSafe) == Through(s, data)
  {
  }

  /** One data character in the second loop: a group of four is stored, if there is room. */
  method PutValue(dest: array?<Byte>, szdest: nat, destidx0: nat, state0: nat, temp0: bv32, ghost data: seq<bv32>,
                  decode: bv32)
      returns (overflow: bool, destidx: nat, state: nat, temp: bv32)
    requires Kept(dest, szdest, destidx0, temp0, data) && state0 == |data| % 4
    modifies if dest == null then {} else {dest}
    ensures overflow ==> dest != null && |data + [decode]| / 4 * 3 > szdest
    ensures !overflow ==> Kept(dest, szdest, destidx, temp, data + [decode]) && state == |data + [decode]| % 4
  {
    hide Value, Bytes, Holds, ShiftIn, Kept, Whole;
    AddValue(dest, szdest, destidx0, temp0, data, decode);
    overflow, destidx, state, temp := false, destidx0, state0 + 1, ShiftIn(temp0, decode);
    ghost var more := data + [decode];
    if state == 4 {
      if dest != null {
        if destidx + 3 > szdest {
          overflow := true;
          return;
        }
        temp := StoreGroup(dest, szdest, destidx, temp0, temp, Whole(data), more[|more| - 4..]);
      }
      destidx := destidx + 3;
      state := 0;
      temp := 0;
      KeepAny(dest, szdest, destidx, temp, more);
    }
  }

  /** The second loop, from what the first one has left. */
  method SecondLoop(src: Text, start: nat, dest: array?<Byte>, szdest: nat, webSafe: bool,
                    destidx0: nat, state0: nat, temp0: bv32, ghost data0: seq<bv32>)
      returns (failed: bool, pos: nat, destidx: nat, state: nat, temp: bv32, ghost data: seq<bv32>)
    requires start <= |src| && Kept(dest, szdest, destidx0, temp0, data0) && state0 == |data0| % 4
    modifies if dest == null then {} else {dest}
    ensures failed ==> var d := Singles(src[start..], data0, webSafe);
                       d == None || (dest != null && |d.value.1| / 4 * 3 > szdest)
    ensures !failed ==> pos <= |src| && Singles(src[start..], data0, webSafe) == Some((src[pos..], data))
    ensures !failed ==> Kept(dest, szdest, destidx, temp, data) && state == |data| % 4
  {
    hide Singles, Value, Bytes, Holds, ShiftIn, IsSpace, Low, IsData, Kept, Whole;
    failed, pos, destidx, temp, data := false, start, destidx0, temp0, data0;
    state := state0;
    while pos < |src|
      invariant pos <= |src| && state == |data| % 4
      invariant Singles(src[start..], data0, webSafe) == Singles(src[pos..], data, webSafe)
      invariant Kept(dest, szdest, destidx, temp, data)
      decreases |src| - pos
    {
      ghost var s := src[pos..];
      assert s[0] == src[pos] && s[1..] == src[pos + 1..];
      SinglesStep(s, data, webSafe);
      var ch := src[pos];
      pos := pos + 1;
      if !IsData(ch, webSafe) {
        if IsSpace(ch) { continue; }
        if ch == NUL { return; }
        if ch == PAD {
          pos := pos - 1;
          return;
        }
        failed := true;
        return;
      }
      var decode := Value(ch, webSafe);
      ghost var more := data + [decode];
      failed, destidx, state, temp := PutValue(dest, szdest, destidx, state, temp, data, decode);
      if failed {
        SinglesGrow(src[pos..], more, webSafe);
        return;
      }
      data := more;
    }
    assert src[pos..] == [];
    SinglesEnd(data, webSafe);
  }

  /** Between groups it does not matter what is in temp. */
  lemma KeepAny(dest: array?<Byte>, szdest: nat, destidx: nat, temp: bv32, data: seq<bv32>)
    requires |data| % 4 == 0 && destidx == |data| / 4 * 3
    requires dest == null || exists t :: Kept(dest, szdest, destidx, t, data)
    ensures Kept(dest, szdest, destidx, temp, data)
  {
    HoldsNothing(temp);
    assert Pending(data) == [];
  }

  lemma SinglesEnd(data: seq<bv32>, webSafe: bool)
    ensures Singles([], data, webSafe) == Some(([], data))
  {
  }

  lemma SinglesStep(s: Text, data: seq<bv32>, webSafe: bool)
    requires s != []
    ensures Singles(s, data, webSafe) ==
            if IsData(s[0], webSafe) then Singles(s[1..], data + [Value(s[0], webSafe)], webSafe)
            else if IsSpace(s[0]) then Singles(s[1..], data, webSafe)
            else if s[0] == NUL then Some((s[1..], data))
            else if s[0] == PAD then Some((s, data))
            else None
  {
    hide Value, IsSpace;
  }

  /** One more value: it joins the incomplete group, or completes it. */
  lemma AddValue(dest: array?<Byte>, szdest: nat, destidx: nat, temp: bv32, data: seq<bv32>, d: bv32)
    requires Kept(dest, szdest, destidx, temp, data)
    ensures var (more, t) := (data + [d], ShiftIn(temp, d));
            && destidx == |data| / 4 * 3
            && (|data| % 4 < 3 ==> Kept(dest, szdest, destidx, t, more) && |more| % 4 == |data| % 4 + 1)
            && (|data| % 4 == 3 ==>
                  && |more| / 4 * 3 == destidx + 3 && |more| % 4 == 0 && |Whole(data)| % 4 == 0
                  && Kept(dest, szdest, destidx, temp, Whole(data)) && Whole(data) + more[|more| - 4..] == more
                  && (dest != null ==> Holds(t, more[|more| - 4..])))
  {
    hide Holds, ShiftIn, Bytes, Whole, Pending;
    if dest != null {
      HoldsMore(temp, Pending(data), d);
    }
    HoldsNothing(temp);
    MoreParts(data, d);
  }

  lemma MoreParts(data: seq<bv32>, d: bv32)
    ensures var more := data + [d];
            && |Whole(data)| % 4 == 0 && |Whole(data)| / 4 == |data| / 4
            && Whole(Whole(data)) == Whole(data) && Pending(Whole(data)) == []
            && (|data| % 4 < 3 ==> Whole(more) == Whole(data) && Pending(more) == Pending(data) + [d]
                                   && |more| / 4 == |data| / 4 && |more| % 4 == |data| % 4 + 1)
            && (|data| % 4 == 3 ==>
                  && more[|more| - 4..] == Pending(data) + [d]
                  && Whole(data) + more[|more| - 4..] == more
                  && |more| / 4 == |data| / 4 + 1 && |more| % 4 == 0)
  {
  }

  method StoreOne(dest: array<Byte>, destidx: nat, temp: bv32)
    requires destidx < dest.Length
    modifies dest
    ensures dest[..destidx + 1] == old(dest[..destidx]) + Store1(temp)
  {
    hide Low, Cut4;
    dest[destidx] := Low(Cut4(temp));
  }

  method StoreTwo(dest: array<Byte>, destidx: nat, temp: bv32)
    requires destidx + 1 < dest.Length
    modifies dest
    ensures dest[..destidx + 2] == old(dest[..destidx]) + Store2(temp)
  {
    hide Low, Cut2, Cut8;
    dest[destidx + 1] := Low(Cut2(temp));
    dest[destidx] := Low(Cut8(Cut2(temp)));
  }

  /** The switch after the loops: the one or two bytes of an incomplete group. */
  method FinishGroup(dest: array?<Byte>, szdest: nat, destidx: nat, state: nat, temp: bv32, ghost data: seq<bv32>)
      returns (failed: bool, len: nat, expected: nat)
    requires Kept(dest, szdest, destidx, temp, data) && state == |data| % 4
    modifies if dest == null then {} else {dest}
    ensures failed <==> state == 1 || (dest != null && |Bytes(data)| > szdest)
    ensures !failed ==> len == |Bytes(data)| && expected == Expected(state)
    ensures !failed && dest != null ==> len <= dest.Length && dest[..len] == Bytes(data)
  {
    hide Bytes, Holds, Store1, Store2, Store3;
    failed, len, expected := false, destidx, 0;
    BytesConcat(Whole(data), Pending(data));
    assert Whole(data) + Pending(data) == data;
    match state
    case 0 =>
      NoBytes();
    case 1 =>
      failed := true;
    case 2 =>
      if dest != null {
        if destidx + 1 > szdest { failed := true; return; }
        StoredBytes(temp, Pending(data));
        StoreOne(dest, destidx, temp);
      }
      len, expected := len + 1, 2;
    case 3 =>
      if dest != null {
        if destidx + 2 > szdest { failed := true; return; }
        StoredBytes(temp, Pending(data));
        StoreTwo(dest, destidx, temp);
      }
      len, expected := len + 2, 1;
  }

  /** The last loop: count the pad characters. */
  method CountEquals(src: Text, start: nat) returns (failed: bool, equals: nat)
    requires start <= |src|
    ensures Equals(src[start..]) == if failed then None else Some(equals)
  {
    hide IsSpace;
    failed, equals := false, 0;
    var pos := start;
    while pos < |src| && src[pos] != NUL
      invariant start <= pos <= |src|
      invariant Plus(equals, Equals(src[pos..])) == Equals(src[start..])
    {
      ghost var s := src[pos..];
      assert s[0] == src[pos] && s[1..] == src[pos + 1..];
      NotData(false);
      if src[pos] == PAD {
        equals := equals + 1;
      } else if !IsSpace(src[pos]) {
        failed := true;
        return;
      }
      pos := pos + 1;
    }
  }

  function Plus(n: nat, m: Option<nat>): Option<nat> {
    if m.None? then None else Some(n + m.value)
  }

  /** Base64UnescapeInternal.  Both modes follow the character-at-a-time decoding, on every
      input: with a null dest the result is the length of the decoding or -1, and with a dest it
      is the same, except that it is -1 as well if the decoding is longer than szdest. */
  method Unescape(src: Text, dest: array?<Byte>, szdest: nat, webSafe: bool) returns (r: int)
    requires dest != null ==> szdest <= dest.Length
    modifies if dest == null then {} else {dest}
    ensures r == Outcome(Decoding(src, webSafe), dest == null, szdest)
    ensures dest != null && r >= 0 ==> r <= dest.Length && Decoding(src, webSafe) == Some(dest[..r])
  {
    hide *;
    var overflow, pos, destidx, state, temp, decode, ch;
    ghost var data;
    overflow, pos, destidx, state, temp, decode, ch, data := FirstLoop(src, dest, szdest, webSafe);
    if overflow {
      NoRoom(src, webSafe, szdest);
      return -1;
    }
    DataOfEnded(src, pos, data, decode, ch, webSafe);
    if decode == BAD && ch != NUL && ch != PAD && !IsSpace(ch) {
      DecodingOf(src, webSafe, dest == null, szdest);
      return -1;
    }
    if ch == PAD {
      pos := pos - 1;
    } else {
      var failed;
      failed, pos, destidx, state, temp, data :=
        SecondLoop(src, pos, dest, szdest, webSafe, destidx, state, temp, data);
      if failed {
        NoRoom(src, webSafe, szdest);
        DecodingOf(src, webSafe, dest == null, szdest);
        return -1;
      }
    }
    var failed, len, expected := FinishGroup(dest, szdest, destidx, state, temp, data);
    DecodingOf(src, webSafe, dest == null, szdest);
    if failed { return -1; }
    var bad, equals := CountEquals(src, pos);
    r := if !bad && (equals == 0 || equals == expected) then len else -1;
  }

  /** How the first loop's memory decides what follows it. */
  lemma DataOfEnded(src: Text, pos: nat, data: seq<bv32>, decode: bv32, ch: Byte, webSafe: bool)
    requires pos <= |src| && (ch == PAD ==> pos > 0 && src[pos - 1] == PAD)
    requires Ended(Groups(src, 4, [], webSafe), src[pos..], data, decode, ch)
    ensures Data(src, webSafe)
            == if decode == BAD && ch != NUL && ch != PAD && !IsSpace(ch) then None
               else if ch == PAD then Some((src[pos - 1..], data))
               else Singles(src[pos..], data, webSafe)
  {
    hide Groups, Singles, IsSpace;
    NotData(webSafe);
    assert ch == PAD ==> src[pos - 1..] == [PAD] + src[pos..];
  }

  lemma DecodingOf(src: Text, webSafe: bool, checkOnly: bool, szdest: nat)
    ensures Outcome(Decoding(src, webSafe), checkOnly, szdest)
            == match Data(src, webSafe)
               case None => -1
               case Some((rest, data)) =>
                 if |data| % 4 == 1 || Equals(rest) == None || (!checkOnly && |Bytes(data)| > szdest) then -1
                 else if Equals(rest).value == 0 || Equals(rest).value == Expected(|data| % 4) then |Bytes(data)|
                 else -1
    ensures Outcome(Decoding(src, webSafe), checkOnly, szdest) >= 0 ==>
              Data(src, webSafe).Some? && Decoding(src, webSafe) == Some(Bytes(Data(src, webSafe).value.1))
  {
    hide Data, Equals, Bytes;
  }

  lemma NoRoom(src: Text, webSafe: bool, szdest: nat)
    ensures TooLong(src, webSafe, szdest) ==> Outcome(Decoding(src, webSafe), false, szdest) == -1
    ensures TooLong(src, webSafe, szdest) <==> Data(src, webSafe).None? || |Data(src, webSafe).value.1| / 4 * 3 > szdest
  {
    hide Data, Equals, Bytes1, Bytes2, Bytes3;
  }
}
