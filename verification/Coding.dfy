/** Bytes, the little-endian 32-bit form (util/coding/fixed.h) and the base-128
    varint (util/coding/varint.h). */
module Coding {
  import opened Wrappers

  type Byte = x: int | 0 <= x < 256
  type Bytes = seq<Byte>

  const TWO32: nat := 0x1_0000_0000
  type Uint32 = x: int | 0 <= x < 0x1_0000_0000

  /** A size_t passed where 32 bits are expected. */
  function Low32(n: nat): (r: Uint32)
    ensures n < TWO32 ==> r == n
  {
    n % TWO32
  }

  /** Varint::Encode32: seven bits a byte, lowest first, the top bit set on all but the last. */
  function EncodeVarint(v: nat): (e: Bytes)
    ensures |e| >= 1
  {
    if v < 128 then [v] else [v % 128 + 128] + EncodeVarint(v / 128)
  }

  /** A 32-bit value takes at most kMax32 bytes. */
  lemma VarintWidth(v: Uint32)
    ensures |EncodeVarint(v)| <= 5
  {
    var v1, v2, v3, v4 := v / 128, v / 128 / 128, v / 128 / 128 / 128, v / 128 / 128 / 128 / 128;
    assert v4 < 128;
    assert |EncodeVarint(v4)| == 1;
    assert |EncodeVarint(v3)| <= 2;
    assert |EncodeVarint(v2)| <= 3;
    assert |EncodeVarint(v1)| <= 4;
  }

  /** From 2^28 on it takes all five. */
  lemma FiveBytes(v: Uint32)
    requires v >= 0x1000_0000
    ensures |EncodeVarint(v)| == 5
  {
    var v1, v2, v3, v4 := v / 128, v / 128 / 128, v / 128 / 128 / 128, v / 128 / 128 / 128 / 128;
    assert 0 < v4 < 128;
    assert |EncodeVarint(v4)| == 1;
    assert |EncodeVarint(v3)| == 2;
    assert |EncodeVarint(v2)| == 3;
    assert |EncodeVarint(v1)| == 4;
  }

  function Power128(k: nat): (p: nat)
    ensures p >= 1
  {
    if k == 0 then 1 else 128 * Power128(k - 1)
  }

  /** No encoding is longer than it has to be: k bytes are enough exactly for values below 128^k. */
  lemma {:induction false} VarintIsShortest(v: nat, k: nat)
    requires k >= 1
    ensures |EncodeVarint(v)| <= k <==> v < Power128(k)
    decreases k
  {
    if k == 1 {
      assert Power128(1) == 128;
      if v >= 128 {
        assert |EncodeVarint(v / 128)| >= 1;
      }
    } else if v >= 128 {
      VarintIsShortest(v / 128, k - 1);
      assert Power128(k) == 128 * Power128(k - 1);
    } else {
      SmallPower(k);
    }
  }

  lemma {:induction false} SmallPower(k: nat)
    requires k >= 1
    ensures Power128(k) >= 128
    decreases k
  {
    if k > 1 {
      SmallPower(k - 1);
    }
  }

  /** The number that little-endian digits in some base spell. */
  function Spelled(ds: seq<nat>, base: nat): nat {
    if ds == [] then 0 else ds[0] + base * Spelled(ds[1..], base)
  }

  function LowBits(e: Bytes): (ds: seq<nat>)
    ensures |ds| == |e| && forall i :: 0 <= i < |e| ==> ds[i] == e[i] % 128
  {
    seq(|e|, i requires 0 <= i < |e| => e[i] % 128)
  }

  /** The low seven bits of the bytes spell the value, and the top bit is set on all but the last. */
  lemma {:induction false} VarintSpells(v: nat)
    ensures var e := EncodeVarint(v);
            && Spelled(LowBits(e), 128) == v
            && forall i :: 0 <= i < |e| ==> (e[i] >= 128 <==> i < |e| - 1)
    decreases v
  {
    var e := EncodeVarint(v);
    if v >= 128 {
      VarintSpells(v / 128);
      assert e[1..] == EncodeVarint(v / 128);
      assert LowBits(e)[1..] == LowBits(e[1..]);
    } else {
      assert LowBits(e)[1..] == [];
    }
  }

  /** The word that four bytes from p on spell, lowest first. */
  function WordAt(s: Bytes, p: nat): int
    requires p + 4 <= |s|
  {
    var b0: int, b1: int, b2: int, b3: int := s[p], s[p + 1], s[p + 2], s[p + 3];
    b0 + 256 * b1 + 65536 * b2 + 16777216 * b3
  }

  lemma WordInside(x: Bytes, v: Uint32, y: Bytes)
    ensures WordAt(x + Fixed32(v) + y, |x|) == v
  {
    var s, e := x + Fixed32(v) + y, Fixed32(v);
    Fixed32Spells(v);
    hide Fixed32;
    assert s[|x|] == e[0] && s[|x| + 1] == e[1] && s[|x| + 2] == e[2] && s[|x| + 3] == e[3];
  }

  /** The four bytes spell the value in base 256. */
  lemma Fixed32Spells(v: Uint32)
    ensures var b0: int, b1: int, b2: int, b3: int := Fixed32(v)[0], Fixed32(v)[1], Fixed32(v)[2], Fixed32(v)[3];
            v == b0 + 256 * b1 + 65536 * b2 + 16777216 * b3
  {
  }

  /** A parsed varint: its value and how many bytes it took. */
  datatype Parsed = Parsed(value: nat, width: nat)

  /** The varint at the head of s, which may use at most n bytes. */
  function ScanVarint(s: Bytes, n: nat): (r: Option<Parsed>)
    ensures r.Some? ==> 1 <= r.value.width <= |s|
  {
    if |s| == 0 || n == 0 then None
    else if s[0] < 128 then Some(Parsed(s[0], 1))
    else
      var rest :- ScanVarint(s[1..], n - 1);
      Some(Parsed(s[0] - 128 + 128 * rest.value, rest.width + 1))
  }

  /** Varint::Parse32WithLimit.  The fifth byte is shifted in 32 bits, so the value wraps. */
  function ParseVarint(s: Bytes): (r: Option<Parsed>)
    ensures r.Some? ==> 1 <= r.value.width <= |s| && r.value.value < TWO32
  {
    var p :- ScanVarint(s, 5);
    Some(Parsed(p.value % TWO32, p.width))
  }

  lemma {:induction false} ScanUndoesEncode(v: nat, tail: Bytes, n: nat)
    requires |EncodeVarint(v)| <= n
    ensures ScanVarint(EncodeVarint(v) + tail, n) == Some(Parsed(v, |EncodeVarint(v)|))
  {
    if v >= 128 {
      var s := EncodeVarint(v) + tail;
      assert s[0] == v % 128 + 128;
      assert s[1..] == EncodeVarint(v / 128) + tail;
      ScanUndoesEncode(v / 128, tail, n - 1);
    }
  }

  /** Parsing undoes encoding, whatever bytes follow. */
  lemma VarintRoundTrip(v: Uint32, tail: Bytes)
    ensures ParseVarint(EncodeVarint(v) + tail) == Some(Parsed(v, |EncodeVarint(v)|))
  {
    VarintWidth(v);
    ScanUndoesEncode(v, tail, 5);
  }

  /** LittleEndian::Store32. */
  function Fixed32(v: Uint32): (e: Bytes)
    ensures |e| == 4
  {
    var v1, v2, v3 := v / 256, v / 256 / 256, v / 256 / 256 / 256;
    [v % 256, v1 % 256, v2 % 256, v3]
  }

  /** LittleEndian::Load32 of the first four bytes. */
  function DecodeFixed32(s: Bytes): Uint32
    requires |s| >= 4
  {
    var b0: int, b1: int, b2: int, b3: int := s[0], s[1], s[2], s[3];
    b0 + 256 * (b1 + 256 * (b2 + 256 * b3))
  }

  lemma Fixed32RoundTrip(v: Uint32, tail: Bytes)
    ensures DecodeFixed32(Fixed32(v) + tail) == v
  {
    var s, e := Fixed32(v) + tail, Fixed32(v);
    assert s[0] == e[0] && s[1] == e[1] && s[2] == e[2] && s[3] == e[3];
    var v1, v2, v3 := v / 256, v / 256 / 256, v / 256 / 256 / 256;
    assert v == v % 256 + 256 * v1;
    assert v1 == v1 % 256 + 256 * v2;
    assert v2 == v2 % 256 + 256 * v3;
  }

  /** A varint length and as many bytes: the string and what follows it. */
  function TakeString(s: Bytes): Option<(Bytes, Bytes)> {
    var p :- ParseVarint(s);
    if p.width + p.value > |s| then None
    else Some((s[p.width..p.width + p.value], s[p.width + p.value..]))
  }

  lemma TakeStringOf(x: Bytes, tail: Bytes)
    requires |x| < TWO32
    ensures TakeString(EncodeVarint(|x|) + x + tail) == Some((x, tail))
  {
    hide EncodeVarint, ParseVarint, TakeString;
    var e := EncodeVarint(|x|);
    VarintRoundTrip(|x|, x + tail);
    Middle(e, x, tail);
    TakeStringIs(e + x + tail);
  }

  lemma TakeStringIs(s: Bytes)
    requires ParseVarint(s).Some?
    ensures var p := ParseVarint(s).value;
            TakeString(s) == if p.width + p.value > |s| then None
                             else Some((s[p.width..p.width + p.value], s[p.width + p.value..]))
  {
    hide ParseVarint;
  }

  lemma Middle(x: Bytes, y: Bytes, z: Bytes)
    ensures x + y + z == x + (y + z)
    ensures (x + y + z)[|x|..|x| + |y|] == y && (x + y + z)[|x| + |y|..] == z
  {
  }
}
