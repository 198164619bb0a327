/** The masked CRC of a physical record as list_file.cc stores it and as
    list_file_reader.cc checks it, on bytes. */
module Checksum {
  import opened Coding
  import Crc32c

  function Bits(s: Bytes): (r: seq<bv8>)
    ensures |r| == |s|
  {
    seq(|s|, i requires 0 <= i < |s| => s[i] as bv8)
  }

  /** BlockHeader::SetCrcAndLength: the type byte first, then the payload, then the mask. */
  function Stored(kind: Byte, data: Bytes): Uint32 {
    ToUint32(Crc32c.Mask(Crc32c.Extended(Crc32c.Value(Bits([kind])), Bits(data))))
  }

  /** The checksum of a whole string, masked: the form the metadata block uses. */
  function Masked(s: Bytes): Uint32 {
    ToUint32(Crc32c.Mask(Crc32c.Value(Bits(s))))
  }

  /** The reader's test: unmask what was stored and compare with one pass over s. */
  predicate Matches(stored: Uint32, s: Bytes) {
    Crc32c.Unmask(stored as bv32) == Crc32c.Value(Bits(s))
  }

  function ToUint32(x: bv32): Uint32 {
    x as int
  }

  lemma ThereAndBack(x: bv32)
    ensures ToUint32(x) as bv32 == x
  {
  }

  /** A stored word passes the test for exactly the strings whose masked checksum it is. */
  lemma MatchesIffMasked(stored: Uint32, s: Bytes)
    ensures Matches(stored, s) <==> stored as bv32 == Crc32c.Mask(Crc32c.Value(Bits(s)))
  {
    hide Crc32c.Mask, Crc32c.Unmask, Crc32c.Value, Bits;
    Crc32c.MaskRoundTrip(Crc32c.Value(Bits(s)));
    Crc32c.MaskRoundTrip(stored as bv32);
  }

  lemma WordOfNothing(x: Uint32)
    requires x as bv32 == 0xa282_ead8
    ensures x == 0xa282_ead8
  {
  }

  lemma OnlyWordOfNothing(stored: Uint32)
    requires Matches(stored, [])
    ensures stored == 0xa282_ead8
  {
    hide Crc32c.Mask, Crc32c.Value, Matches;
    assert Bits([]) == [];
    MatchesIffMasked(stored, []);
    Crc32c.MaskedNothing();
    WordOfNothing(stored);
  }

  lemma NothingMatches()
    ensures Matches(0xa282_ead8, [])
  {
    hide Crc32c.Mask, Crc32c.Value, Matches;
    assert Bits([]) == [];
    Crc32c.MaskedNothing();
    assert Masked([]) == 0xa282_ead8;
    MaskedMatches([]);
  }

  /** The masked checksum of no bytes at all. */
  lemma MatchesNothing(stored: Uint32)
    ensures Matches(stored, []) <==> stored == 0xa282_ead8
  {
    hide Matches;
    NothingMatches();
    if Matches(stored, []) {
      OnlyWordOfNothing(stored);
    }
  }

  lemma MaskedMatches(s: Bytes)
    ensures Matches(Masked(s), s)
  {
    hide Crc32c.Mask, Crc32c.Unmask, Crc32c.Value, Bits, ToUint32;
    ThereAndBack(Crc32c.Mask(Crc32c.Value(Bits(s))));
    MatchesIffMasked(Masked(s), s);
  }

  /** The writer's two-call checksum is the reader's one-call checksum of type ++ payload. */
  lemma StoredMatches(kind: Byte, data: Bytes)
    ensures Matches(Stored(kind, data), [kind] + data)
  {
    hide Crc32c.Mask, Crc32c.Unmask, Crc32c.Value, Crc32c.Extended, ToUint32;
    Crc32c.ExtendConcat(0, Bits([kind]), Bits(data));
    assert Bits([kind] + data) == Bits([kind]) + Bits(data);
    ValueIs(Bits([kind]));
    ValueIs(Bits([kind] + data));
    MaskedMatches([kind] + data);
  }

  lemma ValueIs(s: seq<bv8>)
    ensures Crc32c.Value(s) == Crc32c.Extended(0, s)
  {
    hide Crc32c.Extended;
  }
}
