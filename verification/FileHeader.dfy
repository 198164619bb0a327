/** The file header: magic, block multiplier, and an optional checksummed metadata map
    (FileHeader::Write in file/list_file.cc, HeaderParser::Parse in file/list_file_reader.cc). */
module FileHeader {
  import opened Wrappers
  import opened Coding
  import Checksum

  const MAGIC: Bytes := [0x4c, 0x53, 0x54, 0x31, 0]
  const FILE_HEADER_SIZE: nat := 7
  const NO_EXTENSION: Byte := 0
  const META_EXTENSION: Byte := 1
  const MAX_MULTIPLIER: nat := 100

  type Meta = map<Bytes, Bytes>
  type Entry = (Bytes, Bytes)

  // ---- Writing ---------------------------------------------------------------------

  function EntryBytes(e: Entry): Bytes {
    EncodeVarint(Low32(|e.0|)) + e.0 + EncodeVarint(Low32(|e.1|)) + e.1
  }

  function EntriesBytes(es: seq<Entry>): Bytes
    decreases |es|
  {
    if es == [] then [] else EntryBytes(es[0]) + EntriesBytes(es[1..])
  }

  /** The encoder's buffer: the number of entries and the entries.  Sizes are cut to 32 bits. */
  function MetaBlock(es: seq<Entry>): Bytes {
    EncodeVarint(Low32(|es|)) + EntriesBytes(es)
  }

  /** Every size fits the 32 bits it is stored in. */
  ghost predicate Encodable(es: seq<Entry>) {
    && |MetaBlock(es)| < TWO32
    && |es| < TWO32
    && forall i :: 0 <= i < |es| ==> |es[i].0| < TWO32 && |es[i].1| < TWO32
  }

  /** And so does the offset of the body. */
  ghost predicate Storable(es: seq<Entry>) {
    Encodable(es) && |MetaBlock(es)| + FILE_HEADER_SIZE + 8 < TWO32
  }

  function HeaderBytes(multiplier: Byte, es: seq<Entry>): Bytes {
    MAGIC + [multiplier, if es == [] then NO_EXTENSION else META_EXTENSION]
    + if es == [] then []
      else Fixed32(Checksum.Masked(MetaBlock(es))) + Fixed32(Low32(|MetaBlock(es)|)) + MetaBlock(es)
  }

  /** es lists the entries of m, each once, in some order. */
  ghost predicate Lists(es: seq<Entry>, m: Meta)
    decreases |es|
  {
    if es == [] then m == map[]
    else
      var (k, v) := es[|es| - 1];
      k in m && m[k] == v && Lists(es[..|es| - 1], m - {k})
  }

  lemma ListsSnoc(es: seq<Entry>, m: Meta, k: Bytes, v: Bytes)
    requires Lists(es, m) && k !in m
    ensures Lists(es + [(k, v)], m[k := v])
  {
    var fs := es + [(k, v)];
    assert fs[|fs| - 1] == (k, v) && fs[..|fs| - 1] == es;
    assert m[k := v] - {k} == m;
  }

  lemma ListsNothing()
    ensures Lists([], map[])
  {
  }

  lemma MoveKey<K, V>(x: map<K, V>, y: map<K, V>, k: K)
    requires x.Keys !! y.Keys && k in y
    ensures x[k := y[k]].Keys !! (y - {k}).Keys
    ensures x[k := y[k]] + (y - {k}) == x + y
  {
  }

  lemma FewerKeys<K, V>(y: map<K, V>, k: K)
    requires k in y
    ensures |y - {k}| < |y|
  {
    assert y.Keys == (y - {k}).Keys + {k};
  }

  // ---- Parsing ---------------------------------------------------------------------

  /** A parsed header; a header the parser rejects; or a failed CHECK or a read of bytes the
      file did not supply, which ends the program or leaves it undefined. */
  datatype Result =
    | Header(offset: nat, multiplier: nat, meta: Meta)
    | Rejected
    | Aborted

  /** std::map::emplace: an existing key keeps its value. */
  function Emplace(m: Meta, e: Entry): Meta {
    if e.0 in m then m else m[e.0 := e.1]
  }

  function ParseEntries(s: Bytes, n: nat, m: Meta): Option<Meta>
    decreases n
  {
    if n == 0 then Some(m)
    else
      var (k, s1) :- TakeString(s);
      var (v, s2) :- TakeString(s1);
      ParseEntries(s2, n - 1, Emplace(m, (k, v)))
  }

  /** The metadata of a block whose checksum was accepted; length is the block's length, which
      stays in the counter when no count can be parsed. */
  function ParseMeta(block: Bytes): Option<Meta> {
    match ParseVarint(block)
    case Some(p) => ParseEntries(block[p.width..], p.value, map[])
    case None => if |block| == 0 then Some(map[]) else None
  }

  /** HeaderParser::Parse.  The offset of the body is kept in an unsigned int, so it wraps. */
  function ParseHeader(file: Bytes): Result {
    if |file| < FILE_HEADER_SIZE || file[..5] != MAGIC || file[5] == 0 || file[5] > 100 then Rejected
    else if file[6] != META_EXTENSION then Header(FILE_HEADER_SIZE, file[5], map[])
    else if |file| < FILE_HEADER_SIZE + 8 then Aborted
    else
      var start, length := FILE_HEADER_SIZE + 8, DecodeFixed32(file[11..15]);
      if start + length > |file| then Aborted
      else
        var block := file[start..start + length];
        if !Checksum.Matches(DecodeFixed32(file[7..11]), block) then Rejected
        else
          match ParseMeta(block)
          case None => Rejected
          case Some(m) => Header((start + length) % TWO32, file[5], m)
  }

  // ---- The round trip --------------------------------------------------------------

  function Emplaced(m: Meta, es: seq<Entry>): Meta
    decreases |es|
  {
    if es == [] then m else Emplaced(Emplace(m, es[0]), es[1..])
  }

  lemma EntryFirst(e: Entry, more: Bytes)
    requires |e.0| < TWO32 && |e.1| < TWO32
    ensures EntryBytes(e) + more == EncodeVarint(|e.0|) + e.0 + (EncodeVarint(|e.1|) + e.1 + more)
  {
    hide Low32, EncodeVarint;
  }

  lemma ParseStep(e: Entry, more: Bytes, n: nat, m: Meta)
    requires |e.0| < TWO32 && |e.1| < TWO32
    ensures ParseEntries(EntryBytes(e) + more, n + 1, m) == ParseEntries(more, n, Emplace(m, e))
  {
    var s1 := EncodeVarint(|e.1|) + e.1 + more;
    hide TakeString, EntryBytes, Emplace;
    EntryFirst(e, more);
    TakeStringOf(e.0, s1);
    TakeStringOf(e.1, more);
  }

  lemma {:induction false} EntriesRoundTrip(es: seq<Entry>, m: Meta)
    requires forall i :: 0 <= i < |es| ==> |es[i].0| < TWO32 && |es[i].1| < TWO32
    ensures ParseEntries(EntriesBytes(es), |es|, m) == Some(Emplaced(m, es))
    decreases |es|
  {
    hide EntryBytes, Emplace, TakeString;
    if es != [] {
      ParseStep(es[0], EntriesBytes(es[1..]), |es| - 1, m);
      EntriesRoundTrip(es[1..], Emplace(m, es[0]));
    }
  }

  lemma {:induction false} EmplacedSnoc(m: Meta, es: seq<Entry>, e: Entry)
    ensures Emplaced(m, es + [e]) == Emplace(Emplaced(m, es), e)
    decreases |es|
  {
    if es == [] {
      assert ([] + [e])[0] == e && ([] + [e])[1..] == [];
    } else {
      assert (es + [e])[0] == es[0] && (es + [e])[1..] == es[1..] + [e];
      EmplacedSnoc(Emplace(m, es[0]), es[1..], e);
    }
  }

  lemma {:induction false} EmplacedLists(es: seq<Entry>, m: Meta)
    requires Lists(es, m)
    ensures Emplaced(map[], es) == m
    decreases |es|
  {
    if es != [] {
      var (k, v) := es[|es| - 1];
      EmplacedLists(es[..|es| - 1], m - {k});
      assert es == es[..|es| - 1] + [(k, v)];
      EmplacedSnoc(map[], es[..|es| - 1], (k, v));
      assert (m - {k})[k := v] == m;
    }
  }

  /** Of entries with the same key the first one counts. */
  lemma {:induction false} FirstEntryWins(m: Meta, es: seq<Entry>, i: nat)
    requires i < |es| && es[i].0 !in m && forall j :: 0 <= j < i ==> es[j].0 != es[i].0
    ensures es[i].0 in Emplaced(m, es) && Emplaced(m, es)[es[i].0] == es[i].1
    decreases |es|
  {
    if i == 0 {
      EmplacedKeeps(Emplace(m, es[0]), es[1..], es[0].0);
    } else {
      assert es[1..][i - 1] == es[i];
      FirstEntryWins(Emplace(m, es[0]), es[1..], i - 1);
    }
  }

  lemma {:induction false} EmplacedKeeps(m: Meta, es: seq<Entry>, k: Bytes)
    requires k in m
    ensures k in Emplaced(m, es) && Emplaced(m, es)[k] == m[k]
    decreases |es|
  {
    if es != [] {
      EmplacedKeeps(Emplace(m, es[0]), es[1..], k);
    }
  }

  /** A metadata block with repeated keys parses to the first values. */
  lemma RepeatedKeys(es: seq<Entry>, i: nat)
    requires Encodable(es) && i < |es| && forall j :: 0 <= j < i ==> es[j].0 != es[i].0
    ensures var m := ParseMeta(MetaBlock(es)); m.Some? && es[i].0 in m.value && m.value[es[i].0] == es[i].1
  {
    hide Low32, EncodeVarint, Emplaced, ParseEntries;
    VarintRoundTrip(|es|, EntriesBytes(es));
    assert MetaBlock(es)[|EncodeVarint(|es|)|..] == EntriesBytes(es);
    EntriesRoundTrip(es, map[]);
    FirstEntryWins(map[], es, i);
  }

  /** The bytes of a header: LST1 and a null, the multiplier, whether metadata follows; and then its
      masked checksum and size, lowest byte first, and the block itself. */
  lemma HeaderFormat(multiplier: Byte, es: seq<Entry>)
    requires Encodable(es)
    ensures var h := HeaderBytes(multiplier, es);
            && |h| >= 7 && h[..5] == [76, 83, 84, 49, 0] && h[5] == multiplier
            && (es == [] ==> h[6..] == [0])
            && (es != [] ==>
                  && |h| >= 15 && h[6] == 1 && h[15..] == MetaBlock(es)
                  && WordAt(h, 11) == |MetaBlock(es)|
                  && 0 <= WordAt(h, 7) < TWO32 && Checksum.Matches(WordAt(h, 7), MetaBlock(es)))
  {
    hide MetaBlock, Checksum.Masked, Checksum.Matches, Low32;
    if es != [] {
      var block := MetaBlock(es);
      var w := Checksum.Masked(block);
      var h := HeaderBytes(multiplier, es);
      var head := MAGIC + [multiplier, META_EXTENSION];
      SizeFits(es);
      assert h == head + (Fixed32(w) + Fixed32(|block|) + block);
      assert h == head + Fixed32(w) + (Fixed32(|block|) + block);
      WordInside(head, w, Fixed32(|block|) + block);
      assert h == head + Fixed32(w) + Fixed32(|block|) + block;
      WordInside(head + Fixed32(w), |block|, block);
      Checksum.MaskedMatches(block);
    }
  }

  lemma SizeFits(es: seq<Entry>)
    requires Encodable(es)
    ensures Low32(|MetaBlock(es)|) == |MetaBlock(es)|
  {
    hide MetaBlock;
  }

  /** Which files the parser turns down at once, and which go without metadata. */
  lemma FirstSevenBytes(file: Bytes)
    ensures |file| < 7 || file[..5] != [76, 83, 84, 49, 0] || file[5] == 0 || file[5] > 100 ==>
              ParseHeader(file) == Rejected
    ensures |file| >= 7 && file[..5] == [76, 83, 84, 49, 0] && 1 <= file[5] <= 100 && file[6] != 1 ==>
              ParseHeader(file) == Header(7, file[5], map[])
  {
  }

  /** Metadata whose checksum is wrong is rejected, and metadata that the file does not hold whole
      ends the program. */
  lemma MetadataIsChecked(file: Bytes)
    requires |file| >= 15 && file[..5] == [76, 83, 84, 49, 0] && 1 <= file[5] <= 100 && file[6] == 1
    ensures var (crc, size) := (DecodeFixed32(file[7..11]), DecodeFixed32(file[11..15]));
            && (15 + size > |file| ==> ParseHeader(file) == Aborted)
            && (15 + size <= |file| && !Checksum.Matches(crc, file[15..15 + size]) ==> ParseHeader(file) == Rejected)
  {
    hide Checksum.Matches, DecodeFixed32;
  }

  lemma MetaRoundTrip(es: seq<Entry>, m: Meta)
    requires Encodable(es) && Lists(es, m)
    ensures ParseMeta(MetaBlock(es)) == Some(m)
  {
    hide Low32;
    VarintRoundTrip(|es|, EntriesBytes(es));
    assert MetaBlock(es)[|EncodeVarint(|es|)|..] == EntriesBytes(es);
    EntriesRoundTrip(es, map[]);
    EmplacedLists(es, m);
  }

  /** Where the parser looks for the parts of a header with metadata. */
  lemma HeaderParts(multiplier: Byte, crc: Bytes, length: Bytes, block: Bytes, body: Bytes)
    requires |crc| == 4 && |length| == 4
    ensures var file := MAGIC + [multiplier, META_EXTENSION] + (crc + length + block) + body;
            && |file| == 15 + |block| + |body|
            && file[..5] == MAGIC && file[5] == multiplier && file[6] == META_EXTENSION
            && file[7..11] == crc && file[11..15] == length && file[15..15 + |block|] == block
  {
    var head := MAGIC + [multiplier, META_EXTENSION];
    var file := head + (crc + length + block) + body;
    assert head[..5] == MAGIC && head[5] == multiplier && head[6] == META_EXTENSION;
    FourParts(head, crc, length, block, body);
    Middle(head, crc, length + block + body);
    Middle(head + crc, length, block + body);
    Middle(head + crc + length, block, body);
  }

  lemma FourParts(x: Bytes, a: Bytes, b: Bytes, c: Bytes, y: Bytes)
    ensures x + (a + b + c) + y == x + a + (b + c + y)
    ensures x + (a + b + c) + y == x + a + b + (c + y)
    ensures x + (a + b + c) + y == x + a + b + c + y
    ensures (x + (a + b + c) + y)[..|x|] == x
  {
  }

  /** Parsing what was written recovers the multiplier and the metadata map, whatever order
      the entries were written in, and the size of the header modulo 2^32. */
  lemma ParseOfHeader(multiplier: Byte, es: seq<Entry>, m: Meta, body: Bytes)
    requires 1 <= multiplier <= MAX_MULTIPLIER && Encodable(es) && Lists(es, m)
    ensures ParseHeader(HeaderBytes(multiplier, es) + body)
            == Header(|HeaderBytes(multiplier, es)| % TWO32, multiplier, m)
  {
    var file := HeaderBytes(multiplier, es) + body;
    if es == [] {
      assert file[..5] == MAGIC && file[5] == multiplier && file[6] == NO_EXTENSION;
    } else {
      var block := MetaBlock(es);
      var c, l := Fixed32(Checksum.Masked(block)), Fixed32(|block|);
      assert file == MAGIC + [multiplier, META_EXTENSION] + (c + l + block) + body;
      hide Low32;
      assert c + [] == c && l + [] == l;
      MetaRoundTrip(es, m);
      hide Checksum.Masked, Checksum.Matches, MetaBlock, ParseMeta, Fixed32, DecodeFixed32, HeaderBytes;
      HeaderParts(multiplier, c, l, block, body);
      Fixed32RoundTrip(Checksum.Masked(block), []);
      Fixed32RoundTrip(|block|, []);
      Checksum.MaskedMatches(block);
    }
  }

  lemma HeaderSize(multiplier: Byte, es: seq<Entry>)
    requires Encodable(es)
    ensures |HeaderBytes(multiplier, es)|
            == if es == [] then FILE_HEADER_SIZE else FILE_HEADER_SIZE + 8 + |MetaBlock(es)|
    ensures |HeaderBytes(multiplier, es)| < TWO32 <==> es == [] || Storable(es)
  {
    hide MetaBlock, Checksum.Masked;
  }

  /** The parser finds the first byte after the header if and only if the header is smaller
      than 2^32 bytes. */
  lemma OffsetIsExact(multiplier: Byte, es: seq<Entry>, m: Meta, body: Bytes)
    requires 1 <= multiplier <= MAX_MULTIPLIER && Encodable(es) && Lists(es, m)
    ensures var header := HeaderBytes(multiplier, es);
            ParseHeader(header + body) == Header(|header|, multiplier, m)
            <==> es == [] || |MetaBlock(es)| + FILE_HEADER_SIZE + 8 < TWO32
  {
    hide ParseHeader, HeaderBytes, MetaBlock;
    HeaderSize(multiplier, es);
    ParseOfHeader(multiplier, es, m, body);
  }

  /** Metadata of one value under the empty key. */
  function OneEntry(value: Bytes): seq<Entry> {
    [([], value)]
  }

  function OneValue(value: Bytes): Meta {
    map[[] := value]
  }

  /** One entry without a key whose block has 2^32 - 10 bytes: the header ends at 2^32 + 5 and
      the parser says that it ends at 5, in the middle of the header itself. */
  lemma OffsetWraps(multiplier: Byte, value: Bytes, body: Bytes)
    requires 1 <= multiplier <= MAX_MULTIPLIER && |value| == TWO32 - 17
    ensures var header := HeaderBytes(multiplier, OneEntry(value));
            && |MetaBlock(OneEntry(value))| == TWO32 - 10 && |header| == TWO32 + 5
            && ParseHeader(header + body) == Header(5, multiplier, OneValue(value))
  {
    hide ParseHeader, HeaderBytes, MetaBlock, Encodable, Lists;
    SizeOfOne(value);
    OneListed(value);
    HeaderSize(multiplier, OneEntry(value));
    ParseOfHeader(multiplier, OneEntry(value), OneValue(value), body);
  }

  lemma OneListed(value: Bytes)
    ensures Lists(OneEntry(value), OneValue(value))
  {
    var none: seq<Entry>, e: Entry := [], ([], value);
    ListsSnoc(none, map[], [], value);
    assert none + [e] == [e];
  }

  lemma SizeOfOne(value: Bytes)
    requires |value| == TWO32 - 17
    ensures |MetaBlock(OneEntry(value))| == |value| + 7 && Encodable(OneEntry(value))
  {
    var es: seq<Entry> := OneEntry(value);
    assert es[1..] == [];
    assert EntriesBytes(es) == EntryBytes(es[0]) + [];
    FiveBytes(|value|);
  }

  /** The round trip of a header below 2^32 bytes: multiplier, metadata and the exact size. */
  lemma HeaderRoundTrip(multiplier: Byte, es: seq<Entry>, m: Meta, body: Bytes)
    requires 1 <= multiplier <= MAX_MULTIPLIER && Storable(es) && Lists(es, m)
    ensures ParseHeader(HeaderBytes(multiplier, es) + body)
            == Header(|HeaderBytes(multiplier, es)|, multiplier, m)
  {
    hide ParseHeader, HeaderBytes, MetaBlock;
    OffsetIsExact(multiplier, es, m, body);
  }
}
