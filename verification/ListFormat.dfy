/** The list-file format shared by writer and reader (file/list_file_format.h): physical
    records, their frames, and how frames are laid out in fixed-size blocks. */
module ListFormat {
  import opened Wrappers
  import opened Coding
  import opened Blocks
  import Checksum

  // Record types, and the two pseudo-types the reader adds.
  const ZERO_TYPE: nat := 0
  const FULL: Byte := 1
  const FIRST: Byte := 2
  const MIDDLE: Byte := 3
  const ARRAY: Byte := 4
  const LAST: Byte := 5
  const EOF: nat := 6
  const BAD: nat := 7

  const COMPRESSED_MASK: Byte := 0x10
  const ARRAY_HEADER_SIZE: nat := 14
  const BLOCK_SIZE_FACTOR: nat := 65536

  const SNAPPY: Byte := 1
  const ZLIB: Byte := 2
  const LZ4: Byte := 3

  // ---- Compression -----------------------------------------------------------------

  /** A compressor and its decompressor; either may refuse its input. */
  datatype Codec = Codec(compress: Bytes -> Option<Bytes>, uncompress: Bytes -> Option<Bytes>) {
    ghost predicate Sound() {
      forall x {:trigger compress(x)} ::
        compress(x).Some? ==> uncompress(compress(x).value) == Some(x)
    }
  }

  /** snappy is called directly; the other methods are looked up in the registry. */
  datatype Codecs = Codecs(snappy: Codec, registered: map<Byte, Codec>) {
    predicate Has(scheme: Byte) {
      scheme == SNAPPY || ((scheme == ZLIB || scheme == LZ4) && scheme in registered)
    }

    function Get(scheme: Byte): Codec
      requires Has(scheme)
    {
      if scheme == SNAPPY then snappy else registered[scheme]
    }

    ghost predicate Sound() {
      snappy.Sound() && forall m :: m in registered ==> registered[m].Sound()
    }
  }

  /** What writer and reader of one file agree on.  scheme is the compression in use, if any. */
  datatype Config = Config(blockSize: nat, scheme: Option<Byte>, codecs: Codecs) {
    ghost predicate Valid() {
      && ARRAY_HEADER_SIZE < blockSize < TWO32
      && codecs.Sound()
      && (scheme.Some? ==> codecs.Has(scheme.value))
    }

    /** The type byte and the stored bytes of a physical record: compressed when that is on,
        the payload exceeds 64 bytes and an eighth of it is saved. */
    function StoredForm(kind: Byte, payload: Bytes): (r: (Byte, Bytes))
      requires scheme.Some? ==> codecs.Has(scheme.value)
      requires kind <= LAST
      ensures r == (kind, payload)
              || (&& r.0 == kind + COMPRESSED_MASK && scheme.Some? && |payload| > 64
                  && 0 < |r.1| <= |payload| - |payload| / 8 && r.1[0] == scheme.value
                  && codecs.Get(scheme.value).compress(payload) == Some(r.1[1..]))
    {
      if scheme.Some? && |payload| > 64 then
        match codecs.Get(scheme.value).compress(payload)
        case None => (kind, payload)
        case Some(c) =>
          if |c| < |payload| - |payload| / 8 then (kind + COMPRESSED_MASK, [scheme.value] + c)
          else (kind, payload)
      else (kind, payload)
    }
  }

  /** When a record is compressed: more than 64 bytes, and less than seven eighths of them, rounded
      up, without the method byte. */
  lemma CompressedIff(c: Config, kind: Byte, payload: Bytes)
    requires c.scheme.Some? ==> c.codecs.Has(c.scheme.value)
    requires kind <= LAST
    ensures c.StoredForm(kind, payload).0 == kind + 0x10 <==>
            && c.scheme.Some? && |payload| >= 65
            && var x := c.codecs.Get(c.scheme.value).compress(payload);
               x.Some? && |x.value| < |payload| - |payload| / 8
  {
  }

  // ---- Physical records ------------------------------------------------------------

  /** A physical record before compression. */
  datatype Phys = Phys(kind: Byte, payload: Bytes)

  ghost predicate GoodPhys(p: Phys) {
    FULL <= p.kind <= LAST && |p.payload| < TWO32
  }

  /** Checksum, length, type byte, data. */
  function RawFrame(kind: Byte, data: Bytes): (f: Bytes)
    requires |data| < TWO32
    ensures |f| == HEADER_SIZE + |data|
  {
    Fixed32(Checksum.Stored(kind, data)) + Fixed32(|data|) + [kind] + data
  }

  /** The bytes the writer emits for a physical record. */
  function Frame(c: Config, p: Phys): (f: Bytes)
    requires c.scheme.Some? ==> c.codecs.Has(c.scheme.value)
    requires p.kind <= LAST && |p.payload| < TWO32
    ensures HEADER_SIZE <= |f| <= HEADER_SIZE + |p.payload|
    ensures p.payload != [] ==> |f| > HEADER_SIZE
  {
    var (kind, data) := c.StoredForm(p.kind, p.payload);
    RawFrame(kind, data)
  }

  function Frames(c: Config, ps: seq<Phys>): (fs: seq<Bytes>)
    requires c.Valid() && AllGood(ps)
    ensures |fs| == |ps|
  {
    seq(|ps|, i requires 0 <= i < |ps| => Frame(c, ps[i]))
  }

  ghost predicate AllGood(ps: seq<Phys>) {
    forall i :: 0 <= i < |ps| ==> GoodPhys(ps[i])
  }

  lemma FramesConcat(c: Config, ps: seq<Phys>, qs: seq<Phys>)
    requires c.Valid() && AllGood(ps) && AllGood(qs)
    ensures AllGood(ps + qs) && Frames(c, ps + qs) == Frames(c, ps) + Frames(c, qs)
  {
    hide Frame;
  }

  // ---- Logical records -------------------------------------------------------------

  /** What one or more logical records become: one whole physical record, one packed array,
      or a chain of fragments. */
  datatype Unit = Whole(record: Bytes) | Packed(records: seq<Bytes>) | Split(pieces: seq<Bytes>)

  /** The entries of an array: each a varint length and the bytes. */
  function ArrayBody(rs: seq<Bytes>): (b: Bytes)
    ensures |b| >= |rs|
    decreases |rs|
  {
    if rs == [] then [] else EncodeVarint(|rs[0]|) + rs[0] + ArrayBody(rs[1..])
  }

  function ArrayPayload(rs: seq<Bytes>): Bytes {
    EncodeVarint(|rs|) + ArrayBody(rs)
  }

  /** The fragments after the first. */
  function TailFrames(pieces: seq<Bytes>): (ps: seq<Phys>)
    ensures |ps| == |pieces|
    decreases |pieces|
  {
    if pieces == [] then []
    else if |pieces| == 1 then [Phys(LAST, pieces[0])]
    else [Phys(MIDDLE, pieces[0])] + TailFrames(pieces[1..])
  }

  function UnitFrames(u: Unit): (ps: seq<Phys>)
    ensures u != Split([]) ==> |ps| >= 1
  {
    match u
    case Whole(r) => [Phys(FULL, r)]
    case Packed(rs) => [Phys(ARRAY, ArrayPayload(rs))]
    case Split(pieces) =>
      if pieces == [] then [] else [Phys(FIRST, pieces[0])] + TailFrames(pieces[1..])
  }

  function Joined(pieces: seq<Bytes>): Bytes
    decreases |pieces|
  {
    if pieces == [] then [] else pieces[0] + Joined(pieces[1..])
  }

  function UnitRecords(u: Unit): seq<Bytes> {
    match u
    case Whole(r) => [r]
    case Packed(rs) => rs
    case Split(pieces) => [Joined(pieces)]
  }

  /** A chain has a first and a last fragment and no empty one; an array has entries. */
  ghost predicate GoodUnit(u: Unit) {
    match u
    case Whole(r) => true
    case Packed(rs) => 0 < |rs| < TWO32 && forall r :: r in rs ==> |r| < TWO32
    case Split(pieces) => |pieces| >= 2 && forall p :: p in pieces ==> p != []
  }

  function AllFrames(us: seq<Unit>): seq<Phys>
    decreases |us|
  {
    if us == [] then [] else UnitFrames(us[0]) + AllFrames(us[1..])
  }

  function AllRecords(us: seq<Unit>): seq<Bytes>
    decreases |us|
  {
    if us == [] then [] else UnitRecords(us[0]) + AllRecords(us[1..])
  }

  lemma {:induction false} AllConcat(us: seq<Unit>, vs: seq<Unit>)
    ensures AllFrames(us + vs) == AllFrames(us) + AllFrames(vs)
    ensures AllRecords(us + vs) == AllRecords(us) + AllRecords(vs)
    decreases |us|
  {
    hide UnitFrames, UnitRecords;
    if us == [] {
      assert us + vs == vs;
    } else {
      assert (us + vs)[0] == us[0] && (us + vs)[1..] == us[1..] + vs;
      AllConcat(us[1..], vs);
    }
  }

  lemma {:induction false} ArrayBodySnoc(rs: seq<Bytes>, r: Bytes)
    ensures ArrayBody(rs + [r]) == ArrayBody(rs) + EncodeVarint(|r|) + r
    decreases |rs|
  {
    if rs == [] {
      assert rs + [r] == [r] && [r][1..] == [];
    } else {
      assert (rs + [r])[0] == rs[0] && (rs + [r])[1..] == rs[1..] + [r];
      ArrayBodySnoc(rs[1..], r);
    }
  }
}
