/** ListReader::ReadPhysicalRecord as a function of the bytes still to be read, and the
    stream of physical events that a byte string denotes. */
module Physical {
  import opened Wrappers
  import opened Coding
  import opened Blocks
  import opened ListFormat
  import Checksum

  /** What the reader is opened with, once the file header is parsed. */
  datatype ReaderConfig = ReaderConfig(blockSize: nat, checksum: bool, codecs: Codecs)

  datatype Reason =
    | TruncatedRecord | BadLength | ChecksumMismatch | UncompressFailed
    | InvalidArray | MissingStart | PartialWithoutEnd | ErrorInMiddle | UnknownType | InvalidHeader

  /** One call of the corruption reporter. */
  datatype Drop = Drop(bytes: nat, reason: Reason)

  /** One return of ReadPhysicalRecord: the reports it made, the code it returned and the
      fragment; or a read outside the buffer, after which the source promises nothing. */
  datatype Event = Event(drops: seq<Drop>, code: nat, payload: Bytes) | OutOfBounds

  /** What the head of a buffer of at least nine bytes turns out to be. */
  datatype Head =
    | Blank
    | TooLong
    | Wrapped
    | Mismatch
    | Good(kind: Byte, data: Bytes)

  /** The bound check passes a length that leaves the buffer if its 32-bit sum wraps.  Then the
      checksum is taken over that many bytes - none at all if the count 1 + length wraps too - or
      the record is handed out without one. */
  function ParseHead(c: ReaderConfig, buf: Bytes): (h: Head)
    requires HEADER_SIZE <= |buf|
    ensures h.Good? ==> HEADER_SIZE + |h.data| <= |buf|
  {
    var kind, length := buf[8], DecodeFixed32(buf[4..8]);
    var count := (1 + length) % TWO32;
    if length == 0 && kind == ZERO_TYPE then Blank
    else if (length + HEADER_SIZE) % TWO32 > |buf| then TooLong
    else if c.checksum && 8 + count > |buf| then Wrapped
    else if c.checksum && !Checksum.Matches(DecodeFixed32(buf), buf[8..8 + count]) then Mismatch
    else if length + HEADER_SIZE > |buf| then Wrapped
    else Good(kind, buf[HEADER_SIZE..HEADER_SIZE + length])
  }

  /** ListReader::Uncompress on a non-empty fragment. */
  function Uncompress(c: ReaderConfig, data: Bytes): (x: Option<Bytes>)
    requires data != []
    ensures x.Some? ==> |x.value| <= c.blockSize
  {
    if !c.codecs.Has(data[0]) then None
    else
      var x :- c.codecs.Get(data[0]).uncompress(data[1..]);
      if |x| <= c.blockSize then Some(x) else None
  }

  /** The event for a record whose header and checksum were accepted.  An empty compressed record
      takes its method from the byte after it, and for a known method 2^32 - 1 bytes of input. */
  function Accept(c: ReaderConfig, kind: Byte, data: Bytes, after: Bytes): Event {
    if kind / 16 % 2 == 0 then Event([], kind % 16, data)
    else if data == [] then
      if after != [] && !c.codecs.Has(after[0]) then Event([Drop(HEADER_SIZE, UncompressFailed)], BAD, [])
      else OutOfBounds
    else
      match Uncompress(c, data)
      case None => Event([Drop(HEADER_SIZE + |data|, UncompressFailed)], BAD, [])
      case Some(x) => Event([], kind % 16, x)
  }

  /** An event together with what is left of the block buffer and of the file after it. */
  datatype Fetched = Fetched(ev: Event, buf: Bytes, rest: Bytes)

  function BlockCut(c: ReaderConfig, rest: Bytes): (k: nat)
    ensures k <= |rest| && k <= c.blockSize
  {
    if c.blockSize <= |rest| then c.blockSize else |rest|
  }

  /** What a buffer of at least nine bytes yields; nothing when it is nine blank bytes. */
  function FetchHead(c: ReaderConfig, buf: Bytes, rest: Bytes): (o: Option<Fetched>)
    requires HEADER_SIZE <= |buf|
    ensures o.Some? ==> |o.value.buf| + |o.value.rest| < |buf| + |rest|
  {
    match ParseHead(c, buf)
    case Blank => if |buf| == HEADER_SIZE then None else Some(Fetched(Event([], BAD, []), [], rest))
    case TooLong => Some(Fetched(Event([Drop(|buf|, BadLength)], BAD, []), [], rest))
    case Wrapped => Some(Fetched(OutOfBounds, [], []))
    case Mismatch => Some(Fetched(Event([Drop(|buf|, ChecksumMismatch)], BAD, []), [], rest))
    case Good(kind, data) =>
      var after := buf[HEADER_SIZE + |data|..];
      Some(Fetched(Accept(c, kind, data, after), after, rest))
  }

  /** ReadPhysicalRecord: buf is the unread part of the current block, rest the file after it. */
  function Fetch(c: ReaderConfig, buf: Bytes, rest: Bytes): (f: Fetched)
    requires c.blockSize > 0
    ensures |f.buf| + |f.rest| <= |buf| + |rest|
    ensures buf != [] || rest != [] ==> |f.buf| + |f.rest| < |buf| + |rest|
    decreases |rest|, |buf|
  {
    if |buf| < HEADER_SIZE then
      if rest != [] then
        var k := BlockCut(c, rest);
        assert |rest[..k]| + |rest[k..]| == |rest|;
        Fetch(c, rest[..k], rest[k..])
      else Fetched(Event(if buf == [] then [] else [Drop(|buf|, TruncatedRecord)], EOF, []), [], [])
    else
      match FetchHead(c, buf, rest)
      case None => Fetch(c, [], rest)
      case Some(f) => f
  }

  /** Everything ReadPhysicalRecord will return, up to the clean end of the file. */
  function Events(c: ReaderConfig, buf: Bytes, rest: Bytes): seq<Event>
    requires c.blockSize > 0
    decreases |buf| + |rest|
  {
    if buf == [] && rest == [] then []
    else
      var f := Fetch(c, buf, rest);
      if f.ev.OutOfBounds? then [f.ev] else [f.ev] + Events(c, f.buf, f.rest)
  }

  /** The events of undamaged physical records. */
  function Clean(ps: seq<Phys>): (es: seq<Event>)
    ensures |es| == |ps|
  {
    seq(|ps|, i requires 0 <= i < |ps| => Event([], ps[i].kind as nat, ps[i].payload))
  }

  /** What a torn end of file can produce: nothing, or one event that carries no record. */
  ghost predicate Torn(es: seq<Event>) {
    es == [] || (|es| == 1 && es[0].Event? && (es[0].code == EOF || es[0].code == BAD))
  }

  // ---- Reading one written frame back ----------------------------------------------

  /** A reader for the files a writer of this configuration makes. */
  ghost predicate Agrees(c: Config, r: ReaderConfig) {
    c.Valid() && r.blockSize == c.blockSize && r.codecs == c.codecs
  }

  lemma RawFrameParts(kind: Byte, data: Bytes, tail: Bytes)
    requires |data| < TWO32
    ensures var b := RawFrame(kind, data) + tail;
            && b[8] == kind
            && DecodeFixed32(b[4..8]) == |data|
            && DecodeFixed32(b) == Checksum.Stored(kind, data)
            && b[HEADER_SIZE..HEADER_SIZE + |data|] == data
            && b[8..HEADER_SIZE + |data|] == [kind] + data
            && b[HEADER_SIZE + |data|..] == tail
  {
    hide Checksum.Stored;
    var s, l := Fixed32(Checksum.Stored(kind, data)), Fixed32(|data|);
    var b := RawFrame(kind, data) + tail;
    assert b == s + (l + [kind] + data + tail);
    assert b[4..8] == l + [];
    Fixed32RoundTrip(Checksum.Stored(kind, data), l + [kind] + data + tail);
    Fixed32RoundTrip(|data|, []);
  }

  /** The bytes of a frame: the masked checksum of type and data, the size of the data, both lowest
      byte first, the type, the data. */
  lemma FrameFormat(kind: Byte, data: Bytes)
    requires |data| < TWO32
    ensures var f := RawFrame(kind, data);
            && |f| == 9 + |data| && f[8] == kind && f[9..] == data
            && WordAt(f, 4) == |data|
            && 0 <= WordAt(f, 0) < TWO32 && Checksum.Matches(WordAt(f, 0), f[8..])
  {
    hide Checksum.Stored, Checksum.Matches;
    var f, w := RawFrame(kind, data), Checksum.Stored(kind, data);
    var s, l := Fixed32(w), Fixed32(|data|);
    assert f == [] + s + (l + [kind] + data);
    WordInside([], w, l + [kind] + data);
    assert f == s + l + ([kind] + data);
    WordInside(s, |data|, [kind] + data);
    assert f[8..] == [kind] + data;
    Checksum.StoredMatches(kind, data);
  }

  lemma HeadOfRawFrame(r: ReaderConfig, kind: Byte, data: Bytes, tail: Bytes)
    requires HEADER_SIZE + |data| < TWO32 && kind != ZERO_TYPE
    ensures ParseHead(r, RawFrame(kind, data) + tail) == Good(kind, data)
  {
    hide Checksum.Stored, Checksum.Matches, RawFrame, DecodeFixed32;
    RawFrameParts(kind, data, tail);
    Checksum.StoredMatches(kind, data);
  }

  /** Whatever form the writer stored, the reader recovers type and payload. */
  lemma AcceptStoredForm(c: Config, r: ReaderConfig, p: Phys, after: Bytes)
    requires Agrees(c, r) && GoodPhys(p) && |p.payload| <= c.blockSize
    ensures var (kind, data) := c.StoredForm(p.kind, p.payload);
            Accept(r, kind, data, after) == Event([], p.kind, p.payload)
  {
    var (kind, data) := c.StoredForm(p.kind, p.payload);
    if kind != p.kind {
      var codec := c.codecs.Get(c.scheme.value);
      assert codec.Sound();
      assert data[1..] == codec.compress(p.payload).value;
    }
  }

  /** A written frame at the head of the buffer is read back whole. */
  lemma FetchFrame(c: Config, r: ReaderConfig, p: Phys, tail: Bytes, rest: Bytes)
    requires Agrees(c, r) && GoodPhys(p) && HEADER_SIZE + |p.payload| < TWO32
    requires |p.payload| <= c.blockSize
    ensures Fetch(r, Frame(c, p) + tail, rest) == Fetched(Event([], p.kind, p.payload), tail, rest)
  {
    hide RawFrame, ParseHead, Config.StoredForm, Accept;
    var (kind, data) := c.StoredForm(p.kind, p.payload);
    AcceptStoredForm(c, r, p, tail);
    HeadOfRawFrame(r, kind, data, tail);
    assert (RawFrame(kind, data) + tail)[HEADER_SIZE + |data|..] == tail;
  }
}
