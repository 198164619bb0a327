/** The list-file theorems: what a reader gets back from a writer's file when the file is
    whole, when it was cut short, and when one block of it was damaged. */
module ListFile {
  import opened Wrappers
  import opened Coding
  import opened Blocks
  import opened ListFormat
  import opened Physical
  import opened Logical
  import opened Stream
  import opened Survival
  import opened WriterLog
  import Checksum
  import FileHeader

  /** The trace of a reader opened on a file body. */
  function BodyTrace(r: ReaderConfig, body: Bytes): seq<Obs>
    requires r.blockSize > 0
  {
    Fresh(Events(r, [], body))
  }

  lemma EventsFromStart(r: ReaderConfig, body: Bytes)
    requires r.blockSize > 0
    ensures Events(r, [], body) == EventsAt(r, 0, body)
  {
    if body != [] { NextBlock(r, [], body); }
  }

  // ---- Round trip ------------------------------------------------------------------

  /** For every block size above 14 and every compression choice on either side: a flushed log
      is read back as exactly its records, in order, with no report, and then nothing. */
  lemma BodyRoundTrip(c: Config, r: ReaderConfig, g: Log)
    requires GoodLog(c, g) && Agrees(c, r) && g.pending == []
    ensures BodyTrace(r, Body(c, g)) == Gots(Contents(g))
  {
    var ps := AllFrames(g.units);
    var fs := Frames(c, ps);
    var body := Layout(c.blockSize, 0, fs);
    assert Body(c, g) == body && body + [] == body;
    assert Contents(g) == AllRecords(g.units);
    hide Frame, Frames, Run, Fresh;
    EventsFromStart(r, body);
    EventsOfRun(c, r, 0, ps, []);
    EventsOfNothing(r, EndOf(c.blockSize, 0, fs));
    RunUnits(g.units, []);
    FreshOfNothing();
    assert Gots(Contents(g)) + [] == Gots(Contents(g));
  }

  lemma EventsOfNothing(r: ReaderConfig, off: nat)
    requires r.blockSize > 0 && off <= r.blockSize
    ensures EventsAt(r, off, []) == []
  {
  }

  lemma FreshOfNothing()
    ensures Fresh([]) == []
  {
  }

  /** A run that ends in Flush leaves no array pending. */
  lemma {:induction false} EndsFlushed(c: Config, g: Log, ops: seq<Op>)
    requires GoodLog(c, g) && GoodOps(ops) && ops != [] && ops[|ops| - 1] == Flush
    ensures AfterOps(c, g, ops).pending == []
    decreases |ops|
  {
    hide GoodLog;
    OpIsGood(c, g, ops[0]);
    if |ops| > 1 { EndsFlushed(c, AfterOp(c, g, ops[0]), ops[1..]); }
  }

  lemma EmptyIsGood(c: Config)
    requires c.Valid()
    ensures GoodLog(c, Log([], []))
  {
  }

  /** The file a fresh writer has produced after some operations. */
  ghost function FileAfter(c: Config, multiplier: Byte, es: seq<FileHeader.Entry>, ops: seq<Op>): Bytes
    requires c.Valid() && GoodOps(ops)
  {
    EmptyIsGood(c);
    FileHeader.HeaderBytes(multiplier, es) + Body(c, AfterOps(c, Log([], []), ops))
  }

  /** The trace of a reader opened on a whole file. */
  function Trace(codecs: Codecs, checksum: bool, file: Bytes): seq<Obs> {
    match FileHeader.ParseHeader(file)
    case Header(offset, multiplier, _) =>
      if 0 < multiplier && offset <= |file| then
        BodyTrace(ReaderConfig(BLOCK_SIZE_FACTOR * multiplier, checksum, codecs), file[offset..])
      else [Crash]
    case Rejected => Report(|file|, InvalidHeader)
    case Aborted => [Crash]
  }

  /** A reader of header and body sees the trace of the body. */
  lemma TraceOfFile(c: Config, multiplier: Byte, m: FileHeader.Meta, es: seq<FileHeader.Entry>,
                    body: Bytes, checksum: bool)
    requires 1 <= multiplier <= 100 && c.blockSize == BLOCK_SIZE_FACTOR * multiplier
    requires FileHeader.Storable(es) && FileHeader.Lists(es, m)
    ensures var file := FileHeader.HeaderBytes(multiplier, es) + body;
            && Trace(c.codecs, checksum, file) == BodyTrace(ReaderConfig(c.blockSize, checksum, c.codecs), body)
            && FileHeader.ParseHeader(file)
               == FileHeader.Header(|FileHeader.HeaderBytes(multiplier, es)|, multiplier, m)
  {
    hide FileHeader.HeaderBytes, FileHeader.ParseHeader, BodyTrace;
    var header := FileHeader.HeaderBytes(multiplier, es);
    FileHeader.HeaderRoundTrip(multiplier, es, m, body);
    assert (header + body)[|header|..] == body;
  }

  /** The whole-run round trip: for every multiplier from 1 to 100, metadata map, compression
      choice and sequence of AddRecord and Flush calls that ends in Flush, a reader with or
      without checksums gets the metadata and exactly the records added, in order, and nothing
      is reported. */
  lemma RoundTrip(c: Config, multiplier: Byte, m: FileHeader.Meta, es: seq<FileHeader.Entry>,
                  ops: seq<Op>, checksum: bool)
    requires c.Valid() && 1 <= multiplier <= 100 && c.blockSize == BLOCK_SIZE_FACTOR * multiplier
    requires FileHeader.Storable(es) && FileHeader.Lists(es, m)
    requires GoodOps(ops) && ops != [] && ops[|ops| - 1] == Flush
    ensures var file := FileAfter(c, multiplier, es, ops);
            && Trace(c.codecs, checksum, file) == Gots(Added(ops))
            && FileHeader.ParseHeader(file)
               == FileHeader.Header(|FileHeader.HeaderBytes(multiplier, es)|, multiplier, m)
  {
    hide FileHeader.HeaderBytes, FileHeader.ParseHeader, Body, AfterOps, GoodLog, BodyTrace, Trace;
    EmptyIsGood(c);
    var empty := Log([], []);
    var g := AfterOps(c, empty, ops);
    OpsKeepContents(c, empty, ops);
    assert Contents(empty) == [] && [] + Added(ops) == Added(ops);
    EndsFlushed(c, empty, ops);
    TraceOfFile(c, multiplier, m, es, Body(c, g), checksum);
    BodyRoundTrip(c, ReaderConfig(c.blockSize, checksum, c.codecs), g);
  }

  // ---- Crash truncation ------------------------------------------------------------

  /** The records whose frames all end within the first cut bytes of the body. */
  ghost function Complete(c: Config, us: seq<Unit>, cut: nat): seq<Bytes>
    requires GoodUnits(c, us)
  {
    RecordsWithin(us, EndingBy(c.blockSize, 0, Frames(c, AllFrames(us)), cut))
  }

  /** Cutting a body after any byte, whether or not an array is pending: the reader returns
      exactly the records all of whose physical records end at or before the cut. */
  lemma CrashTruncation(c: Config, r: ReaderConfig, g: Log, cut: nat)
    requires GoodLog(c, g) && Agrees(c, r) && cut <= |Body(c, g)|
    ensures Records(BodyTrace(r, Body(c, g)[..cut])) == Complete(c, g.units, cut)
  {
    var ps := AllFrames(g.units);
    var fs := Frames(c, ps);
    var torn := EventsOfCutLog(c, r, g, cut);
    hide Frame, Frames, Run, Fresh, Body, EventsAt, GoodLog;
    EventsFromStart(r, Body(c, g)[..cut]);
    RecordsOfCut(g.units, EndingBy(c.blockSize, 0, fs, cut), torn);
  }

  /** A cut through the frames, or through the filler in front of a pending array. */
  lemma EventsOfCutLog(c: Config, r: ReaderConfig, g: Log, cut: nat) returns (torn: seq<Event>)
    requires GoodLog(c, g) && Agrees(c, r) && cut <= |Body(c, g)|
    ensures Torn(torn)
    ensures EventsAt(r, 0, Body(c, g)[..cut])
            == Clean(AllFrames(g.units)[..EndingBy(c.blockSize, 0, Frames(c, AllFrames(g.units)), cut)]) + torn
  {
    hide Frame, Frames, EventsAt, Layout, Body, GoodLog, GoodUnits, Filler, Fits, EndOf, EndingBy, AllFrames;
    var ps := AllFrames(g.units);
    FramesOf(c, g);
    var fs := Frames(c, ps);
    var body, end := Layout(c.blockSize, 0, fs), EndOf(c.blockSize, 0, fs);
    CutOfBody(c, g, cut);
    if cut <= |body| {
      torn := EventsOfCut(c, r, 0, ps, cut);
    } else {
      var tail := Filler(c.blockSize, end)[..cut - |body|];
      torn := EventsAt(r, end, tail);
      EventsOfRun(c, r, 0, ps, tail);
      TornFiller(r, end, |tail|);
      AllEndBy(c.blockSize, 0, fs, cut);
      assert ps[..|fs|] == ps;
    }
  }

  lemma FramesOf(c: Config, g: Log)
    requires GoodLog(c, g)
    ensures c.Valid() && Sized(c, AllFrames(g.units)) && Fits(c.blockSize, 0, Frames(c, AllFrames(g.units)))
  {
  }

  lemma CutOfBody(c: Config, g: Log, cut: nat)
    requires GoodLog(c, g) && cut <= |Body(c, g)|
    ensures var fs := Frames(c, AllFrames(g.units));
            var body, fill := Layout(c.blockSize, 0, fs), Filler(c.blockSize, EndOf(c.blockSize, 0, fs));
            && cut <= |body| + |fill|
            && Body(c, g)[..cut] == if cut <= |body| then body[..cut] else body + fill[..cut - |body|]
  {
    hide Frame, Layout, Fits, EndOf, Filler;
  }

  /** Nothing is altered, reordered or invented by a cut: what is left is a prefix, and all of
      it when nothing was cut. */
  lemma {:induction false} WithinIsPrefix(us: seq<Unit>, j: nat)
    ensures RecordsWithin(us, j) <= AllRecords(us)
    ensures j >= |AllFrames(us)| ==> RecordsWithin(us, j) == AllRecords(us)
    decreases |us|
  {
    if us != [] && j >= |UnitFrames(us[0])| {
      WithinIsPrefix(us[1..], j - |UnitFrames(us[0])|);
    }
  }

  /** A crash that leaves the header and cut bytes of the body after any calls, finished or not:
      the reader returns the complete records, which are a prefix of the records added. */
  lemma CrashOfRun(c: Config, multiplier: Byte, m: FileHeader.Meta, es: seq<FileHeader.Entry>,
                   ops: seq<Op>, checksum: bool, cut: nat)
    requires c.Valid() && 1 <= multiplier <= 100 && c.blockSize == BLOCK_SIZE_FACTOR * multiplier
    requires FileHeader.Storable(es) && FileHeader.Lists(es, m) && GoodOps(ops)
    requires |FileHeader.HeaderBytes(multiplier, es)| + cut <= |FileAfter(c, multiplier, es, ops)|
    ensures GoodLog(c, Log([], []))
    ensures var file := FileAfter(c, multiplier, es, ops)[..|FileHeader.HeaderBytes(multiplier, es)| + cut];
            var records := Records(Trace(c.codecs, checksum, file));
            records == Complete(c, AfterOps(c, Log([], []), ops).units, cut) && records <= Added(ops)
  {
    hide *;
    EmptyIsGood(c);
    var empty := Log([], []);
    var g := AfterOps(c, empty, ops);
    OpsKeepContents(c, empty, ops);
    EmptyContents();
    assert [] + Added(ops) == Added(ops);
    FileAfterIs(c, multiplier, es, ops);
    CrashOfLog(c, multiplier, m, es, g, checksum, cut);
  }

  lemma FileAfterIs(c: Config, multiplier: Byte, es: seq<FileHeader.Entry>, ops: seq<Op>)
    requires c.Valid() && GoodOps(ops)
    ensures GoodLog(c, Log([], []))
    ensures FileAfter(c, multiplier, es, ops)
            == FileHeader.HeaderBytes(multiplier, es) + Body(c, AfterOps(c, Log([], []), ops))
  {
    hide FileHeader.HeaderBytes, Body, AfterOps, GoodLog;
    EmptyIsGood(c);
  }

  lemma CrashOfLog(c: Config, multiplier: Byte, m: FileHeader.Meta, es: seq<FileHeader.Entry>,
                   g: Log, checksum: bool, cut: nat)
    requires 1 <= multiplier <= 100 && c.blockSize == BLOCK_SIZE_FACTOR * multiplier
    requires FileHeader.Storable(es) && FileHeader.Lists(es, m)
    requires GoodLog(c, g) && cut <= |Body(c, g)|
    ensures GoodUnits(c, g.units)
    ensures var header := FileHeader.HeaderBytes(multiplier, es);
            var records := Records(Trace(c.codecs, checksum, (header + Body(c, g))[..|header| + cut]));
            records == Complete(c, g.units, cut) && records <= Contents(g)
  {
    hide *;
    UnitsOf(c, g);
    AgreesWith(c, checksum);
    var header, body := FileHeader.HeaderBytes(multiplier, es), Body(c, g);
    assert (header + body)[..|header| + cut] == header + body[..cut];
    TraceOfFile(c, multiplier, m, es, body[..cut], checksum);
    CrashTruncation(c, ReaderConfig(c.blockSize, checksum, c.codecs), g, cut);
    CompleteIsPrefix(c, g.units, cut);
  }

  lemma CompleteIsPrefix(c: Config, us: seq<Unit>, cut: nat)
    requires GoodUnits(c, us)
    ensures Complete(c, us, cut) <= AllRecords(us)
  {
    hide Frame, Frames;
    WithinIsPrefix(us, EndingBy(c.blockSize, 0, Frames(c, AllFrames(us)), cut));
  }

  lemma AgreesWith(c: Config, checksum: bool)
    requires c.Valid()
    ensures Agrees(c, ReaderConfig(c.blockSize, checksum, c.codecs))
  {
  }

  lemma EmptyContents()
    ensures Contents(Log([], [])) == []
  {
  }

  lemma UnitsOf(c: Config, g: Log)
    requires GoodLog(c, g)
    ensures c.Valid() && GoodUnits(c, g.units) && AllRecords(g.units) <= Contents(g)
  {
  }

  /** Later calls only append to the file, so a crash at any moment leaves a cut of every
      later output. */
  lemma BodyGrows(c: Config, g: Log, op: Op)
    requires GoodLog(c, g) && GoodOp(op)
    ensures GoodLog(c, AfterOp(c, g, op)) && Body(c, g) <= Body(c, AfterOp(c, g, op))
  {
    OpIsGood(c, g, op);
    hide Frame, Frames, GoodTail, Pieces;
    FlushIsGood(c, g);
    FlushGrows(c, g);
    if op.Add? && !Joins(c, g, op.record) {
      AddFreshGrows(c, Flushed(g.units, g.pending), op.record);
    }
  }

  lemma FlushGrows(c: Config, g: Log)
    requires GoodLog(c, g)
    ensures GoodLog(c, AfterFlush(g)) && Body(c, g) <= Body(c, AfterFlush(g))
  {
    FlushIsGood(c, g);
    if g.pending != [] { AppendGrows(c, g.units, Packed(g.pending)); }
  }

  /** Appending a unit appends filler and frames. */
  lemma AppendGrows(c: Config, us: seq<Unit>, u: Unit)
    requires GoodUnits(c, us) && GoodUnit(u) && Sized(c, UnitFrames(u))
    requires Fits(c.blockSize, Offset(c, us), Frames(c, UnitFrames(u)))
    ensures GoodUnits(c, us + [u])
    ensures Body(c, Log(us, [])) + Filler(c.blockSize, Offset(c, us)) <= Body(c, Log(us + [u], []))
  {
    hide Frame, Frames, Layout, Fits, Filler, EndOf, Offset, GoodUnits, GoodLog, Body, AllFrames, UnitFrames,
      Codecs.Sound, Codecs.Has;
    AppendUnit(c, us, u);
    UnitsFit(c, us);
    BodyOfUnits(c, us);
    BodyOfUnits(c, us + [u]);
    FrameCount(c, UnitFrames(u));
    SomeFrames(u);
    LayoutGrows(c.blockSize, Frames(c, AllFrames(us)), Frames(c, UnitFrames(u)));
  }

  lemma SomeFrames(u: Unit)
    requires GoodUnit(u)
    ensures UnitFrames(u) != []
  {
  }

  lemma BodyOfUnits(c: Config, us: seq<Unit>)
    requires GoodUnits(c, us)
    ensures GoodLog(c, Log(us, [])) && c.Valid() && AllGood(AllFrames(us))
    ensures Fits(c.blockSize, 0, Frames(c, AllFrames(us)))
    ensures Body(c, Log(us, [])) == Layout(c.blockSize, 0, Frames(c, AllFrames(us)))
  {
    hide Frame, Layout, Fits;
  }

  lemma AddFreshGrows(c: Config, us: seq<Unit>, rec: Bytes)
    requires GoodUnits(c, us) && |rec| <= MAX_RECORD
    ensures GoodLog(c, AddFresh(c, us, rec))
    ensures Body(c, Log(us, [])) <= Body(c, AddFresh(c, us, rec))
  {
    AddFreshIsGood(c, us, rec);
    var room := Room(c, us);
    hide Frame, Frames, Pieces;
    if EntrySize(rec) + ARRAY_HEADER_SIZE < room {
    } else if HEADER_SIZE + |rec| <= room {
      AppendSingle(c, us, Whole(rec), Phys(FULL, rec));
      AppendGrows(c, us, Whole(rec));
    } else {
      SplitIsGood(c, Offset(c, us), rec);
      AppendGrows(c, us, Split(Pieces(c, Offset(c, us), rec)));
    }
  }

  // ---- Damage confinement ----------------------------------------------------------

  /** What the reader sees of a damaged body: the frames before the damage, and then the damaged
      block tail in its place with the blocks after it. */
  lemma EventsToDamage(c: Config, r: ReaderConfig, us: seq<Unit>, d: nat, tail: Bytes)
    requires GoodUnits(c, us) && Agrees(c, r) && d < |AllFrames(us)| && tail != []
    requires |tail| == TailSize(c.blockSize, Frames(c, AllFrames(us)), d)
    ensures var b, fs := c.blockSize, Frames(c, AllFrames(us));
            var off, e := FrameOffset(b, fs, d), NextBlockFrame(b, fs, d);
            && Fits(b, 0, fs[e..])
            && EventsAt(r, 0, Damaged(b, fs, d, tail))
               == Clean(AllFrames(us)[..d]) + EventsAt(r, off, tail + Layout(b, 0, fs[e..]))
  {
    var b, ps := c.blockSize, AllFrames(us);
    var fs := Frames(c, ps);
    DamagedParts(b, fs, d);
    var end := EndOf(b, 0, fs[..d]);
    var after := Layout(b, 0, fs[NextBlockFrame(b, fs, d)..]);
    FramesParts(c, ps, d);
    DamagedIs(b, fs, d, tail);
    hide *;
    EventsOfRun(c, r, 0, ps[..d], Filler(b, end) + (tail + after));
    SkipFiller(r, end, tail + after);
  }

  /** If the bytes from frame d to the end of its block are replaced by bytes whose head the
      reader refuses, its events are those of the frames before and of the later blocks, and
      at most one that carries no record. */
  lemma EventsOfDamage(c: Config, r: ReaderConfig, us: seq<Unit>, d: nat, tail: Bytes) returns (bad: seq<Event>)
    requires GoodUnits(c, us) && Agrees(c, r) && d < |AllFrames(us)|
    requires |tail| == TailSize(c.blockSize, Frames(c, AllFrames(us)), d) && Refused(r, tail)
    ensures Breaks(us, NextBlockFrame(c.blockSize, Frames(c, AllFrames(us)), d), bad)
    ensures var b, fs := c.blockSize, Frames(c, AllFrames(us));
            Events(r, [], Damaged(b, fs, d, tail))
            == Clean(AllFrames(us)[..d]) + (bad + Clean(AllFrames(us)[NextBlockFrame(b, fs, d)..]))
  {
    var b, ps := c.blockSize, AllFrames(us);
    var fs := Frames(c, ps);
    var off, e := FrameOffset(b, fs, d), NextBlockFrame(b, fs, d);
    DamagedParts(b, fs, d);
    var after := Layout(b, 0, fs[e..]);
    FramesParts(c, ps, e);
    EventsToDamage(c, r, us, d, tail);
    hide *;
    EventsFromStart(r, Damaged(b, fs, d, tail));
    bad := EventsOfRefused(r, off, tail, after);
    EventsOfRun(c, r, 0, ps[e..], []);
    EventsOfNothing(r, EndOf(b, 0, fs[e..]));
    assert after + [] == after && Clean(ps[e..]) + [] == Clean(ps[e..]);
    NoBytesNoFrames(b, fs[e..]);
  }

  /** Then every record that uses neither frame d nor a later frame of that block is still
      returned, in order, and nothing else is. */
  lemma DamageConfinement(c: Config, r: ReaderConfig, us: seq<Unit>, d: nat, tail: Bytes)
    requires GoodUnits(c, us) && Agrees(c, r) && d < |AllFrames(us)|
    requires |tail| == TailSize(c.blockSize, Frames(c, AllFrames(us)), d) && Refused(r, tail)
    ensures var fs := Frames(c, AllFrames(us));
            Records(BodyTrace(r, Damaged(c.blockSize, fs, d, tail)))
            == Survivors(us, d, NextBlockFrame(c.blockSize, fs, d))
  {
    var fs := Frames(c, AllFrames(us));
    var e := NextBlockFrame(c.blockSize, fs, d);
    UnitsFit(c, us);
    FrameCount(c, AllFrames(us));
    hide *;
    var bad := EventsOfDamage(c, r, us, d, tail);
    TraceOf(r, Damaged(c.blockSize, fs, d, tail));
    UnitsAreGood(c, us);
    RecordsOfDamage(us, d, e, bad);
  }

  lemma TraceOf(r: ReaderConfig, body: Bytes)
    requires r.blockSize > 0
    ensures BodyTrace(r, body) == Fresh(Events(r, [], body))
  {
  }

  lemma UnitsAreGood(c: Config, us: seq<Unit>)
    requires GoodUnits(c, us)
    ensures AllGoodUnits(us)
  {
  }

  lemma FrameCount(c: Config, ps: seq<Phys>)
    requires c.Valid() && AllGood(ps)
    ensures |Frames(c, ps)| == |ps|
  {
  }

  lemma DamagedIs(b: nat, fs: seq<Bytes>, d: nat, tail: Bytes)
    requires FrameIn(b, fs, d) && |tail| == TailSize(b, fs, d)
    ensures Fits(b, 0, fs[..d]) && Fits(b, 0, fs[NextBlockFrame(b, fs, d)..])
    ensures Damaged(b, fs, d, tail)
            == Layout(b, 0, fs[..d])
               + (Filler(b, EndOf(b, 0, fs[..d])) + (tail + Layout(b, 0, fs[NextBlockFrame(b, fs, d)..])))
  {
    hide Layout, Fits, Filler, FrameOffset, NextBlockFrame, TailSize, FramePos;
    DamagedParts(b, fs, d);
    ThreeParts(Layout(b, 0, fs[..d]), Filler(b, EndOf(b, 0, fs[..d])), tail,
               Layout(b, 0, fs[NextBlockFrame(b, fs, d)..]));
  }

  lemma FramesParts(c: Config, ps: seq<Phys>, k: nat)
    requires c.Valid() && Sized(c, ps) && k <= |ps|
    ensures Sized(c, ps[..k]) && Sized(c, ps[k..])
    ensures Frames(c, ps)[..k] == Frames(c, ps[..k]) && Frames(c, ps)[k..] == Frames(c, ps[k..])
  {
    hide Frame;
  }

  lemma ThreeParts(x: Bytes, y: Bytes, z: Bytes, w: Bytes)
    ensures x + y + z + w == x + (y + (z + w))
  {
  }

  lemma NoBytesNoFrames(b: nat, fs: seq<Bytes>)
    requires Fits(b, 0, fs)
    ensures Layout(b, 0, fs) == [] ==> fs == []
  {
  }

  /** The bytes at the head of a block were altered so that the stored checksum no longer matches,
      or so that the stored length leaves the block. */
  ghost predicate Altered(tail: Bytes) {
    && |tail| >= HEADER_SIZE
    && (DecodeFixed32(tail[4..8]) + HEADER_SIZE > |tail|
        || !Checksum.Matches(DecodeFixed32(tail), tail[8..HEADER_SIZE + DecodeFixed32(tail[4..8])]))
  }

  /** The bound check lets a record through that leaves the buffer exactly if adding the header
      size to its length wraps. */
  lemma WrapsIff(buf: Bytes)
    requires HEADER_SIZE <= |buf| < TWO32
    ensures var length := DecodeFixed32(buf[4..8]);
            (length + HEADER_SIZE) % TWO32 <= |buf| < length + HEADER_SIZE <==> length >= TWO32 - HEADER_SIZE
  {
  }

  /** The masked checksum of no bytes at all. */
  const NO_BYTES: Uint32 := 0xa282_ead8

  /** What keeps the reader in its buffer when checksums are on: the length field does not wrap, or
      it is so large that the count of bytes to check wraps to zero and they do not match. */
  predicate StaysInside(head: Bytes)
    requires |head| >= HEADER_SIZE
  {
    var length := DecodeFixed32(head[4..8]);
    length < TWO32 - HEADER_SIZE || (length == TWO32 - 1 && DecodeFixed32(head) != NO_BYTES)
  }

  /** With checksums on, an altered head is refused if and only if it keeps the reader inside. */
  lemma MismatchIsRefused(r: ReaderConfig, tail: Bytes)
    requires r.checksum && Altered(tail) && |tail| < TWO32
    ensures Refused(r, tail) <==> StaysInside(tail)
  {
    hide Checksum.Matches;
    WrapsIff(tail);
    var length := DecodeFixed32(tail[4..8]);
    if length == TWO32 - 1 {
      assert tail[8..8] == [];
      Checksum.MatchesNothing(DecodeFixed32(tail));
    }
  }

  lemma FreshOfOutOfBounds()
    ensures Fresh([OutOfBounds]) == [Crash]
  {
  }

  lemma WrappedHead(r: ReaderConfig, buf: Bytes)
    requires HEADER_SIZE <= |buf| < TWO32 && TWO32 - HEADER_SIZE <= DecodeFixed32(buf[4..8]) < TWO32 - 1
    ensures ParseHead(r, buf) == Wrapped
  {
    hide DecodeFixed32, Checksum.Matches;
  }

  /** The events and the trace of nine bytes alone in their file. */
  lemma TraceOfHead(r: ReaderConfig, body: Bytes)
    requires r.blockSize >= HEADER_SIZE == |body|
    ensures ParseHead(r, body) == Wrapped ==> BodyTrace(r, body) == [Crash]
    ensures ParseHead(r, body) == Mismatch ==> BodyTrace(r, body) == Report(HEADER_SIZE, ChecksumMismatch)
  {
    hide ParseHead, Run;
    assert body[..9] == body && body[9..] == [];
    assert Fetch(r, [], body) == Fetch(r, body, []);
    if ParseHead(r, body) == Wrapped {
      assert Events(r, [], body) == [OutOfBounds];
      FreshOfOutOfBounds();
    } else if ParseHead(r, body) == Mismatch {
      var bad := Event([Drop(HEADER_SIZE, ChecksumMismatch)], BAD, []);
      assert Events(r, [], body) == [bad] + [];
      StepBad(None, bad, []);
      FreshOfNothing();
      assert Reports(bad.drops) == Report(HEADER_SIZE, ChecksumMismatch);
    }
  }

  /** A length field of 2^32 - 2 takes every reader that checks checksums out of its buffer, and
      one that does not hands out a record of that length. */
  lemma WrappedLengthCrashes(r: ReaderConfig)
    requires r.blockSize >= HEADER_SIZE
    ensures BodyTrace(r, [0, 0, 0, 0, 254, 255, 255, 255, FULL]) == [Crash]
  {
    var body: Bytes := [0, 0, 0, 0, 254, 255, 255, 255, FULL];
    assert body[4..8] == [254, 255, 255, 255];
    assert DecodeFixed32(body[4..8]) == TWO32 - 2;
    hide BodyTrace, DecodeFixed32, ParseHead;
    WrappedHead(r, body);
    TraceOfHead(r, body);
  }

  /** One more, and the checksum is taken over nothing: the mismatch is noticed and reported. */
  lemma LongestLengthIsConfined(r: ReaderConfig)
    requires r.blockSize >= HEADER_SIZE && r.checksum
    ensures BodyTrace(r, [0, 0, 0, 0, 255, 255, 255, 255, FULL]) == Report(HEADER_SIZE, ChecksumMismatch)
  {
    hide Checksum.Matches;
    var body: Bytes := [0, 0, 0, 0, 255, 255, 255, 255, FULL];
    assert body[4..8] == [255, 255, 255, 255] && body[8..8] == [];
    Checksum.MatchesNothing(DecodeFixed32(body));
    TraceOfHead(r, body);
  }

  /** Unless the stored word is the checksum of nothing. */
  lemma LongestLengthCrashes(r: ReaderConfig)
    requires r.blockSize >= HEADER_SIZE
    ensures BodyTrace(r, [0xd8, 0xea, 0x82, 0xa2, 255, 255, 255, 255, FULL]) == [Crash]
  {
    hide Checksum.Matches;
    var body: Bytes := [0xd8, 0xea, 0x82, 0xa2, 255, 255, 255, 255, FULL];
    assert body[4..8] == [255, 255, 255, 255] && body[8..8] == [];
    Checksum.MatchesNothing(DecodeFixed32(body));
    TraceOfHead(r, body);
  }

  /** A damaged block whose head runs out of the buffer. */
  lemma EventsOfWrapped(r: ReaderConfig, off: nat, block: Bytes, t: Bytes)
    requires r.blockSize > 0 && off <= r.blockSize && HEADER_SIZE <= |block| && ParseHead(r, block).Wrapped?
    requires off + |block| == r.blockSize || (off + |block| <= r.blockSize && t == [])
    ensures EventsAt(r, off, block + t) == [OutOfBounds]
  {
    var s := block + t;
    var k := Cut(r.blockSize, off, s);
    assert s[..k] == block && s[k..] == t;
  }

  lemma CleanIsInBounds(ps: seq<Phys>)
    ensures OutOfBounds !in Clean(ps)
  {
  }

  lemma BreaksInBounds(us: seq<Unit>, e: nat, bad: seq<Event>)
    requires Breaks(us, e, bad)
    ensures OutOfBounds !in bad
  {
  }

  lemma InEither<T>(x: T, s: seq<T>, t: seq<T>)
    ensures x in s + t <==> x in s || x in t
  {
  }

  lemma CrashInTrace(r: ReaderConfig, body: Bytes)
    requires r.blockSize > 0
    ensures Crash in BodyTrace(r, body) <==> OutOfBounds in Events(r, [], body)
  {
    hide Run, Events;
    CrashIff(0, [], None, Events(r, [], body));
  }

  /** With checksums on, damage to an altered record is confined if and only if its head keeps the
      reader inside its buffer, and then exactly the records are returned that use neither that
      record nor a later one of its block. */
  lemma DamageIsConfinedIff(c: Config, r: ReaderConfig, us: seq<Unit>, d: nat, tail: Bytes)
    requires GoodUnits(c, us) && Agrees(c, r) && r.checksum && d < |AllFrames(us)|
    requires |tail| == TailSize(c.blockSize, Frames(c, AllFrames(us)), d) && Altered(tail)
    ensures var fs := Frames(c, AllFrames(us));
            var os := BodyTrace(r, Damaged(c.blockSize, fs, d, tail));
            && (Crash !in os <==> StaysInside(tail))
            && (Crash !in os ==> Records(os) == Survivors(us, d, NextBlockFrame(c.blockSize, fs, d)))
  {
    var b, ps := c.blockSize, AllFrames(us);
    var fs := Frames(c, ps);
    var off, e := FrameOffset(b, fs, d), NextBlockFrame(b, fs, d);
    var file := Damaged(b, fs, d, tail);
    DamagedParts(b, fs, d);
    assert |tail| < TWO32 && r.blockSize > 0;
    hide *;
    MismatchIsRefused(r, tail);
    CrashInTrace(r, file);
    CleanIsInBounds(ps[..d]);
    if Refused(r, tail) {
      var bad := EventsOfDamage(c, r, us, d, tail);
      DamageConfinement(c, r, us, d, tail);
      CleanIsInBounds(ps[e..]);
      BreaksInBounds(us, e, bad);
      InEither(OutOfBounds, Clean(ps[..d]), bad + Clean(ps[e..]));
      InEither(OutOfBounds, bad, Clean(ps[e..]));
    } else {
      RefusedOrWrapped(r, tail);
      EventsToDamage(c, r, us, d, tail);
      EventsFromStart(r, file);
      EventsOfWrapped(r, off, tail, Layout(b, 0, fs[e..]));
      InEither(OutOfBounds, Clean(ps[..d]), [OutOfBounds]);
    }
  }

  lemma RefusedOrWrapped(r: ReaderConfig, tail: Bytes)
    requires r.checksum && Altered(tail) && |tail| < TWO32 && !Refused(r, tail)
    ensures ParseHead(r, tail).Wrapped?
  {
    hide Checksum.Matches;
  }

  /** The same for a whole file whose header is intact. */
  lemma DamageOfFile(c: Config, multiplier: Byte, m: FileHeader.Meta, es: seq<FileHeader.Entry>,
                     us: seq<Unit>, d: nat, tail: Bytes)
    requires 1 <= multiplier <= 100 && c.blockSize == BLOCK_SIZE_FACTOR * multiplier
    requires FileHeader.Storable(es) && FileHeader.Lists(es, m)
    requires GoodUnits(c, us) && d < |AllFrames(us)|
    requires |tail| == TailSize(c.blockSize, Frames(c, AllFrames(us)), d) && Altered(tail)
    ensures var fs := Frames(c, AllFrames(us));
            var os := Trace(c.codecs, true, FileHeader.HeaderBytes(multiplier, es) + Damaged(c.blockSize, fs, d, tail));
            && (Crash !in os <==> StaysInside(tail))
            && (Crash !in os ==> Records(os) == Survivors(us, d, NextBlockFrame(c.blockSize, fs, d)))
  {
    hide FileHeader.HeaderBytes, Trace, BodyTrace, Damaged, NextBlockFrame, Frames, Frame, Records, Checksum.Matches;
    TraceOfFile(c, multiplier, m, es, Damaged(c.blockSize, Frames(c, AllFrames(us)), d, tail), true);
    DamageIsConfinedIff(c, ReaderConfig(c.blockSize, true, c.codecs), us, d, tail);
  }
}
