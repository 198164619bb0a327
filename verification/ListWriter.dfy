/** ListWriter (file/list_file.cc): collects small records in an array, fragments large ones
    over blocks, and appends frames to its sink. */
module ListWriting {
  import opened Wrappers
  import opened Coding
  import opened Blocks
  import opened ListFormat
  import opened Stream
  import opened WriterLog
  import FileHeader
  import Checksum
  import Crc32c

  /** ListWriter::Options for a fresh file; level and append are not modelled. */
  datatype Options = Options(multiplier: Byte, useCompression: bool, scheme: Byte)

  /** ListWriter::Construct: an unknown or unregistered compression method becomes zlib. */
  function Effective(o: Options, codecs: Codecs): (m: Option<Byte>)
    ensures m == None <==> !o.useCompression
    ensures o.useCompression && 1 <= o.scheme <= 3 && o.scheme in codecs.registered ==> m == Some(o.scheme)
    ensures m.Some? && m.value !in codecs.registered ==> m.value == ZLIB
  {
    if !o.useCompression then None
    else if (o.scheme == SNAPPY || o.scheme == ZLIB || o.scheme == LZ4) && o.scheme in codecs.registered
    then Some(o.scheme)
    else Some(ZLIB)
  }

  class ListWriter {
    const cfg: Config
    const multiplier: Byte

    var dest: Bytes
    var meta: FileHeader.Meta
    var initCalled: bool

    const arrayStore: array<Byte>
    var arrayNext: nat
    var arrayEnd: nat
    var arrayRecords: nat

    var blockOffset: nat
    var blockLeftover: nat

    /** The records accepted so far, and how the file is divided. */
    ghost var log: Log
    /** The bytes before the first block, and the metadata entries in the order written. */
    ghost var header: Bytes
    ghost var entries: seq<FileHeader.Entry>
    /** The frames in the file, and whether the filler after the last one is written. */
    ghost var frames: seq<Bytes>
    ghost var filled: bool

    /** The sink and the position in the current block agree with the frames written. */
    ghost predicate Placed()
      reads this
    {
      && cfg.Valid()
      && Fits(cfg.blockSize, 0, frames)
      && dest == header + Layout(cfg.blockSize, 0, frames)
                 + (if filled then Filler(cfg.blockSize, EndOf(cfg.blockSize, 0, frames)) else [])
      && blockOffset == (if filled then StartAt(cfg.blockSize, EndOf(cfg.blockSize, 0, frames))
                         else EndOf(cfg.blockSize, 0, frames))
      && blockOffset + blockLeftover == cfg.blockSize
    }

    /** The array being collected is the pending part of the log. */
    ghost predicate Collected()
      reads this, arrayStore
    {
      && arrayStore.Length == cfg.blockSize
      && arrayRecords == |log.pending|
      && (log.pending != [] ==>
            && GoodLog(cfg, log)
            && arrayNext == ARRAY_HEADER_SIZE + |ArrayBody(log.pending)|
            && arrayEnd == Room(cfg, log.units)
            && arrayNext <= arrayEnd
            && arrayStore[ARRAY_HEADER_SIZE..arrayNext] == ArrayBody(log.pending))
    }

    /** What a client may rely on between calls. */
    ghost predicate Valid()
      reads this, arrayStore
    {
      && GoodLog(cfg, log)
      && Placed() && Collected()
      && frames == Frames(cfg, AllFrames(log.units))
      && (filled <==> log.pending != [])
    }

    /** The constructor over a sink.  CHECK_STATUS demands that zlib be registered when the
        writer falls back on it. */
    constructor (o: Options, codecs: Codecs)
      requires o.multiplier > 0 && codecs.Sound()
      requires Effective(o, codecs) == Some(ZLIB) ==> ZLIB in codecs.registered
      ensures Valid() && fresh(arrayStore)
      ensures cfg == Config(BLOCK_SIZE_FACTOR * o.multiplier, Effective(o, codecs), codecs)
      ensures multiplier == o.multiplier
      ensures !initCalled && meta == map[] && log == Log([], []) && dest == [] && header == []
    {
      cfg := Config(BLOCK_SIZE_FACTOR * o.multiplier, Effective(o, codecs), codecs);
      multiplier := o.multiplier;
      dest, meta, initCalled := [], map[], false;
      arrayStore := new Byte[BLOCK_SIZE_FACTOR * o.multiplier](_ => 0);
      arrayNext, arrayEnd, arrayRecords := 0, 0, 0;
      blockOffset, blockLeftover := 0, BLOCK_SIZE_FACTOR * o.multiplier;
      log, header, entries, frames, filled := Log([], []), [], [], [], false;
    }

    /** CHECK(!init_called_): metadata is added before Init. */
    method AddMeta(key: Bytes, value: Bytes)
      requires Valid() && !initCalled
      modifies `meta
      ensures Valid() && meta == old(meta)[key := value]
    {
      meta := meta[key := value];
    }

    /** FileHeader::Write lists the map's entries; any order will do for the reader. */
    static method ListEntries(m: FileHeader.Meta) returns (es: seq<FileHeader.Entry>)
      ensures FileHeader.Lists(es, m)
    {
      hide FileHeader.Lists;
      FileHeader.ListsNothing();
      es := [];
      var todo := m;
      ghost var listed: FileHeader.Meta := map[];
      while todo != map[]
        invariant listed.Keys !! todo.Keys && listed + todo == m
        invariant FileHeader.Lists(es, listed)
        decreases |todo|
      {
        var k :| k in todo;
        FileHeader.ListsSnoc(es, listed, k, todo[k]);
        FileHeader.MoveKey(listed, todo, k);
        FileHeader.FewerKeys(todo, k);
        es, listed, todo := es + [(k, todo[k])], listed[k := todo[k]], todo - {k};
      }
      assert listed + map[] == listed;
    }

    static lemma NothingWritten(sunk: Bytes, head: Bytes, l: Bytes, h: Bytes)
      requires sunk == [] && head == [] && sunk == head + l + []
      ensures sunk + h == h && h + l + [] == h
    {
    }

    /** FileHeader::Write. */
    method WriteHeader()
      requires Valid() && log == Log([], []) && dest == [] && header == []
      modifies `dest, `header, `entries
      ensures Valid()
      ensures FileHeader.Lists(entries, meta)
      ensures header == FileHeader.HeaderBytes(multiplier, entries) && dest == header
    {
      hide FileHeader.HeaderBytes, FileHeader.Lists, FileHeader.MetaBlock, GoodLog, Layout, Fits, Frames;
      var es := ListEntries(meta);
      NothingWritten(dest, header, Layout(cfg.blockSize, 0, frames), FileHeader.HeaderBytes(multiplier, es));
      dest := dest + FileHeader.HeaderBytes(multiplier, es);
      entries, header := es, dest;
    }

    /** Init writes the file header once. */
    method Init()
      requires Valid()
      requires !initCalled ==> log == Log([], []) && dest == [] && header == []
      modifies `dest, `initCalled, `header, `entries
      ensures Valid() && initCalled
      ensures old(initCalled) ==> dest == old(dest) && header == old(header) && entries == old(entries)
      ensures !old(initCalled) ==>
                && FileHeader.Lists(entries, meta)
                && header == FileHeader.HeaderBytes(multiplier, entries) && dest == header
    {
      if !initCalled {
        WriteHeader();
        hide *;
        initCalled := true;
      }
    }

    /** AddRecordToArray: copy the length and the record behind what is collected. */
    method AddRecordToArray(sizeEnc: Bytes, record: Bytes)
      requires arrayNext + |sizeEnc| + |record| <= arrayStore.Length
      modifies arrayStore, `arrayNext, `arrayRecords
      ensures arrayNext == old(arrayNext) + |sizeEnc| + |record| && arrayRecords == old(arrayRecords) + 1
      ensures arrayStore[..arrayNext] == old(arrayStore[..arrayNext]) + sizeEnc + record
    {
      var at := arrayNext;
      forall i | 0 <= i < |sizeEnc| { arrayStore[at + i] := sizeEnc[i]; }
      forall i | 0 <= i < |record| { arrayStore[at + |sizeEnc| + i] := record[i]; }
      arrayNext := at + |sizeEnc| + |record|;
      arrayRecords := arrayRecords + 1;
      assert arrayStore[..arrayNext] == old(arrayStore[..arrayNext]) + sizeEnc + record;
    }

    /** The compression step of EmitPhysicalRecord. */
    method Compress(kind: Byte, payload: Bytes) returns (typeByte: Byte, data: Bytes)
      requires cfg.Valid() && FULL <= kind <= LAST
      ensures (typeByte, data) == cfg.StoredForm(kind, payload)
    {
      typeByte, data := kind, payload;
      if cfg.scheme.Some? && |payload| > 64 {
        var compressed := cfg.codecs.Get(cfg.scheme.value).compress(payload);
        if compressed.Some? && |compressed.value| < |payload| - |payload| / 8 {
          typeByte := kind + COMPRESSED_MASK;
          data := [cfg.scheme.value] + compressed.value;
        }
      }
    }

    /** BlockHeader::SetCrcAndLength, with the checksum taken in two calls. */
    static method BlockHeader(typeByte: Byte, data: Bytes) returns (head: Bytes)
      requires |data| < TWO32
      ensures head + data == RawFrame(typeByte, data)
    {
      hide Crc32c.Extended, Checksum.Bits, Checksum.Stored, Fixed32;
      var crc := Crc32c.Extend(0, Checksum.Bits([typeByte]), 0);
      crc := Crc32c.Extend(crc, Checksum.Bits(data), 0);
      var stored := Checksum.ToUint32(Crc32c.Mask(crc));
      StoredIs(typeByte, data, crc);
      head := Fixed32(stored) + Fixed32(|data|) + [typeByte];
    }

    /** EmitPhysicalRecord: compress if that pays, then append header and data. */
    method EmitPhysicalRecord(kind: Byte, payload: Bytes)
      requires Placed() && filled && FULL <= kind <= LAST
      requires HEADER_SIZE + |payload| <= blockLeftover
      modifies `dest, `blockOffset, `blockLeftover, `frames, `filled
      ensures Placed() && !filled
      ensures frames == old(frames) + [Frame(cfg, Phys(kind, payload))]
    {
      hide Layout, Fits, Filler, RawFrame, Codecs.Sound, Config.StoredForm;
      var typeByte, data := Compress(kind, payload);
      var head := BlockHeader(typeByte, data);
      ghost var frame := Frame(cfg, Phys(kind, payload));
      assert frame == head + data;
      LayoutSnoc(cfg.blockSize, 0, frames, frame);
      Regrouped(header, Layout(cfg.blockSize, 0, frames),
                Filler(cfg.blockSize, EndOf(cfg.blockSize, 0, frames)), head, data);
      dest := dest + head;
      dest := dest + data;
      blockOffset := blockOffset + (HEADER_SIZE + |data|);
      blockLeftover := cfg.blockSize - blockOffset;
      frames, filled := frames + [frame], false;
    }

    static lemma StoredIs(kind: Byte, data: Bytes, crc: bv32)
      requires crc == Crc32c.Extended(Crc32c.Extended(0, Checksum.Bits([kind])), Checksum.Bits(data))
      ensures Checksum.ToUint32(Crc32c.Mask(crc)) == Checksum.Stored(kind, data)
    {
      hide Crc32c.Extended, Crc32c.Mask, Checksum.ToUint32, Checksum.Bits;
    }

    static lemma Regrouped(h: Bytes, l: Bytes, z: Bytes, a: Bytes, d: Bytes)
      ensures h + l + z + a + d == h + (l + z + (a + d)) + []
    {
    }

    static lemma SingleFrame(c: Config, p: Phys)
      requires c.Valid() && GoodPhys(p)
      ensures Frames(c, [p]) == [Frame(c, p)]
    {
      hide Frame;
    }

    /** FlushArray's first half: the count goes right before the entries. */
    method PackArray() returns (payload: Bytes)
      requires Collected() && log.pending != []
      modifies arrayStore
      ensures payload == ArrayPayload(log.pending)
    {
      hide Frame, Frames, Layout, Fits;
      var enc := EncodeVarint(arrayRecords);
      VarintWidth(arrayRecords);
      var start := ARRAY_HEADER_SIZE - |enc|;
      forall i | 0 <= i < |enc| { arrayStore[start + i] := enc[i]; }
      payload := arrayStore[start..arrayNext];
      assert arrayStore[start..ARRAY_HEADER_SIZE] == enc;
      assert arrayStore[ARRAY_HEADER_SIZE..arrayNext] == old(arrayStore[ARRAY_HEADER_SIZE..arrayNext]);
      SlicesJoin(arrayStore[..], start, ARRAY_HEADER_SIZE, arrayNext);
      assert arrayStore[..][start..arrayNext] == payload;
    }

    static lemma SlicesJoin(s: Bytes, i: nat, j: nat, k: nat)
      requires i <= j <= k <= |s|
      ensures s[i..k] == s[i..j] + s[j..k]
    {
    }

    /** FlushArray: emit what is collected, if anything is. */
    method FlushArray()
      requires Valid()
      modifies arrayStore, `arrayRecords, `dest, `blockOffset, `blockLeftover, `frames, `filled, `log
      ensures Valid() && log == AfterFlush(old(log)) && arrayRecords == 0
    {
      hide Frame, Frames, Layout, Fits, Filler, GoodLog, ArrayBody, ArrayPayload, Room, AllFrames, Codecs.Sound;
      if arrayRecords == 0 { return; }
      FlushFacts(cfg, log);
      var payload := PackArray();
      EmitPhysicalRecord(ARRAY, payload);
      arrayRecords := 0;
      log := AfterFlush(log);
    }

    static lemma FlushFacts(c: Config, g: Log)
      requires GoodLog(c, g) && g.pending != []
      ensures GoodLog(c, AfterFlush(g))
      ensures GoodPhys(Phys(ARRAY, ArrayPayload(g.pending)))
      ensures HEADER_SIZE + |ArrayPayload(g.pending)|
              <= c.blockSize - StartAt(c.blockSize, EndOf(c.blockSize, 0, Frames(c, AllFrames(g.units))))
      ensures Frames(c, AllFrames(AfterFlush(g).units))
              == Frames(c, AllFrames(g.units)) + [Frame(c, Phys(ARRAY, ArrayPayload(g.pending)))]
    {
      FlushIsGood(c, g);
      hide Frame, Frames, Layout, Fits, Filler;
      AppendUnit(c, g.units, Packed(g.pending));
      SingleFrame(c, Phys(ARRAY, ArrayPayload(g.pending)));
    }

    /** AddRecord's block trailer: with no room for a header and a byte, fill with zeroes. */
    method FillBlock()
      requires Placed() && !filled
      modifies `dest, `blockOffset, `blockLeftover, `filled
      ensures Placed() && filled
    {
      hide Layout, Fits, Codecs.Sound;
      if blockLeftover <= HEADER_SIZE {
        dest := dest + Zeros(blockLeftover);
        blockOffset := 0;
        blockLeftover := cfg.blockSize;
      }
      filled := true;
    }

    /** Nothing pending, the block position settled, and us is everything in the file. */
    ghost predicate AtBoundary(us: seq<Unit>)
      reads this, arrayStore
    {
      && GoodUnits(cfg, us) && log == Log(us, [])
      && Placed() && filled && Collected()
      && frames == Frames(cfg, AllFrames(us))
    }

    /** What AddFresh does at a boundary, in terms of the fields. */
    static lemma AddFreshFacts(c: Config, us: seq<Unit>, record: Bytes)
      requires GoodUnits(c, us) && |record| <= MAX_RECORD
      ensures var off := EndOf(c.blockSize, 0, Frames(c, AllFrames(us)));
              var left := c.blockSize - StartAt(c.blockSize, off);
              && left == Room(c, us) && left == RoomAt(c, off) + HEADER_SIZE
              && GoodLog(c, AddFresh(c, us, record))
              && (EntrySize(record) + ARRAY_HEADER_SIZE < left ==> AddFresh(c, us, record) == Log(us, [record]))
              && (EntrySize(record) + ARRAY_HEADER_SIZE >= left ==>
                    && AddFresh(c, us, record).pending == []
                    && (HEADER_SIZE + |record| <= left ==> AddFresh(c, us, record).units == us + [Whole(record)])
                    && (HEADER_SIZE + |record| > left ==>
                          AddFresh(c, us, record).units == us + [Split(Pieces(c, off, record))]))
    {
      AddFreshIsGood(c, us, record);
      hide Frame, Frames, Fits, Pieces, GoodLog;
    }

    /** Start collecting an array with this record. */
    method StartArray(sizeEnc: Bytes, record: Bytes, ghost us: seq<Unit>)
      requires AtBoundary(us) && |record| <= MAX_RECORD
      requires sizeEnc == EncodeVarint(|record|)
      requires EntrySize(record) + ARRAY_HEADER_SIZE < blockLeftover
      modifies arrayStore, `arrayNext, `arrayEnd, `arrayRecords, `log
      ensures Valid() && log == AddFresh(cfg, us, record)
    {
      hide Frame, Frames, Layout, Fits, Filler, GoodUnits, GoodLog, AllFrames, Codecs.Sound, AddFresh, Room;
      AddFreshFacts(cfg, us, record);
      arrayNext := ARRAY_HEADER_SIZE;
      arrayEnd := blockLeftover;
      AddRecordToArray(sizeEnc, record);
      log := Log(us, [record]);
      ArrayBodySnoc([], record);
      assert [] + [record] == [record];
      assert ArrayBody([record]) == sizeEnc + record;
      assert arrayStore[ARRAY_HEADER_SIZE..arrayNext] == arrayStore[..arrayNext][ARRAY_HEADER_SIZE..];
    }

    /** Put the record behind those already collected. */
    method JoinArray(sizeEnc: Bytes, record: Bytes)
      requires Valid() && |record| <= MAX_RECORD && Joins(cfg, log, record)
      requires sizeEnc == EncodeVarint(|record|)
      modifies arrayStore, `arrayNext, `arrayRecords, `log
      ensures Valid() && log == AfterAdd(cfg, old(log), record)
    {
      hide Frame, Frames, Layout, Fits, Filler, GoodUnits, GoodLog, AllFrames, Codecs.Sound, AddFresh, ArrayBody;
      JoinFacts(cfg, log, record);
      ghost var before := arrayStore[..arrayNext];
      ghost var body := ArrayBody(log.pending);
      assert before[ARRAY_HEADER_SIZE..] == body;
      AddRecordToArray(sizeEnc, record);
      log := Log(log.units, log.pending + [record]);
      DropOver(before, sizeEnc, record, ARRAY_HEADER_SIZE);
      assert arrayStore[ARRAY_HEADER_SIZE..arrayNext] == arrayStore[..arrayNext][ARRAY_HEADER_SIZE..];
    }

    static lemma DropOver(x: Bytes, y: Bytes, z: Bytes, k: nat)
      requires k <= |x|
      ensures (x + y + z)[k..] == x[k..] + y + z
    {
    }

    /** One physical record for the whole record. */
    method EmitWhole(record: Bytes, ghost us: seq<Unit>)
      requires AtBoundary(us) && |record| <= MAX_RECORD
      requires EntrySize(record) + ARRAY_HEADER_SIZE >= blockLeftover && HEADER_SIZE + |record| <= blockLeftover
      modifies `dest, `blockOffset, `blockLeftover, `frames, `filled, `log
      ensures Valid() && log == AddFresh(cfg, us, record)
    {
      hide Frame, Frames, Layout, Fits, Filler, GoodUnits, GoodLog, AllFrames, Codecs.Sound, AddFresh, Room;
      AddFreshFacts(cfg, us, record);
      EmitPhysicalRecord(FULL, record);
      log := AddFresh(cfg, us, record);
      AppendWholeFrames(cfg, us, record);
    }

    static lemma AppendWholeFrames(c: Config, us: seq<Unit>, record: Bytes)
      requires GoodUnits(c, us) && |record| <= MAX_RECORD && HEADER_SIZE + |record| <= Room(c, us)
      ensures AllGood(AllFrames(us + [Whole(record)]))
      ensures Frames(c, AllFrames(us + [Whole(record)]))
              == Frames(c, AllFrames(us)) + [Frame(c, Phys(FULL, record))]
    {
      AppendSingle(c, us, Whole(record), Phys(FULL, record));
      AppendUnit(c, us, Whole(record));
      SingleFrame(c, Phys(FULL, record));
    }

    /** In the middle of a fragmented record: the frames done are in the file, the pieces of
        rest are still to come, and together they are the frames of the whole record. */
    ghost predicate Fragmenting(us: seq<Unit>, done: seq<Phys>, rest: Bytes, whole: seq<Phys>)
      reads this, arrayStore
    {
      && GoodUnits(cfg, us) && log == Log(us, [])
      && Placed() && !filled && Collected()
      && AllGood(done) && frames == Frames(cfg, AllFrames(us)) + Frames(cfg, done)
      && rest != [] && done + TailFrames(Rest(cfg, blockOffset, rest)) == whole
    }

    /** The first fragment fills what the block has left. */
    method EmitFirst(record: Bytes, ghost us: seq<Unit>) returns (rest: Bytes, ghost done: seq<Phys>)
      requires AtBoundary(us) && |record| <= MAX_RECORD
      requires HEADER_SIZE + |record| > blockLeftover
      modifies `dest, `blockOffset, `blockLeftover, `frames, `filled
      ensures |record| > RoomAt(cfg, Offset(cfg, us))
      ensures Fragmenting(us, done, rest, UnitFrames(Split(Pieces(cfg, Offset(cfg, us), record))))
      ensures |rest| < |record|
    {
      hide Frame, Frames, Layout, Fits, Filler, GoodUnits, GoodLog, AllFrames, Codecs.Sound, AddFresh, Room, Rest,
        Pieces;
      AddFreshFacts(cfg, us, record);
      ghost var off := Offset(cfg, us);
      var length := blockLeftover - HEADER_SIZE;
      EmitPhysicalRecord(FIRST, record[..length]);
      rest := record[length..];
      done := [Phys(FIRST, record[..length])];
      PiecesUnfold(cfg, off, record);
      SingleFrame(cfg, done[0]);
      EndOfEmitted(cfg.blockSize, old(frames), Frame(cfg, done[0]));
      assert Pieces(cfg, off, record)[1..] == Rest(cfg, blockOffset, rest);
    }

    static lemma EndOfEmitted(b: nat, fs: seq<Bytes>, f: Bytes)
      requires Fits(b, 0, fs) && HEADER_SIZE <= |f| && StartAt(b, EndOf(b, 0, fs)) + |f| <= b
      ensures Fits(b, 0, fs + [f]) && EndOf(b, 0, fs + [f]) == StartAt(b, EndOf(b, 0, fs)) + |f|
    {
      LayoutSnoc(b, 0, fs, f);
    }

    static lemma LastFrame(x: Bytes)
      ensures TailFrames([x]) == [Phys(LAST, x)]
    {
    }

    /** A middle or last fragment; last tells whether the record is finished. */
    method EmitNext(rest: Bytes, ghost us: seq<Unit>, ghost done: seq<Phys>, ghost whole: seq<Phys>)
        returns (last: bool, rest': Bytes, ghost done': seq<Phys>)
      requires Fragmenting(us, done, rest, whole) && |rest| < TWO32
      modifies `dest, `blockOffset, `blockLeftover, `frames, `filled
      ensures !last ==> Fragmenting(us, done', rest', whole) && |rest'| < |rest|
      ensures last ==> && Placed() && !filled && done' == whole
                       && AllGood(whole) && frames == Frames(cfg, AllFrames(us)) + Frames(cfg, whole)
    {
      hide Frame, Frames, Layout, Fits, Filler, GoodUnits, GoodLog, AllFrames, Codecs.Sound, AddFresh, Room, Rest,
        EndOf, StartAt, RoomAt, Config.StoredForm, TailFrames, Codecs.Has, UnitFrames, UnitRecords;
      ghost var off := blockOffset;
      RestUnfold(cfg, off, rest);
      FillBlock();
      var length, kind := |rest|, LAST;
      if length > blockLeftover - HEADER_SIZE {
        length, kind := blockLeftover - HEADER_SIZE, MIDDLE;
      }
      ghost var p := Phys(kind, rest[..length]);
      EmitPhysicalRecord(kind, rest[..length]);
      done' := done + [p];
      last, rest' := kind == LAST, rest[length..];
      FramesConcat(cfg, done, [p]);
      SingleFrame(cfg, p);
      if last {
        assert rest[..length] == rest;
        LastFrame(rest);
      } else {
        EndOfEmitted(cfg.blockSize, old(frames), Frame(cfg, p));
        ghost var more := Rest(cfg, blockOffset, rest');
        TailFramesCons(rest[..length], more);
        Associative(done, [p], TailFrames(more));
      }
    }

    /** A record that neither an array nor one frame can hold in what the block has left. */
    static ghost predicate Oversized(c: Config, us: seq<Unit>, record: Bytes) {
      && GoodUnits(c, us)
      && EntrySize(record) + ARRAY_HEADER_SIZE >= Room(c, us) && HEADER_SIZE + |record| > Room(c, us)
      && |record| > RoomAt(c, Offset(c, us))
    }

    /** The part of AddRecord's loop that is reached with no array and no fragment pending. */
    method PlaceRecord(sizeEnc: Bytes, total: nat, record: Bytes, ghost us: seq<Unit>)
        returns (placed: bool, rest: Bytes, ghost done: seq<Phys>)
      requires Valid() && log == Log(us, []) && |record| <= MAX_RECORD
      requires sizeEnc == EncodeVarint(|record|) && total == EntrySize(record)
      modifies arrayStore, `arrayNext, `arrayEnd, `arrayRecords, `log
      modifies `dest, `blockOffset, `blockLeftover, `frames, `filled
      ensures placed ==> Valid() && log == AddFresh(cfg, us, record)
      ensures !placed ==> && Oversized(cfg, us, record) && |rest| < |record|
                          && |record| > RoomAt(cfg, Offset(cfg, us))
                          && Fragmenting(us, done, rest, UnitFrames(Split(Pieces(cfg, Offset(cfg, us), record))))
    {
      hide Frame, Frames, Layout, Fits, Filler, AllFrames, Codecs.Sound, AddFresh, Rest, Pieces, Sized;
      FillBlock();
      AddFreshFacts(cfg, us, record);
      SizeArithmeticIsExact(|record|);
      placed, rest, done := true, [], [];
      if Low32(total + ARRAY_HEADER_SIZE) < blockLeftover {
        StartArray(sizeEnc, record, us);
      } else if HEADER_SIZE + |record| <= blockLeftover {
        EmitWhole(record, us);
      } else {
        rest, done := EmitFirst(record, us);
        placed := false;
      }
    }

    /** AddRecord: join the array being collected, or start one, or emit the record whole, or
        fragment it over the following blocks. */
    method AddRecord(record: Bytes)
      requires Valid() && initCalled && |record| <= MAX_RECORD
      modifies arrayStore, `arrayNext, `arrayEnd, `arrayRecords, `log
      modifies `dest, `blockOffset, `blockLeftover, `frames, `filled
      ensures Valid() && log == AfterAdd(cfg, old(log), record)
    {
      hide Frame, Frames, Layout, Fits, Filler, GoodUnits, AllFrames, Codecs.Sound, AddFresh, Room, Rest, Pieces,
        Oversized, ArrayBody, GoodLog, EncodeVarint, AfterAdd, Joins;
      var sizeEnc := EncodeVarint(|record|);
      var total := Low32(|sizeEnc| + |record|);
      SizeArithmeticIsExact(|record|);
      ghost var us := Flushed(log.units, log.pending);
      ghost var done, whole: seq<Phys> := [], [];
      AfterAddCases(record);
      var fragmenting, rest := false, record;
      while true
        invariant !fragmenting ==> Valid() && log == old(log)
        invariant fragmenting ==> && AfterAdd(cfg, old(log), record) == AddFresh(cfg, us, record)
                                  && Oversized(cfg, us, record)
                                  && |rest| < |record| && Fragmenting(us, done, rest, whole)
        invariant fragmenting ==> |record| > RoomAt(cfg, Offset(cfg, us))
        invariant fragmenting ==> whole == UnitFrames(Split(Pieces(cfg, Offset(cfg, us), record)))
        decreases if fragmenting then |rest| else |record| + 1
      {
        if arrayRecords > 0 {
          if arrayNext + total <= arrayEnd {
            JoinArray(sizeEnc, record);
            return;
          }
          FlushArray();
        }
        if fragmenting {
          var last;
          last, rest, done := EmitNext(rest, us, done, whole);
          if last {
            log := AddFresh(cfg, us, record);
            SplitFacts(cfg, us, record);
            return;
          }
        } else {
          var placed;
          placed, rest, done := PlaceRecord(sizeEnc, total, record, us);
          if placed { return; }
          fragmenting := true;
          whole := UnitFrames(Split(Pieces(cfg, Offset(cfg, us), record)));
        }
      }
    }

    /** The branch AddRecord takes on its array is the branch of AfterAdd. */
    lemma AfterAddCases(record: Bytes)
      requires Valid() && |record| <= MAX_RECORD
      ensures GoodUnits(cfg, Flushed(log.units, log.pending))
      ensures Joins(cfg, log, record) <==> arrayRecords > 0 && arrayNext + EntrySize(record) <= arrayEnd
      ensures !Joins(cfg, log, record) ==>
                AfterAdd(cfg, log, record) == AddFresh(cfg, Flushed(log.units, log.pending), record)
    {
      hide AddFresh, GoodUnits, Frames;
      FlushIsGood(cfg, log);
    }

    static lemma JoinFacts(c: Config, g: Log, record: Bytes)
      requires GoodLog(c, g) && |record| <= MAX_RECORD && Joins(c, g, record)
      ensures AfterAdd(c, g, record) == Log(g.units, g.pending + [record])
      ensures GoodLog(c, Log(g.units, g.pending + [record]))
      ensures ARRAY_HEADER_SIZE + |ArrayBody(g.pending + [record])| <= Room(c, g.units)
      ensures ArrayBody(g.pending + [record]) == ArrayBody(g.pending) + EncodeVarint(|record|) + record
    {
      ArrayBodySnoc(g.pending, record);
      AddIsGood(c, g, record);
    }

    static lemma SplitFacts(c: Config, us: seq<Unit>, record: Bytes)
      requires GoodUnits(c, us) && |record| <= MAX_RECORD
      requires Oversized(c, us, record)
      ensures |record| > RoomAt(c, Offset(c, us))
      ensures var u := Split(Pieces(c, Offset(c, us), record));
              && AddFresh(c, us, record) == Log(us + [u], [])
              && GoodLog(c, AddFresh(c, us, record))
              && AllGood(UnitFrames(u)) && AllGood(AllFrames(us + [u]))
              && Frames(c, AllFrames(us + [u])) == Frames(c, AllFrames(us)) + Frames(c, UnitFrames(u))
    {
      AddFreshIsGood(c, us, record);
      SplitIsGood(c, Offset(c, us), record);
      AppendUnit(c, us, Split(Pieces(c, Offset(c, us), record)));
    }

    /** Flush: emit what is collected. */
    method Flush()
      requires Valid()
      modifies arrayStore, `arrayRecords, `dest, `blockOffset, `blockLeftover, `frames, `filled, `log
      ensures Valid() && log == AfterFlush(old(log))
    {
      FlushArray();
    }
  }
}
