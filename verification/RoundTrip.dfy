/** The list file end to end: a fresh writer, any calls, and a reader on what came out. */
module EndToEnd {
  import opened Wrappers
  import opened Coding
  import opened Blocks
  import opened ListFormat
  import opened Physical
  import opened Logical
  import opened WriterLog
  import opened ListWriting
  import opened ListReading
  import ListFile
  import FileHeader

  /** AddMeta for every entry of m. */
  method AddAllMeta(w: ListWriter, m: FileHeader.Meta)
    requires w.Valid() && !w.initCalled && w.meta == map[]
    modifies w`meta
    ensures w.Valid() && w.meta == m
  {
    hide Frame, Frames, GoodUnits, GoodLog, Codecs.Sound;
    var todo := m;
    while todo != map[]
      invariant w.Valid() && w.meta.Keys !! todo.Keys && w.meta + todo == m
      decreases |todo|
    {
      var k :| k in todo;
      FileHeader.MoveKey(w.meta, todo, k);
      FileHeader.FewerKeys(todo, k);
      w.AddMeta(k, todo[k]);
      todo := todo - {k};
    }
    assert w.meta + map[] == w.meta;
  }

  /** Make one call. */
  method Call(w: ListWriter, op: Op)
    requires w.Valid() && w.initCalled && GoodOp(op)
    modifies w, w.arrayStore
    ensures w.Valid() && w.initCalled
    ensures w.header == old(w.header) && w.entries == old(w.entries)
    ensures w.log == AfterOp(w.cfg, old(w.log), op)
  {
    hide Frame, Frames, GoodUnits, GoodLog, Codecs.Sound, AfterAdd, AfterFlush;
    match op {
      case Add(record) => w.AddRecord(record);
      case Flush => w.Flush();
    }
  }

  /** Make the calls in order; the sink then holds the header and the body of the whole run. */
  method WriteAll(w: ListWriter, ops: seq<Op>)
    requires w.Valid() && w.initCalled && GoodOps(ops) && w.log == Log([], [])
    modifies w, w.arrayStore
    ensures w.Valid() && w.header == old(w.header) && w.entries == old(w.entries)
    ensures w.dest == w.header + Body(w.cfg, AfterOps(w.cfg, Log([], []), ops))
  {
    hide Frame, Frames, GoodUnits, GoodLog, Codecs.Sound, AfterOp, ListWriter.Placed, ListWriter.Collected;
    ghost var empty := w.log;
    var i := 0;
    assert ops[0..] == ops;
    while i < |ops|
      invariant 0 <= i <= |ops| && w.Valid() && w.initCalled
      invariant w.header == old(w.header) && w.entries == old(w.entries)
      invariant AfterOps(w.cfg, w.log, ops[i..]) == AfterOps(w.cfg, empty, ops)
    {
      assert ops[i..][0] == ops[i] && ops[i..][1..] == ops[i + 1..];
      OpIsGood(w.cfg, w.log, ops[i]);
      Call(w, ops[i]);
      i := i + 1;
    }
    BodyOfWriter(w);
  }

  /** Between calls the sink holds exactly the header and the body of the log. */
  lemma BodyOfWriter(w: ListWriter)
    requires w.Valid()
    ensures w.dest == w.header + Body(w.cfg, w.log)
  {
    hide Frame, Frames;
    Associative(w.header, Layout(w.cfg.blockSize, 0, w.frames),
                if w.filled then Filler(w.cfg.blockSize, EndOf(w.cfg.blockSize, 0, w.frames)) else []);
  }

  lemma GotsAreRecords(rs: seq<Bytes>)
    ensures Records(Gots(rs)) == rs
  {
    RecordsAfterGots(rs, []);
    assert Gots(rs) + [] == Gots(rs);
  }

  /** A whole run of a fresh writer leaves the file of its calls, with the metadata in some order. */
  method WriteFile(o: Options, codecs: Codecs, m: FileHeader.Meta, ops: seq<Op>) returns (file: Bytes)
    requires o.multiplier > 0 && codecs.Sound() && GoodOps(ops)
    requires Effective(o, codecs) == Some(ZLIB) ==> ZLIB in codecs.registered
    ensures Agreed(o, codecs).Valid()
    ensures exists es :: FileHeader.Lists(es, m)
                         && file == ListFile.FileAfter(Agreed(o, codecs), o.multiplier, es, ops)
  {
    hide FileHeader.HeaderBytes, FileHeader.Lists, Frame, Frames, GoodUnits, Body,
      AfterOps, GoodLog, Codecs.Sound;
    var w := new ListWriter(o, codecs);
    AddAllMeta(w, m);
    w.Init();
    ghost var es := w.entries;
    WriteAll(w, ops);
    file := w.dest;
  }

  /** The configuration a writer with these options works under. */
  function Agreed(o: Options, codecs: Codecs): Config {
    Config(BLOCK_SIZE_FACTOR * o.multiplier, Effective(o, codecs), codecs)
  }

  /** Open a reader on a file and read everything. */
  method ReadFile(file: Bytes, checksum: bool, codecs: Codecs)
      returns (ok: bool, meta: FileHeader.Meta, records: seq<Bytes>, reports: seq<Drop>)
    ensures records == Records(ListFile.Trace(codecs, checksum, file))
    ensures ok ==> FileHeader.ParseHeader(file).Header? && meta == FileHeader.ParseHeader(file).meta
    ensures ListFile.Trace(codecs, checksum, file) == Gots(records) && FileHeader.ParseHeader(file).Header? ==>
              ok && reports == []
  {
    hide FileHeader.ParseHeader, Run, Events, ListFile.Trace;
    var r := new ListReader(file, checksum, codecs);
    ok, meta := r.GetMetaData();
    if !ok { return ok, meta, [], r.reports; }
    records := ReadAll(r);
    reports := r.reports;
  }

  /** Write some metadata and records, flush, and read everything back. */
  method WriteAndReadBack(o: Options, codecs: Codecs, m: FileHeader.Meta, ops: seq<Op>, checksum: bool)
      returns (records: seq<Bytes>, meta: FileHeader.Meta, reports: seq<Drop>)
    requires 1 <= o.multiplier <= 100 && codecs.Sound()
    requires Effective(o, codecs) == Some(ZLIB) ==> ZLIB in codecs.registered
    requires forall es :: FileHeader.Lists(es, m) ==> FileHeader.Storable(es)
    requires GoodOps(ops) && ops != [] && ops[|ops| - 1] == Flush
    ensures records == Added(ops)
    ensures meta == m
    ensures reports == []
  {
    hide *;
    var file := WriteFile(o, codecs, m, ops);
    ghost var es :| FileHeader.Lists(es, m)
                    && file == ListFile.FileAfter(Agreed(o, codecs), o.multiplier, es, ops);
    AgreedIs(o, codecs);
    ListFile.RoundTrip(Agreed(o, codecs), o.multiplier, m, es, ops, checksum);
    GotsAreRecords(Added(ops));
    var ok;
    ok, meta, records, reports := ReadFile(file, checksum, codecs);
  }

  lemma AgreedIs(o: Options, codecs: Codecs)
    ensures Agreed(o, codecs).blockSize == BLOCK_SIZE_FACTOR * o.multiplier && Agreed(o, codecs).codecs == codecs
  {
  }

  /** The block invariant in the writer's own fields: what follows the header is a number of
      whole blocks and the current offset, offset and leftover make up a block, and a pending
      array with its reserved header fits what is left. */
  lemma BlockPosition(w: ListWriter) returns (k: nat)
    requires w.Valid()
    ensures |w.dest| == |w.header| + k * w.cfg.blockSize + w.blockOffset
    ensures w.blockOffset + w.blockLeftover == w.cfg.blockSize
    ensures w.arrayRecords > 0 ==> ARRAY_HEADER_SIZE < w.arrayNext <= w.blockLeftover
  {
    hide Frame, Frames, Codecs.Sound;
    var b := w.cfg.blockSize;
    var end := EndOf(b, 0, w.frames);
    k := LayoutSize(b, 0, w.frames);
    if w.filled && b - end <= HEADER_SIZE {
      assert (k + 1) * b == k * b + b;
      k := k + 1;
    }
  }
}
