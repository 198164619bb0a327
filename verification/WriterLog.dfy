/** What a ListWriter has put into its file, as a function of the calls made so far: the
    units already written and the array still being collected. */
module WriterLog {
  import opened Wrappers
  import opened Coding
  import opened Blocks
  import opened ListFormat
  import opened Logical
  import opened Stream

  /** The largest record whose 32-bit size arithmetic in AddRecord does not wrap. */
  const MAX_RECORD: nat := TWO32 - 20

  datatype Log = Log(units: seq<Unit>, pending: seq<Bytes>)

  datatype Op = Add(record: Bytes) | Flush

  // ---- Fragmentation ---------------------------------------------------------------

  /** What a block filled up to off has room for after a header, in this or the next block. */
  function RoomAt(c: Config, off: nat): (n: nat)
    requires c.Valid() && off <= c.blockSize
    ensures 0 < n && StartAt(c.blockSize, off) + HEADER_SIZE + n == c.blockSize
  {
    c.blockSize - StartAt(c.blockSize, off) - HEADER_SIZE
  }

  /** Where a fragment x written from off ends. */
  function EndAfter(c: Config, off: nat, kind: Byte, x: Bytes): (e: nat)
    requires c.Valid() && off <= c.blockSize && FULL <= kind <= LAST && |x| <= RoomAt(c, off)
    ensures e <= c.blockSize
  {
    StartAt(c.blockSize, off) + |Frame(c, Phys(kind, x))|
  }

  /** The pieces of a fragmented record after the first, from offset off of a block: each
      fills what its block has left, as far as compression of earlier pieces left it. */
  function Rest(c: Config, off: nat, r: Bytes): (ps: seq<Bytes>)
    requires c.Valid() && off <= c.blockSize
    ensures |ps| >= 1
    decreases |r|
  {
    var room := RoomAt(c, off);
    if |r| <= room then [r]
    else [r[..room]] + Rest(c, EndAfter(c, off, MIDDLE, r[..room]), r[room..])
  }

  /** All pieces of a record that does not fit after offset off. */
  function Pieces(c: Config, off: nat, r: Bytes): (ps: seq<Bytes>)
    requires c.Valid() && off <= c.blockSize && |r| > RoomAt(c, off)
    ensures |ps| >= 2
  {
    var room := RoomAt(c, off);
    [r[..room]] + Rest(c, EndAfter(c, off, FIRST, r[..room]), r[room..])
  }

  /** One more frame in front of a run that fits after it. */
  lemma ConsFits(c: Config, off: nat, p: Phys, ps: seq<Phys>)
    requires c.Valid() && off <= c.blockSize && Sized(c, ps)
    requires GoodPhys(p) && StartAt(c.blockSize, off) + HEADER_SIZE + |p.payload| <= c.blockSize
    requires Fits(c.blockSize, StartAt(c.blockSize, off) + |Frame(c, p)|, Frames(c, ps))
    ensures Sized(c, [p] + ps) && Fits(c.blockSize, off, Frames(c, [p] + ps))
  {
    hide Frame;
    var fs := Frames(c, [p] + ps);
    assert fs[0] == Frame(c, p) && fs[1..] == Frames(c, ps);
  }

  lemma JoinedCons(x: Bytes, ps: seq<Bytes>)
    ensures Joined([x] + ps) == x + Joined(ps)
  {
  }

  lemma TailFramesCons(x: Bytes, ps: seq<Bytes>)
    ensures TailFrames([x] + ps) == (if ps == [] then [Phys(LAST, x)] else [Phys(MIDDLE, x)]) + TailFrames(ps)
  {
    assert ([x] + ps)[1..] == ps;
  }

  /** The pieces spell r, none is empty, and their frames fit from off on. */
  ghost predicate GoodTail(c: Config, off: nat, r: Bytes, ps: seq<Bytes>)
    requires c.Valid()
  {
    && Joined(ps) == r
    && (forall i :: 0 <= i < |ps| ==> ps[i] != [])
    && Sized(c, TailFrames(ps))
    && Fits(c.blockSize, off, Frames(c, TailFrames(ps)))
  }

  /** One more piece in front, in a block with room for it. */
  lemma GoodTailCons(c: Config, off: nat, x: Bytes, r: Bytes, ps: seq<Bytes>)
    requires c.Valid() && off <= c.blockSize && 0 < |x| <= RoomAt(c, off)
    requires GoodTail(c, EndAfter(c, off, if ps == [] then LAST else MIDDLE, x), r, ps)
    ensures GoodTail(c, off, x + r, [x] + ps)
  {
    hide Frame, Frames, Fits;
    JoinedCons(x, ps);
    TailFramesCons(x, ps);
    ConsFits(c, off, Phys(if ps == [] then LAST else MIDDLE, x), TailFrames(ps));
  }

  lemma GoodTailOfNothing(c: Config, off: nat)
    requires c.Valid() && off <= c.blockSize
    ensures GoodTail(c, off, [], [])
  {
  }

  lemma RestUnfold(c: Config, off: nat, r: Bytes)
    requires c.Valid() && off <= c.blockSize
    ensures Rest(c, off, r)
            == if |r| <= RoomAt(c, off) then [r]
               else [r[..RoomAt(c, off)]]
                    + Rest(c, EndAfter(c, off, MIDDLE, r[..RoomAt(c, off)]), r[RoomAt(c, off)..])
  {
    hide EndAfter;
  }

  lemma {:induction false} RestIsGood(c: Config, off: nat, r: Bytes)
    requires c.Valid() && off <= c.blockSize && r != []
    ensures GoodTail(c, off, r, Rest(c, off, r))
    decreases |r|
  {
    hide Rest, RoomAt, EndAfter, GoodTail, Codecs.Sound, Codecs.Has;
    RestUnfold(c, off, r);
    var room := RoomAt(c, off);
    if |r| <= room {
      GoodTailOfNothing(c, EndAfter(c, off, LAST, r));
      GoodTailCons(c, off, r, [], []);
      assert [r] + [] == [r] && r + [] == r;
    } else {
      var next := EndAfter(c, off, MIDDLE, r[..room]);
      RestIsGood(c, next, r[room..]);
      GoodTailCons(c, off, r[..room], r[room..], Rest(c, next, r[room..]));
      assert r[..room] + r[room..] == r;
    }
  }

  lemma PiecesAreGood(c: Config, off: nat, r: Bytes)
    requires c.Valid() && off <= c.blockSize && |r| > RoomAt(c, off)
    ensures var u := Split(Pieces(c, off, r));
            && GoodUnit(u) && UnitRecords(u) == [r]
            && var p := Phys(FIRST, r[..RoomAt(c, off)]);
            && UnitFrames(u) == [p] + TailFrames(u.pieces[1..])
            && GoodTail(c, EndAfter(c, off, FIRST, p.payload), r[RoomAt(c, off)..], u.pieces[1..])
  {
    hide Rest, Pieces, RoomAt, EndAfter, GoodTail, GoodUnit, UnitFrames, UnitRecords, TailFrames, Joined, Codecs.Sound,
      Codecs.Has;
    var room := RoomAt(c, off);
    var next := EndAfter(c, off, FIRST, r[..room]);
    var more := Rest(c, next, r[room..]);
    PiecesUnfold(c, off, r);
    assert Pieces(c, off, r)[1..] == more;
    RestIsGood(c, next, r[room..]);
    TailIsJoined(c, next, r[room..], more);
    assert r[..room] + r[room..] == r;
    SplitInto(r[..room], more);
  }

  lemma TailIsJoined(c: Config, off: nat, r: Bytes, ps: seq<Bytes>)
    requires c.Valid() && GoodTail(c, off, r, ps)
    ensures Joined(ps) == r && forall i :: 0 <= i < |ps| ==> ps[i] != []
  {
  }

  lemma SplitInto(x: Bytes, more: seq<Bytes>)
    ensures var u := Split([x] + more);
            && u.pieces[1..] == more && UnitRecords(u) == [x + Joined(more)]
            && UnitFrames(u) == [Phys(FIRST, x)] + TailFrames(more)
            && (x != [] && more != [] && (forall i :: 0 <= i < |more| ==> more[i] != []) ==> GoodUnit(u))
  {
    JoinedCons(x, more);
    assert ([x] + more)[1..] == more;
  }

  lemma SplitIsGood(c: Config, off: nat, r: Bytes)
    requires c.Valid() && off <= c.blockSize && |r| > RoomAt(c, off)
    ensures var u := Split(Pieces(c, off, r));
            && GoodUnit(u) && UnitRecords(u) == [r]
            && Sized(c, UnitFrames(u))
            && Fits(c.blockSize, off, Frames(c, UnitFrames(u)))
  {
    hide Frame, Frames, Fits, Pieces, Sized;
    PiecesAreGood(c, off, r);
    ConsFits(c, off, Phys(FIRST, r[..RoomAt(c, off)]), TailFrames(Pieces(c, off, r)[1..]));
  }

  lemma PiecesUnfold(c: Config, off: nat, r: Bytes)
    requires c.Valid() && off <= c.blockSize && |r| > RoomAt(c, off)
    ensures Pieces(c, off, r)
            == [r[..RoomAt(c, off)]]
               + Rest(c, EndAfter(c, off, FIRST, r[..RoomAt(c, off)]), r[RoomAt(c, off)..])
  {
    hide EndAfter, Rest;
  }

  // ---- The invariant ---------------------------------------------------------------

  ghost predicate GoodUnits(c: Config, us: seq<Unit>) {
    && c.Valid()
    && AllGoodUnits(us)
    && Sized(c, AllFrames(us))
    && Fits(c.blockSize, 0, Frames(c, AllFrames(us)))
  }

  /** The offset in the current block after the units. */
  function Offset(c: Config, us: seq<Unit>): (off: nat)
    requires GoodUnits(c, us)
    ensures off <= c.blockSize
  {
    EndOf(c.blockSize, 0, Frames(c, AllFrames(us)))
  }

  /** What the current block has left for the next physical record. */
  function Room(c: Config, us: seq<Unit>): (n: nat)
    requires GoodUnits(c, us)
    ensures HEADER_SIZE < n <= c.blockSize
  {
    c.blockSize - StartAt(c.blockSize, Offset(c, us))
  }

  lemma UnitsFit(c: Config, us: seq<Unit>)
    requires GoodUnits(c, us)
    ensures c.Valid() && AllGood(AllFrames(us)) && Fits(c.blockSize, 0, Frames(c, AllFrames(us)))
    ensures Offset(c, us) == EndOf(c.blockSize, 0, Frames(c, AllFrames(us)))
  {
  }

  /** Everything written is well formed, and the pending array fits what the block has left. */
  ghost predicate GoodLog(c: Config, g: Log) {
    && GoodUnits(c, g.units)
    && (forall i :: 0 <= i < |g.pending| ==> |g.pending[i]| < TWO32)
    && (g.pending != [] ==> ARRAY_HEADER_SIZE + |ArrayBody(g.pending)| <= Room(c, g.units))
  }

  lemma AppendUnit(c: Config, us: seq<Unit>, u: Unit)
    requires GoodUnits(c, us) && GoodUnit(u) && Sized(c, UnitFrames(u))
    requires Fits(c.blockSize, Offset(c, us), Frames(c, UnitFrames(u)))
    ensures GoodUnits(c, us + [u])
    ensures AllFrames(us + [u]) == AllFrames(us) + UnitFrames(u)
    ensures AllRecords(us + [u]) == AllRecords(us) + UnitRecords(u)
    ensures Frames(c, AllFrames(us + [u])) == Frames(c, AllFrames(us)) + Frames(c, UnitFrames(u))
  {
    hide Frame, UnitFrames, UnitRecords;
    AllConcat(us, [u]);
    assert [u][1..] == [];
    assert AllFrames([u]) == UnitFrames(u) && AllRecords([u]) == UnitRecords(u);
    FramesConcat(c, AllFrames(us), UnitFrames(u));
    LayoutConcat(c.blockSize, 0, Frames(c, AllFrames(us)), Frames(c, UnitFrames(u)));
  }

  /** A unit of one frame fits when its uncompressed size does. */
  lemma AppendSingle(c: Config, us: seq<Unit>, u: Unit, p: Phys)
    requires GoodUnits(c, us) && GoodUnit(u) && UnitFrames(u) == [p]
    requires GoodPhys(p) && HEADER_SIZE + |p.payload| <= Room(c, us)
    ensures Sized(c, UnitFrames(u)) && Fits(c.blockSize, Offset(c, us), Frames(c, UnitFrames(u)))
  {
    hide Frame;
    var fs := Frames(c, [p]);
    assert fs[0] == Frame(c, p) && fs[1..] == [];
  }

  // ---- The operations --------------------------------------------------------------

  function Flushed(us: seq<Unit>, pending: seq<Bytes>): seq<Unit> {
    if pending == [] then us else us + [Packed(pending)]
  }

  lemma FlushIsGood(c: Config, g: Log)
    requires GoodLog(c, g)
    ensures GoodUnits(c, Flushed(g.units, g.pending))
    ensures AllRecords(Flushed(g.units, g.pending)) == AllRecords(g.units) + g.pending
    ensures g.pending != [] ==>
              && GoodUnit(Packed(g.pending)) && Sized(c, UnitFrames(Packed(g.pending)))
              && Fits(c.blockSize, Offset(c, g.units), Frames(c, UnitFrames(Packed(g.pending))))
              && HEADER_SIZE + |ArrayPayload(g.pending)| <= Room(c, g.units)
  {
    if g.pending != [] {
      var p := Phys(ARRAY, ArrayPayload(g.pending));
      VarintWidth(|g.pending|);
      AppendSingle(c, g.units, Packed(g.pending), p);
      AppendUnit(c, g.units, Packed(g.pending));
    }
  }

  /** The bytes a record takes in an array. */
  function EntrySize(r: Bytes): nat {
    |EncodeVarint(|r|)| + |r|
  }

  /** AddRecord when the record does not join a pending array. */
  function AddFresh(c: Config, us: seq<Unit>, r: Bytes): Log
    requires GoodUnits(c, us)
  {
    var room := Room(c, us);
    if EntrySize(r) + ARRAY_HEADER_SIZE < room then Log(us, [r])
    else if HEADER_SIZE + |r| <= room then Log(us + [Whole(r)], [])
    else Log(us + [Split(Pieces(c, Offset(c, us), r))], [])
  }

  ghost predicate Joins(c: Config, g: Log, r: Bytes)
    requires GoodLog(c, g)
  {
    g.pending != [] && ARRAY_HEADER_SIZE + |ArrayBody(g.pending)| + EntrySize(r) <= Room(c, g.units)
  }

  ghost function AfterAdd(c: Config, g: Log, r: Bytes): Log
    requires GoodLog(c, g)
  {
    if Joins(c, g, r) then Log(g.units, g.pending + [r])
    else
      FlushIsGood(c, g);
      AddFresh(c, Flushed(g.units, g.pending), r)
  }

  ghost function AfterFlush(g: Log): Log {
    Log(Flushed(g.units, g.pending), [])
  }

  function Contents(g: Log): seq<Bytes> {
    AllRecords(g.units) + g.pending
  }

  lemma AddFreshIsGood(c: Config, us: seq<Unit>, r: Bytes)
    requires GoodUnits(c, us) && |r| <= MAX_RECORD
    ensures GoodLog(c, AddFresh(c, us, r))
    ensures Contents(AddFresh(c, us, r)) == AllRecords(us) + [r]
  {
    var room := Room(c, us);
    hide Frame, Frames, Fits, Pieces, GoodUnits;
    if EntrySize(r) + ARRAY_HEADER_SIZE < room {
      assert ArrayBody([r]) == EncodeVarint(|r|) + r + ArrayBody([r][1..]);
    } else if HEADER_SIZE + |r| <= room {
      AppendSingle(c, us, Whole(r), Phys(FULL, r));
      AppendUnit(c, us, Whole(r));
    } else {
      ValidOf(c, us);
      SplitIsGood(c, Offset(c, us), r);
      AppendUnit(c, us, Split(Pieces(c, Offset(c, us), r)));
    }
  }

  lemma ValidOf(c: Config, us: seq<Unit>)
    requires GoodUnits(c, us)
    ensures c.Valid()
  {
  }

  /** Every AddRecord keeps the block invariant and appends exactly its record. */
  lemma AddIsGood(c: Config, g: Log, r: Bytes)
    requires GoodLog(c, g) && |r| <= MAX_RECORD
    ensures GoodLog(c, AfterAdd(c, g, r))
    ensures Contents(AfterAdd(c, g, r)) == Contents(g) + [r]
  {
    if Joins(c, g, r) {
      ArrayBodySnoc(g.pending, r);
    } else {
      FlushIsGood(c, g);
      AddFreshIsGood(c, Flushed(g.units, g.pending), r);
    }
  }

  /** Where a record goes: into the pending array exactly if that, with its header, still fits what
      the block has left; otherwise the array is flushed, and the record begins a new one if it
      leaves room for more than the header, or is written whole if it fits at all, or is split, the
      first piece filling the block. */
  lemma PlacementRule(c: Config, g: Log, r: Bytes)
    requires GoodLog(c, g) && |r| <= MAX_RECORD
    ensures GoodUnits(c, AfterFlush(g).units)
    ensures var room := Room(c, AfterFlush(g).units);
            var h := AfterAdd(c, g, r);
            if g.pending != [] && 14 + |ArrayBody(g.pending + [r])| <= Room(c, g.units)
            then h == Log(g.units, g.pending + [r])
            else if 14 + |ArrayBody([r])| < room then h == Log(AfterFlush(g).units, [r])
            else if 9 + |r| <= room then h == Log(AfterFlush(g).units + [Whole(r)], [])
            else && h.pending == [] && |h.units| == |AfterFlush(g).units| + 1
                 && h.units[..|h.units| - 1] == AfterFlush(g).units
                 && var last := h.units[|h.units| - 1];
                    last.Split? && |last.pieces| >= 2 && |last.pieces[0]| == room - 9
  {
    hide Frame, Frames, GoodUnits, Rest, Fits;
    FlushIsGood(c, g);
    ArrayBodySnoc(g.pending, r);
    ArrayBodySnoc([], r);
    assert [] + [r] == [r] && ArrayBody([]) == [];
    assert EntrySize(r) == |EncodeVarint(|r|)| + |r|;
    ValidOf(c, AfterFlush(g).units);
  }

  // ---- Whole runs ------------------------------------------------------------------

  ghost predicate GoodOp(op: Op) {
    op.Add? ==> |op.record| <= MAX_RECORD
  }

  ghost predicate GoodOps(ops: seq<Op>) {
    forall i :: 0 <= i < |ops| ==> GoodOp(ops[i])
  }

  function OpRecords(op: Op): seq<Bytes> {
    if op.Add? then [op.record] else []
  }

  function Added(ops: seq<Op>): seq<Bytes>
    decreases |ops|
  {
    if ops == [] then [] else OpRecords(ops[0]) + Added(ops[1..])
  }

  ghost function AfterOp(c: Config, g: Log, op: Op): Log
    requires GoodLog(c, g)
  {
    match op
    case Add(r) => AfterAdd(c, g, r)
    case Flush => AfterFlush(g)
  }

  lemma OpIsGood(c: Config, g: Log, op: Op)
    requires GoodLog(c, g) && GoodOp(op)
    ensures GoodLog(c, AfterOp(c, g, op))
    ensures Contents(AfterOp(c, g, op)) == Contents(g) + OpRecords(op)
  {
    hide GoodUnits;
    match op {
      case Add(r) => AddIsGood(c, g, r);
      case Flush => FlushIsGood(c, g);
    }
  }

  ghost function AfterOps(c: Config, g: Log, ops: seq<Op>): (h: Log)
    requires GoodLog(c, g) && GoodOps(ops)
    ensures GoodLog(c, h)
    decreases |ops|
  {
    if ops == [] then g
    else
      OpIsGood(c, g, ops[0]);
      AfterOps(c, AfterOp(c, g, ops[0]), ops[1..])
  }

  /** Whatever is added and flushed, in whatever order, the log holds exactly the records
      added, in order. */
  lemma {:induction false} OpsKeepContents(c: Config, g: Log, ops: seq<Op>)
    requires GoodLog(c, g) && GoodOps(ops)
    ensures Contents(AfterOps(c, g, ops)) == Contents(g) + Added(ops)
    decreases |ops|
  {
    hide GoodLog, AfterOp, Contents, OpRecords;
    if ops == [] {
      assert Contents(g) + [] == Contents(g);
    } else {
      OpIsGood(c, g, ops[0]);
      var h := AfterOp(c, g, ops[0]);
      OpsKeepContents(c, h, ops[1..]);
      calc {
        Contents(AfterOps(c, g, ops));
        Contents(AfterOps(c, h, ops[1..]));
        Contents(h) + Added(ops[1..]);
        Contents(g) + OpRecords(ops[0]) + Added(ops[1..]);
        { Associative(Contents(g), OpRecords(ops[0]), Added(ops[1..])); }
        Contents(g) + (OpRecords(ops[0]) + Added(ops[1..]));
        Contents(g) + Added(ops);
      }
    }
  }

  /** The file body: the laid-out frames, and the filler already written when an array has
      been started in a new block. */
  ghost function Body(c: Config, g: Log): Bytes
    requires GoodLog(c, g)
  {
    Layout(c.blockSize, 0, Frames(c, AllFrames(g.units)))
    + (if g.pending == [] then [] else Filler(c.blockSize, Offset(c, g.units)))
  }

  /** A 32-bit sum of the entry size and the array header is exact if and only if the record
      is no longer than MAX_RECORD: beyond it AddRecord would take the array branch. */
  lemma SizeArithmeticIsExact(size: Uint32)
    ensures var total := (|EncodeVarint(size)| + size) % TWO32;
            (total == |EncodeVarint(size)| + size
             && (total + ARRAY_HEADER_SIZE) % TWO32 == total + ARRAY_HEADER_SIZE)
            <==> size <= MAX_RECORD
  {
    VarintWidth(size);
    if size >= 0x1000_0000 { FiveBytes(size); }
  }
}
