/** ListReader (file/list_file_reader.cc): reads blocks, checks and unpacks physical records,
    and puts logical records together again. */
module ListReading {
  import opened Wrappers
  import opened Coding
  import opened Blocks
  import opened ListFormat
  import opened Physical
  import opened Logical
  import opened ListFile
  import FileHeader
  import Checksum

  class ListReader {
    const file: Bytes
    const checksum: bool
    const codecs: Codecs

    var blockSize: nat
    var fileOffset: nat
    var eof: bool
    var blockBuffer: Bytes
    var arrayRecords: nat
    var arrayStore: Bytes
    var meta: FileHeader.Meta
    /** What the corruption reporter was called with. */
    var reports: seq<Drop>
    /** A read outside a buffer or a failed CHECK: the source promises nothing from here on. */
    var crashed: bool

    function Config(): ReaderConfig
      reads this
    {
      ReaderConfig(blockSize, checksum, codecs)
    }

    ghost predicate Valid()
      reads this
    {
      && fileOffset <= |file|
      && (blockSize > 0 && !crashed ==> Open())
      && (blockSize == 0 ==> arrayRecords == 0 && arrayStore == [] && blockBuffer == [])
    }

    /** The file after what has been read into the block buffer. */
    function Rest(): Bytes
      requires fileOffset <= |file|
      reads this
    {
      if eof then [] else file[fileOffset..]
    }

    constructor (file: Bytes, checksum: bool, codecs: Codecs)
      ensures this.file == file && this.checksum == checksum && this.codecs == codecs
      ensures Valid() && blockSize == 0 && !eof && reports == [] && !crashed
    {
      this.file, this.checksum, this.codecs := file, checksum, codecs;
      blockSize, fileOffset, eof, blockBuffer := 0, 0, false, [];
      arrayRecords, arrayStore, meta, reports, crashed := 0, [], map[], [], false;
    }

    /** Reading has begun; an exhausted file is flagged as soon as its last block is read. */
    ghost predicate Open()
      reads this
    {
      blockSize > 0 && fileOffset <= |file| && (!eof && fileOffset == |file| ==> blockBuffer == [])
    }

    /** ReadonlyFile::Read of the next block, or of what is left of the file. */
    method ReadBlock()
      requires Open() && !eof && |blockBuffer| < HEADER_SIZE
      modifies `blockBuffer, `fileOffset, `eof
      ensures Open()
      ensures var k := BlockCut(Config(), old(Rest()));
              blockBuffer == old(Rest())[..k] && Rest() == old(Rest())[k..]
      ensures old(Rest()) == [] ==> eof
    {
      var length := if fileOffset + blockSize <= |file| then blockSize else |file| - fileOffset;
      blockBuffer := file[fileOffset..fileOffset + length];
      fileOffset := fileOffset + length;
      if fileOffset >= |file| { eof := true; }
    }

    /** ListReader::Uncompress. */
    method Uncompress(data: Bytes) returns (r: Option<Bytes>)
      requires data != []
      ensures r == Physical.Uncompress(Config(), data)
    {
      var scheme := data[0];
      if !codecs.Has(scheme) { return None; }
      r := codecs.Get(scheme).uncompress(data[1..]);
      if r.Some? && |r.value| > blockSize { r := None; }
    }

    /** The part of ReadPhysicalRecord that has a header to look at; again means that it was
        nine blank bytes and the loop goes round. */
    method TakeRecord() returns (again: bool, code: nat, result: Bytes)
      requires |blockBuffer| >= HEADER_SIZE && !crashed
      modifies `blockBuffer, `reports, `crashed
      ensures var o := FetchHead(Config(), old(blockBuffer), []);
              if o == None then again && !crashed && reports == old(reports) && blockBuffer == []
              else if o.value.ev.OutOfBounds? then !again && crashed && reports == old(reports)
              else
                && !again && !crashed && reports == old(reports) + o.value.ev.drops
                && code == o.value.ev.code && result == o.value.ev.payload && blockBuffer == o.value.buf
    {
      hide Checksum.Matches, DecodeFixed32;
      again, code, result := false, BAD, [];
      var kind, length := blockBuffer[8], DecodeFixed32(blockBuffer[4..8]);
      if length == 0 && kind == ZERO_TYPE {
        again := |blockBuffer| == HEADER_SIZE;
        blockBuffer := [];
        return;
      }
      if (length + HEADER_SIZE) % TWO32 > |blockBuffer| {
        reports := reports + [Drop(|blockBuffer|, BadLength)];
        blockBuffer := [];
        return;
      }
      var count := (1 + length) % TWO32;
      if checksum && 8 + count > |blockBuffer| {
        crashed := true;
        return;
      }
      if checksum && !Checksum.Matches(DecodeFixed32(blockBuffer), blockBuffer[8..8 + count]) {
        reports := reports + [Drop(|blockBuffer|, ChecksumMismatch)];
        blockBuffer := [];
        return;
      }
      if length + HEADER_SIZE > |blockBuffer| {
        crashed := true;
        return;
      }
      var data := blockBuffer[HEADER_SIZE..HEADER_SIZE + length];
      blockBuffer := blockBuffer[HEADER_SIZE + length..];
      if kind / 16 % 2 == 0 {
        code, result := kind % 16, data;
        return;
      }
      if length == 0 {
        if blockBuffer != [] && !codecs.Has(blockBuffer[0]) {
          reports := reports + [Drop(HEADER_SIZE, UncompressFailed)];
        } else {
          crashed := true;
        }
        return;
      }
      var unpacked := Uncompress(data);
      if unpacked == None {
        reports := reports + [Drop(HEADER_SIZE + length, UncompressFailed)];
      } else {
        code, result := kind % 16, unpacked.value;
      }
    }

    /** ReadPhysicalRecord: exactly one Fetch from what was unread. */
    method ReadPhysicalRecord() returns (code: nat, result: Bytes)
      requires Open() && !crashed
      modifies `blockBuffer, `fileOffset, `eof, `reports, `crashed
      ensures fileOffset <= |file| && (!crashed ==> Open())
      ensures var f := Fetch(Config(), old(blockBuffer), old(Rest()));
              if f.ev.OutOfBounds? then crashed && reports == old(reports)
              else
                && !crashed && reports == old(reports) + f.ev.drops
                && code == f.ev.code && result == f.ev.payload
                && blockBuffer == f.buf && Rest() == f.rest
    {
      hide ParseHead, Accept;
      while true
        invariant Open() && !crashed && reports == old(reports)
        invariant Fetch(Config(), blockBuffer, Rest()) == Fetch(Config(), old(blockBuffer), old(Rest()))
        decreases |Rest()|, !eof, |blockBuffer|
      {
        if |blockBuffer| < HEADER_SIZE {
          if !eof {
            ReadBlock();
            continue;
          }
          if blockBuffer != [] { reports := reports + [Drop(|blockBuffer|, TruncatedRecord)]; }
          blockBuffer := [];
          return EOF, [];
        }
        HeadIgnoresRest(Config(), blockBuffer, Rest());
        var again;
        again, code, result := TakeRecord();
        if !again { return; }
      }
    }

    static lemma HeadIgnoresRest(c: ReaderConfig, buf: Bytes, rest: Bytes)
      requires |buf| >= HEADER_SIZE && c.blockSize > 0
      ensures var o, p := FetchHead(c, buf, []), FetchHead(c, buf, rest);
              (o == None <==> p == None)
              && (o.Some? ==> p.value.ev == o.value.ev
                              && (!o.value.ev.OutOfBounds? ==> p.value.buf == o.value.buf && p.value.rest == rest))
      ensures FetchHead(c, buf, rest).Some? ==> Fetch(c, buf, rest) == FetchHead(c, buf, rest).value
      ensures FetchHead(c, buf, rest) == None ==> Fetch(c, buf, rest) == Fetch(c, [], rest)
    {
      hide ParseHead, Accept;
    }

    /** Everything a client will observe from here on; before the header is read, the trace of
        the whole file. */
    ghost function Remaining(): seq<Obs>
      requires Valid() && !crashed
      reads this
    {
      if blockSize == 0 then (if eof then [] else Trace(codecs, checksum, file))
      else Run(arrayRecords, arrayStore, None, Events(Config(), blockBuffer, Rest()))
    }

    /** ReadHeader: parse the file header once. */
    method ReadHeader() returns (ok: bool)
      requires Valid() && !crashed
      modifies `blockSize, `fileOffset, `eof, `meta, `reports, `crashed
      ensures Valid()
      ensures old(blockSize) > 0 ==> ok && !crashed && Remaining() == old(Remaining()) && reports == old(reports)
                                     && blockSize == old(blockSize) && meta == old(meta)
      ensures crashed ==> old(Remaining()) == [Crash] && !ok && reports == old(reports)
      ensures ok ==> !crashed && blockSize > 0 && reports == old(reports) && Remaining() == old(Remaining())
      ensures ok && old(blockSize) == 0 ==>
                var h := FileHeader.ParseHeader(file); h.Header? && meta == h.meta
      ensures !ok && !crashed && !old(eof) ==> FileHeader.ParseHeader(file).Rejected?
      ensures !ok && !crashed ==> blockSize == 0 && eof && Remaining() == []
                                  && exists ds :: reports == old(reports) + ds && old(Remaining()) == Reports(ds)
    {
      hide Events, Run, FileHeader.ParseHeader;
      if blockSize != 0 { return true; }
      if eof {
        assert reports == old(reports) + [] && Reports([]) == [];
        return false;
      }
      match FileHeader.ParseHeader(file) {
        case Rejected =>
          reports := reports + [Drop(|file|, InvalidHeader)];
          eof := true;
          assert Reports([Drop(|file|, InvalidHeader)]) == Report(|file|, InvalidHeader);
          return false;
        case Aborted =>
          crashed := true;
          return false;
        case Header(offset, multiplier, m) =>
          if multiplier == 0 || offset > |file| {
            crashed := true;
            return false;
          }
          fileOffset, meta := offset, m;
          blockSize := BLOCK_SIZE_FACTOR * multiplier;
          return true;
      }
    }

    /** What the switch in ReadRecord makes of one physical event. */
    static lemma PopEvent(c: ReaderConfig, store: Bytes, frag: Option<Bytes>, buf: Bytes, rest: Bytes)
      requires c.blockSize > 0 && (buf != [] || rest != [])
      ensures var f := Fetch(c, buf, rest);
              Run(0, store, frag, Events(c, buf, rest))
              == if f.ev.OutOfBounds? then [Crash]
                 else Reports(f.ev.drops) + Dispatch(frag, f.ev.code, f.ev.payload, Events(c, f.buf, f.rest))
    {
      hide Dispatch, Fetch;
      var f := Fetch(c, buf, rest);
      var es := Events(c, buf, rest);
      assert es[0] == f.ev;
      if !f.ev.OutOfBounds? { assert es[1..] == Events(c, f.buf, f.rest); }
    }

    static lemma PopNothing(c: ReaderConfig, store: Bytes, frag: Option<Bytes>)
      requires c.blockSize > 0
      ensures Run(0, store, frag, Events(c, [], [])) == Abandon(frag, PartialWithoutEnd)
      ensures Fetch(c, [], []) == Fetched(Event([], EOF, []), [], [])
    {
    }

    /** The reports made since before are what os says. */
    ghost predicate Reported(before: seq<Drop>, os: seq<Obs>)
      reads `reports
    {
      |before| <= |reports| && before == reports[..|before|] && os == Reports(reports[|before|..])
    }

    method ReportCorruption(bytes: nat, reason: Reason, ghost before: seq<Drop>, ghost os: seq<Obs>)
      requires Reported(before, os)
      modifies `reports
      ensures reports == old(reports) + [Drop(bytes, reason)]
      ensures Reported(before, os + Report(bytes, reason))
    {
      reports := reports + [Drop(bytes, reason)];
      assert reports[|before|..] == old(reports)[|before|..] + [Drop(bytes, reason)];
    }

    static lemma ReportedMore(before: seq<Drop>, now: seq<Drop>, ds: seq<Drop>)
      requires |before| <= |now| && before == now[..|before|]
      ensures (now + ds)[..|before|] == before
      ensures Reports((now + ds)[|before|..]) == Reports(now[|before|..]) + Reports(ds)
    {
    }

    /** The reader is between two physical reads of ReadRecord: all is what was to be observed
        when the call began, os what was reported since, frag the record in the making. */
    ghost predicate Midway(all: seq<Obs>, before: seq<Drop>, os: seq<Obs>, frag: Option<Bytes>)
      reads this
    {
      && Valid() && !crashed && blockSize > 0 && Reported(before, os)
      && all == os + Run(arrayRecords, arrayStore, frag, Events(Config(), blockBuffer, Rest()))
    }

    /** The array step of ReadRecord. */
    method NextItem(ghost all: seq<Obs>, ghost before: seq<Drop>, ghost os: seq<Obs>, ghost frag: Option<Bytes>)
        returns (found: bool, record: Bytes, ghost os': seq<Obs>)
      requires Midway(all, before, os, frag) && arrayRecords > 0
      modifies `arrayRecords, `arrayStore, `reports
      ensures found ==> Valid() && !crashed && Reported(before, os) && all == os + [Got(record)] + Remaining()
      ensures !found ==> Midway(all, before, os', frag) && arrayRecords == 0
    {
      hide Events, Dispatch, ParseVarint, Switch;
      found, record, os' := true, [], os;
      ghost var es := Events(Config(), blockBuffer, Rest());
      var p := ParseVarint(arrayStore);
      if p == None || p.value.width + p.value.value > |arrayStore| {
        ReportCorruption(|arrayStore|, InvalidArray, before, os);
        os' := os + Report(|arrayStore|, InvalidArray);
        Associative(os, Report(|arrayStore|, InvalidArray), Run(0, [], frag, es));
        assert Run(0, [], frag, es) == Run(0, arrayStore, frag, es);
        arrayRecords, found := 0, false;
      } else {
        record := arrayStore[p.value.width..p.value.width + p.value.value];
        Associative(os, [Got(record)], Run(arrayRecords - 1, arrayStore[p.value.width + p.value.value..], None, es));
        arrayStore := arrayStore[p.value.width + p.value.value..];
        arrayRecords := arrayRecords - 1;
      }
    }

    /** One physical read in the middle of ReadRecord. */
    method NextEvent(ghost all: seq<Obs>, ghost before: seq<Drop>, ghost os: seq<Obs>, ghost frag: Option<Bytes>)
        returns (code: nat, fragment: Bytes, ghost os': seq<Obs>)
      requires Midway(all, before, os, frag) && arrayRecords == 0
      modifies `blockBuffer, `fileOffset, `eof, `reports, `crashed
      ensures Valid() && Reported(before, os')
      ensures crashed ==> all == os' + [Crash]
      ensures !crashed ==>
                || all == os' + Dispatch(frag, code, fragment, Events(Config(), blockBuffer, Rest()))
                || (all == os' + Abandon(frag, PartialWithoutEnd) && code == EOF && Remaining() == [])
      ensures !crashed && code != EOF ==>
                |blockBuffer| + |Rest()| < old(|blockBuffer| + |Rest()|)
      ensures blockSize == old(blockSize)
    {
      hide Run, Dispatch, Fetch;
      ghost var c, buf, rest := Config(), blockBuffer, Rest();
      ghost var f := Fetch(c, buf, rest);
      code, fragment := ReadPhysicalRecord();
      if buf == [] && rest == [] {
        PopNothing(c, arrayStore, frag);
        PopNothing(c, arrayStore, None);
        os' := os;
        assert reports == old(reports) + [] == old(reports);
      } else {
        PopEvent(c, arrayStore, frag, buf, rest);
        if crashed {
          os' := os;
        } else {
          os' := os + Reports(f.ev.drops);
          ReportedMore(before, old(reports), f.ev.drops);
          Associative(os, Reports(f.ev.drops), Dispatch(frag, code, fragment, Events(c, f.buf, f.rest)));
        }
      }
    }

    /** The switch in ReadRecord on what a physical read returned, other than end of file. */
    method TakeTurn(code: nat, fragment: Bytes, inFragment: bool, scratch: Bytes,
                    ghost before: seq<Drop>, ghost os: seq<Obs>)
        returns (inFragment': bool, scratch': Bytes, found: bool, record: Bytes, ghost os': seq<Obs>)
      requires code != EOF && arrayRecords == 0 && Reported(before, os)
      modifies `arrayRecords, `arrayStore, `reports
      ensures Reported(before, os')
      ensures var t := Switch(if inFragment then Some(scratch) else None, code, fragment);
              && os' + (if found then [Got(record)] else []) == os + t.said
              && arrayRecords == t.n && (t.n > 0 ==> arrayStore == t.store)
              && t.frag == (if inFragment' then Some(scratch') else None)
              && (found ==> t.n == 0 && t.frag == None)
    {
      hide Reported;
      found, record, os' := false, [], os;
      inFragment', scratch' := inFragment, scratch;
      ghost var p1, p2 := Report(|scratch|, PartialWithoutEnd), Report(|fragment|, InvalidArray);
      Associative(os, p1, p1);
      Associative(os, p1, p2);
      assert os + [] == os && [] + p2 == p2;
      if code == FULL as nat {
        if !inFragment {
          found, record := true, fragment;
        } else {
          // The source has no break here: a second report, and the record starts a new fragment.
          ReportCorruption(|scratch|, PartialWithoutEnd, before, os');
          os' := os' + Report(|scratch|, PartialWithoutEnd);
          ReportCorruption(|scratch|, PartialWithoutEnd, before, os');
          os' := os' + Report(|scratch|, PartialWithoutEnd);
          inFragment', scratch' := true, fragment;
        }
      } else if code == FIRST as nat {
        if inFragment {
          ReportCorruption(|scratch|, PartialWithoutEnd, before, os');
          os' := os' + Report(|scratch|, PartialWithoutEnd);
        }
        inFragment', scratch' := true, fragment;
      } else if code == MIDDLE as nat {
        if !inFragment {
          ReportCorruption(|fragment|, MissingStart, before, os');
          os' := os' + Report(|fragment|, MissingStart);
        } else {
          scratch' := scratch + fragment;
        }
      } else if code == LAST as nat {
        if !inFragment {
          ReportCorruption(|fragment|, MissingStart, before, os');
          os' := os' + Report(|fragment|, MissingStart);
        } else {
          found, record := true, scratch + fragment;
          inFragment', scratch' := false, [];
        }
      } else if code == ARRAY as nat {
        if inFragment {
          ReportCorruption(|scratch|, PartialWithoutEnd, before, os');
          os' := os' + Report(|scratch|, PartialWithoutEnd);
        }
        var p := ParseVarint(fragment);
        if p == None || p.value.value == 0 {
          ReportCorruption(|fragment|, InvalidArray, before, os');
          os' := os' + Report(|fragment|, InvalidArray);
        } else {
          arrayRecords := p.value.value;
          arrayStore := fragment[p.value.width..];
        }
      } else if code == BAD {
        if inFragment {
          ReportCorruption(|scratch|, ErrorInMiddle, before, os');
          os' := os' + Report(|scratch|, ErrorInMiddle);
          inFragment', scratch' := false, [];
        }
      } else {
        var size := |fragment| + (if inFragment then |scratch| else 0);
        ReportCorruption(size, UnknownType, before, os');
        os' := os' + Report(size, UnknownType);
        inFragment', scratch' := false, [];
      }
      assert os' + [] == os';
    }

    /** After a turn of the switch the rest of the trace is what the new state denotes. */
    static lemma AfterTurn(os: seq<Obs>, os': seq<Obs>, got: seq<Obs>, frag: Option<Bytes>, code: nat,
                           payload: Bytes, store: Bytes, es: seq<Event>)
      requires os' + got == os + Switch(frag, code, payload).said
      requires Switch(frag, code, payload).n > 0 ==> store == Switch(frag, code, payload).store
      ensures var t := Switch(frag, code, payload);
              os + Dispatch(frag, code, payload, es) == os' + got + Run(t.n, store, t.frag, es)
    {
      hide Switch;
      var t := Switch(frag, code, payload);
      assert Run(t.n, t.store, t.frag, es) == Run(t.n, store, t.frag, es);
      Associative(os, t.said, Run(t.n, store, t.frag, es));
    }

    /** End of file inside the switch: the fragment is reported and the call returns false. */
    static lemma AtEof(os: seq<Obs>, frag: Option<Bytes>, payload: Bytes, store: Bytes, es: seq<Event>)
      ensures os + Dispatch(frag, EOF, payload, es)
              == os + Abandon(frag, PartialWithoutEnd) + [End] + Run(0, store, None, es)
    {
      var a, z := Abandon(frag, PartialWithoutEnd), Run(0, store, None, es);
      assert Run(0, [], None, es) == z;
      assert Dispatch(frag, EOF, payload, es) == a + [End] + z;
      assert os + (a + [End] + z) == os + a + [End] + z;
    }

    /** The rest of a turn of the loop, with no array entry left: one physical read and the switch. */
    method TakeEvent(inFragment0: bool, scratch0: Bytes, ghost all: seq<Obs>, ghost before: seq<Drop>,
                     ghost os0: seq<Obs>)
        returns (done: bool, ok: bool, record: Bytes, inFragment: bool, scratch: Bytes, ghost os: seq<Obs>)
      requires Midway(all, before, os0, if inFragment0 then Some(scratch0) else None) && arrayRecords == 0
      modifies this
      ensures Valid() && Reported(before, os)
      ensures done ==> Outcome(all, os, ok, record)
      ensures !done ==> Midway(all, before, os, if inFragment then Some(scratch) else None)
      ensures !done ==> |blockBuffer| + |Rest()| < old(|blockBuffer| + |Rest()|)
    {
      hide Run, Events, Dispatch, Trace, FileHeader.ParseHeader, Switch;
      inFragment, scratch := inFragment0, scratch0;
      ghost var frag := if inFragment then Some(scratch) else None;
      var code, fragment;
      code, fragment, os := NextEvent(all, before, os0, frag);
      if crashed { return true, false, [], inFragment, scratch, os; }
      ghost var es, said := Events(Config(), blockBuffer, Rest()), os;
      if code == EOF {
        if inFragment {
          ReportCorruption(|scratch|, PartialWithoutEnd, before, os);
          os := os + Report(|scratch|, PartialWithoutEnd);
        }
        AtEof(said, frag, fragment, arrayStore, es);
        assert said + [] == said;
        return true, false, [], inFragment, scratch, os;
      }
      inFragment, scratch, ok, record, os := TakeTurn(code, fragment, inFragment, scratch, before, os);
      AfterTurn(said, os, if ok then [Got(record)] else [], frag, code, fragment, arrayStore, es);
      assert os + [] == os;
      done := ok;
    }

    /** The loop of ReadRecord. */
    method ReadLoop() returns (ok: bool, record: Bytes)
      requires Valid() && !crashed && blockSize > 0
      modifies this
      ensures Valid() && |old(reports)| <= |reports| && old(reports) == reports[..|old(reports)|]
      ensures Outcome(old(Remaining()), Reports(reports[|old(reports)|..]), ok, record)
    {
      hide Run, Events, Dispatch, Trace, FileHeader.ParseHeader, Switch;
      ghost var before, all, os: seq<Obs> := reports, Remaining(), [];
      assert reports[|before|..] == [] && [] + all == all;
      var inFragment, scratch: Bytes := false, [];
      while true
        invariant Midway(all, before, os, if inFragment then Some(scratch) else None)
        decreases |blockBuffer| + |Rest()|, arrayRecords
      {
        ghost var frag := if inFragment then Some(scratch) else None;
        if arrayRecords > 0 {
          ok, record, os := NextItem(all, before, os, frag);
          if ok { return; }
        }
        var done;
        done, ok, record, inFragment, scratch, os := TakeEvent(inFragment, scratch, all, before, os);
        if done { return; }
      }
    }

    /** How one call of ReadRecord accounts for what was to be observed: said is what it
        reported; then comes the record, or the end, or the crash, and then what remains. */
    ghost predicate Outcome(all: seq<Obs>, said: seq<Obs>, ok: bool, record: Bytes)
      requires Valid()
      reads this
    {
      if crashed then !ok && all == said + [Crash]
      else if ok then all == said + [Got(record)] + Remaining()
      else (all == said && Remaining() == []) || all == said + [End] + Remaining()
    }

    /** ReadRecord: the next record, after whatever reports precede it; or false at an
        end-of-file event or when nothing is left. */
    method ReadRecord() returns (ok: bool, record: Bytes)
      requires Valid() && !crashed
      modifies this
      ensures Valid() && |old(reports)| <= |reports| && old(reports) == reports[..|old(reports)|]
      ensures Outcome(old(Remaining()), Reports(reports[|old(reports)|..]), ok, record)
    {
      hide Run, Events, Dispatch, Trace, FileHeader.ParseHeader, Switch;
      ok, record := false, [];
      var headerRead := ReadHeader();
      if headerRead {
        ok, record := ReadLoop();
      } else {
        ghost var said := reports[|old(reports)|..];
        assert crashed ==> said == [] && Reports(said) + [Crash] == [Crash];
        if !crashed {
          ghost var ds :| reports == old(reports) + ds && old(Remaining()) == Reports(ds);
          assert said == ds;
        }
      }
    }

    /** GetMetaData. */
    method GetMetaData() returns (ok: bool, m: FileHeader.Meta)
      requires Valid() && !crashed
      modifies this
      ensures Valid()
      ensures ok ==> !crashed && m == meta && Remaining() == old(Remaining()) && reports == old(reports)
      ensures ok && old(blockSize) == 0 ==>
                FileHeader.ParseHeader(file).Header? && m == FileHeader.ParseHeader(file).meta
      ensures !ok ==> Records(old(Remaining())) == []
      ensures !ok && !old(eof) ==> (crashed && old(Remaining()) == [Crash]) || FileHeader.ParseHeader(file).Rejected?
    {
      hide FileHeader.ParseHeader, Run, Events;
      ok := ReadHeader();
      m := meta;
      if !ok && !crashed {
        ghost var ds :| reports == old(reports) + ds && old(Remaining()) == Reports(ds);
        RecordsAfterReports(Reports(ds), []);
        assert Reports(ds) + [] == Reports(ds);
      }
    }
  }

  lemma RecordsOfOutcome(said: seq<Obs>, record: Bytes, more: seq<Obs>)
    requires OnlyReports(said)
    ensures Records(said) == [] && Records(said + [Crash]) == [] && Records(said + [End] + more) == []
    ensures Records(said + [Got(record)] + more) == [record] + Records(more)
  {
    RecordsAfterReports(said, []);
    assert said + [] == said;
    RecordsAfterReports(said, [Crash]);
    Associative(said, [End], more);
    RecordsAfterReports(said, [End] + more);
    Associative(said, [Got(record)], more);
    RecordsAfterReports(said, [Got(record)] + more);
    assert ([Got(record)] + more)[1..] == more;
  }

  lemma ReportsOnly(ds: seq<Drop>)
    ensures OnlyReports(Reports(ds))
  {
  }

  /** What one call of ReadRecord means for a client that collects the records. */
  lemma OutcomeStep(r: ListReader, all: seq<Obs>, said: seq<Obs>, ok: bool, record: Bytes)
    requires r.Valid() && OnlyReports(said) && r.Outcome(all, said, ok, record)
    ensures ok ==> !r.crashed && Records(all) == [record] + Records(r.Remaining()) && |r.Remaining()| < |all|
    ensures !ok ==> Records(all) == []
    ensures all == Gots(Records(all)) ==>
              said == [] && !r.crashed && (ok ==> r.Remaining() == Gots(Records(r.Remaining())))
  {
    hide Run, Events, Trace, FileHeader.ParseHeader, Records, Gots, ListReader.Valid, ListReader.Remaining, OnlyReports;
    var more := if r.crashed then [] else r.Remaining();
    RecordsOfOutcome(said, record, more);
    if all == Gots(Records(all)) {
      CleanOutcome(all, said, ok, record, more, r.crashed);
    }
  }

  /** A client that reads until ReadRecord returns false gets the records of the trace. */
  method ReadAll(r: ListReader) returns (records: seq<Bytes>)
    requires r.Valid() && !r.crashed
    modifies r
    ensures r.Valid() && records == Records(old(r.Remaining()))
    ensures |old(r.reports)| <= |r.reports|
    ensures old(r.Remaining()) == Gots(records) ==> !r.crashed && r.reports == old(r.reports)
  {
    hide *;
    records := [];
    ghost var all := r.Remaining();
    while true
      invariant r.Valid() && !r.crashed
      invariant Records(all) == records + Records(r.Remaining())
      invariant |old(r.reports)| <= |r.reports|
      invariant all == Gots(Records(all)) ==>
                  r.Remaining() == Gots(Records(r.Remaining())) && r.reports == old(r.reports)
      decreases |r.Remaining()|
    {
      ghost var before, reports := r.Remaining(), r.reports;
      var ok, record := r.ReadRecord();
      ReportsOnly(r.reports[|reports|..]);
      OutcomeStep(r, before, Reports(r.reports[|reports|..]), ok, record);
      if !ok {
        assert records + [] == records;
        return;
      }
      Associative(records, [record], Records(r.Remaining()));
      records := records + [record];
    }
  }

  function Head(os: seq<Obs>): (h: Option<Obs>)
    ensures OnlyReports(os) && os != [] ==> h.Some? && h.value.Dropped?
  {
    if os == [] then None else Some(os[0])
  }

  lemma HeadOfConcat(x: seq<Obs>, y: seq<Obs>)
    ensures Head(x + y) == if x == [] then Head(y) else Head(x)
  {
  }

  lemma HeadOfGots(rs: seq<Bytes>)
    ensures Head(Gots(rs)) == None || Head(Gots(rs)).value.Got?
  {
  }

  /** In a trace of records alone there is nothing to report. */
  lemma CleanOutcome(all: seq<Obs>, said: seq<Obs>, ok: bool, record: Bytes, more: seq<Obs>, crashed: bool)
    requires all == Gots(Records(all)) && OnlyReports(said)
    requires if crashed then !ok && all == said + [Crash]
             else if ok then all == said + [Got(record)] + more
             else (all == said && more == []) || all == said + [End] + more
    ensures said == [] && !crashed
    ensures ok ==> more == Gots(Records(more))
  {
    HeadOfGots(Records(all));
    HeadOfConcat(said, [Crash]);
    HeadOfConcat(said, [Got(record)]);
    HeadOfConcat(said + [Got(record)], more);
    HeadOfConcat(said, [End]);
    HeadOfConcat(said + [End], more);
    if ok {
      assert all == [Got(record)] + more && all[1..] == more;
      assert Records(all) == [record] + Records(more);
      assert Gots(Records(all))[1..] == Gots(Records(more));
    }
  }
}
