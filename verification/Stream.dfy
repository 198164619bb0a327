/** The events the reader meets in laid-out frames: whole, cut short, and damaged. */
module Stream {
  import opened Wrappers
  import opened Coding
  import opened Blocks
  import opened ListFormat
  import opened Physical
  import Checksum

  /** Every record is small enough to be framed in one block. */
  ghost predicate Sized(c: Config, ps: seq<Phys>) {
    forall i :: 0 <= i < |ps| ==> GoodPhys(ps[i]) && HEADER_SIZE + |ps[i].payload| <= c.blockSize
  }

  /** The events of the file contents s that start at offset off of a block. */
  function EventsAt(r: ReaderConfig, off: nat, s: Bytes): seq<Event>
    requires r.blockSize > 0 && off <= r.blockSize
  {
    var k := Cut(r.blockSize, off, s);
    Events(r, s[..k], s[k..])
  }

  /** Moving to the next block, which is what an exhausted or blank buffer does. */
  lemma NextBlock(r: ReaderConfig, buf: Bytes, t: Bytes)
    requires r.blockSize > 0
    requires |buf| < HEADER_SIZE || buf == Zeros(HEADER_SIZE)
    requires t != []
    ensures Events(r, buf, t) == EventsAt(r, 0, t)
  {
    var k := Cut(r.blockSize, 0, t);
    assert k == BlockCut(r, t);
    if |buf| == HEADER_SIZE {
      assert DecodeFixed32(buf[4..8]) == 0;
      assert ParseHead(r, buf) == Blank;
      assert Fetch(r, buf, t) == Fetch(r, [], t);
    }
    assert Fetch(r, [], t) == Fetch(r, t[..k], t[k..]);
    assert t[..k] != [];
  }

  /** The filler at the end of a block is passed over. */
  lemma SkipFiller(r: ReaderConfig, off: nat, t: Bytes)
    requires r.blockSize > 0 && off <= r.blockSize
    requires t != []
    ensures EventsAt(r, off, Filler(r.blockSize, off) + t)
            == EventsAt(r, StartAt(r.blockSize, off), t)
  {
    var b := r.blockSize;
    var s := Filler(b, off) + t;
    if b - off <= HEADER_SIZE {
      assert s[..b - off] == Zeros(b - off) && s[b - off..] == t;
      NextBlock(r, Zeros(b - off), t);
    } else {
      assert s == t;
    }
  }

  /** One written frame, with room for it in the block, is one clean event. */
  lemma EventOfFrame(c: Config, r: ReaderConfig, off: nat, p: Phys, t: Bytes)
    requires Agrees(c, r) && GoodPhys(p) && HEADER_SIZE + |p.payload| <= c.blockSize
    requires off + |Frame(c, p)| <= c.blockSize
    ensures EventsAt(r, off, Frame(c, p) + t)
            == [Event([], p.kind, p.payload)] + EventsAt(r, off + |Frame(c, p)|, t)
  {
    hide Config.StoredForm, RawFrame;
    var f := Frame(c, p);
    var s := f + t;
    var k, k' := Cut(r.blockSize, off, s), Cut(r.blockSize, off + |f|, t);
    assert k == |f| + k';
    assert s[..k] == f + t[..k'] && s[k..] == t[k'..];
    FetchFrame(c, r, p, t[..k'], t[k'..]);
  }

  lemma FramesFirst(c: Config, ps: seq<Phys>)
    requires c.Valid() && Sized(c, ps) && ps != []
    ensures Sized(c, ps[1..]) && GoodPhys(ps[0]) && HEADER_SIZE + |ps[0].payload| <= c.blockSize
    ensures Frames(c, ps) != [] && Frames(c, ps)[0] == Frame(c, ps[0]) && Frames(c, ps)[1..] == Frames(c, ps[1..])
  {
    hide Frame;
  }

  lemma CleanFirst(ps: seq<Phys>)
    requires ps != []
    ensures Clean(ps) == [Event([], ps[0].kind, ps[0].payload)] + Clean(ps[1..])
  {
  }

  /** A run of written frames is read as a run of clean events, whatever follows it. */
  lemma {:induction false} EventsOfRun(c: Config, r: ReaderConfig, off: nat, ps: seq<Phys>, t: Bytes)
    requires Agrees(c, r) && Sized(c, ps) && Fits(c.blockSize, off, Frames(c, ps))
    ensures EventsAt(r, off, Layout(c.blockSize, off, Frames(c, ps)) + t)
            == Clean(ps) + EventsAt(r, EndOf(c.blockSize, off, Frames(c, ps)), t)
    decreases |ps|
  {
    hide Frame, Frames, EventsAt, Layout, Fits, EndOf, Filler, Clean, Codecs.Sound, Codecs.Has;
    ValidAgrees(c, r);
    var b, fs := c.blockSize, Frames(c, ps);
    FitsBelow(b, off, fs);
    if ps == [] {
      RunOfNothing(b, off, t);
    } else {
      FramesFirst(c, ps);
      var start := StartAt(b, off);
      var next := start + |fs[0]|;
      LayoutFirst(b, off, fs);
      CleanFirst(ps);
      var u := Layout(b, next, fs[1..]) + t;
      Associative(Filler(b, off), fs[0] + Layout(b, next, fs[1..]), t);
      Associative(fs[0], Layout(b, next, fs[1..]), t);
      SkipFiller(r, off, fs[0] + u);
      EventOfFrame(c, r, start, ps[0], u);
      EventsOfRun(c, r, next, ps[1..], t);
    }
  }

  lemma RunOfNothing(b: nat, off: nat, t: Bytes)
    requires off <= b
    ensures Fits(b, off, []) && Layout(b, off, []) == [] && [] + t == t && EndOf(b, off, []) == off && Clean([]) == []
  {
  }

  lemma ValidAgrees(c: Config, r: ReaderConfig)
    requires Agrees(c, r)
    ensures c.Valid() && r.blockSize == c.blockSize
  {
  }

  // ---- A file cut short ------------------------------------------------------------

  /** A frame without its end still shows its own head, which is too long for what is left. */
  lemma TornHead(r: ReaderConfig, kind: Byte, data: Bytes, m: nat)
    requires HEADER_SIZE + |data| < TWO32 && kind != ZERO_TYPE
    requires HEADER_SIZE <= m < HEADER_SIZE + |data|
    ensures ParseHead(r, RawFrame(kind, data)[..m]) == TooLong
  {
    hide ParseHead, RawFrame, DecodeFixed32;
    var f := RawFrame(kind, data);
    RawFrameParts(kind, data, []);
    assert f + [] == f;
    HeadOfPrefix(f, m);
    TooLongHead(r, f[..m]);
  }

  lemma TooLongHead(r: ReaderConfig, buf: Bytes)
    requires HEADER_SIZE <= |buf| < HEADER_SIZE + DecodeFixed32(buf[4..8]) < TWO32 && buf[8] != ZERO_TYPE
    ensures ParseHead(r, buf) == TooLong
  {
    hide DecodeFixed32, Checksum.Matches;
  }

  lemma HeadOfPrefix(f: Bytes, m: nat)
    requires HEADER_SIZE <= m <= |f|
    ensures f[..m][4..8] == f[4..8] && f[..m][8] == f[8]
  {
  }

  /** A short or too long rest of a file is a torn end. */
  lemma TornRest(r: ReaderConfig, off: nat, s: Bytes)
    requires r.blockSize > 0 && off + |s| <= r.blockSize
    requires |s| < HEADER_SIZE || ParseHead(r, s) == TooLong
    ensures Torn(EventsAt(r, off, s))
  {
    hide ParseHead;
    var k := Cut(r.blockSize, off, s);
    assert s[..k] == s && s[k..] == [];
    assert Events(r, [], []) == [];
  }

  lemma TornFrame(c: Config, r: ReaderConfig, off: nat, p: Phys, m: nat)
    requires Agrees(c, r) && GoodPhys(p) && HEADER_SIZE + |p.payload| <= c.blockSize
    requires off + |Frame(c, p)| <= c.blockSize && m < |Frame(c, p)|
    ensures Torn(EventsAt(r, off, Frame(c, p)[..m]))
  {
    hide Config.StoredForm, RawFrame, ParseHead, EventsAt, Torn;
    if m >= HEADER_SIZE {
      var (kind, data) := c.StoredForm(p.kind, p.payload);
      TornHead(r, kind, data, m);
    }
    TornRest(r, off, Frame(c, p)[..m]);
  }

  lemma TornFiller(r: ReaderConfig, off: nat, m: nat)
    requires r.blockSize > 0 && off <= r.blockSize && m <= |Filler(r.blockSize, off)|
    ensures Torn(EventsAt(r, off, Filler(r.blockSize, off)[..m]))
  {
    var s := Filler(r.blockSize, off)[..m];
    var k := Cut(r.blockSize, off, s);
    assert s[..k] == s && s[k..] == [];
    assert Events(r, [], []) == [];
    if m == HEADER_SIZE {
      assert s == Zeros(HEADER_SIZE);
      assert DecodeFixed32(s[4..8]) == 0;
      assert ParseHead(r, s) == Blank;
      assert Fetch(r, s, []) == Fetch(r, [], []);
    } else if m > 0 {
      assert Fetch(r, s, []).ev.code == EOF;
    }
  }

  /** The number of frames that end within the first cut bytes. */
  function EndingBy(b: nat, off: nat, fs: seq<Bytes>, cut: nat): (n: nat)
    requires Fits(b, off, fs)
    ensures n <= |fs|
    decreases |fs|
  {
    if fs == [] then 0
    else
      var size := |Filler(b, off)| + |fs[0]|;
      if cut < size then 0 else 1 + EndingBy(b, StartAt(b, off) + |fs[0]|, fs[1..], cut - size)
  }

  lemma {:induction false} AllEndBy(b: nat, off: nat, fs: seq<Bytes>, cut: nat)
    requires Fits(b, off, fs) && |Layout(b, off, fs)| <= cut
    ensures EndingBy(b, off, fs, cut) == |fs|
    decreases |fs|
  {
    if fs != [] {
      AllEndBy(b, StartAt(b, off) + |fs[0]|, fs[1..], cut - |Filler(b, off)| - |fs[0]|);
    }
  }

  /** Cutting a run of frames anywhere leaves the events of the frames that end before the
      cut, and at most one more that carries no record. */
  lemma {:induction false} EventsOfCut(c: Config, r: ReaderConfig, off: nat, ps: seq<Phys>, cut: nat)
      returns (torn: seq<Event>)
    requires Agrees(c, r) && Sized(c, ps) && Fits(c.blockSize, off, Frames(c, ps))
    requires cut <= |Layout(c.blockSize, off, Frames(c, ps))|
    ensures Torn(torn)
    ensures EventsAt(r, off, Layout(c.blockSize, off, Frames(c, ps))[..cut])
            == Clean(ps[..EndingBy(c.blockSize, off, Frames(c, ps), cut)]) + torn
    decreases |ps|
  {
    hide Frame, Frames, EventsAt, Layout, Fits, EndOf, EndingBy, Filler, Clean, Torn, Codecs.Sound, Codecs.Has;
    ValidAgrees(c, r);
    var b, fs := c.blockSize, Frames(c, ps);
    FitsBelow(b, off, fs);
    if ps == [] {
      RunOfNothing(b, off, []);
      EmptyIsTorn(r, off);
      torn := EventsAt(r, off, []);
      assert ps[..0] == [];
      return;
    }
    FramesFirst(c, ps);
    LayoutFirst(b, off, fs);
    var start, fill, f := StartAt(b, off), Filler(b, off), fs[0];
    var after := Layout(b, start + |f|, fs[1..]);
    CutOfThree(fill, f, after, cut);
    EndingFirst(b, off, fs, cut);
    if cut < |fill| + |f| {
      RunOfNothing(b, off, []);
      assert ps[..0] == [];
      if cut <= |fill| {
        TornFiller(r, off, cut);
        torn := EventsAt(r, off, fill[..cut]);
      } else {
        var m := cut - |fill|;
        SkipFiller(r, off, f[..m]);
        TornFrame(c, r, start, ps[0], m);
        torn := EventsAt(r, start, f[..m]);
      }
    } else {
      var more := cut - |fill| - |f|;
      SkipFiller(r, off, f + after[..more]);
      EventOfFrame(c, r, start, ps[0], after[..more]);
      torn := EventsOfCut(c, r, start + |f|, ps[1..], more);
      var n := EndingBy(b, start + |f|, fs[1..], more);
      assert ps[..n + 1][0] == ps[0] && ps[..n + 1][1..] == ps[1..][..n];
      CleanFirst(ps[..n + 1]);
    }
  }

  lemma CutOfThree(x: Bytes, y: Bytes, z: Bytes, cut: nat)
    requires cut <= |x + (y + z)|
    ensures (x + (y + z))[..cut]
            == if cut <= |x| then x[..cut]
               else if cut < |x| + |y| then x + y[..cut - |x|]
               else x + (y + z[..cut - |x| - |y|])
  {
  }

  lemma EndingFirst(b: nat, off: nat, fs: seq<Bytes>, cut: nat)
    requires Fits(b, off, fs) && fs != []
    ensures Fits(b, StartAt(b, off) + |fs[0]|, fs[1..])
    ensures var size := |Filler(b, off)| + |fs[0]|;
            EndingBy(b, off, fs, cut)
            == if cut < size then 0 else 1 + EndingBy(b, StartAt(b, off) + |fs[0]|, fs[1..], cut - size)
  {
  }

  lemma EmptyIsTorn(r: ReaderConfig, off: nat)
    requires r.blockSize > 0 && off <= r.blockSize
    ensures Torn(EventsAt(r, off, []))
  {
  }

  /** What a file ends with is reported, or passed over: fewer than nine bytes are, nine blank ones
      are not, and a longer blank rest is a bad record without a report. */
  lemma RestOfFile(r: ReaderConfig, s: Bytes)
    requires r.blockSize > HEADER_SIZE && 0 < |s| <= r.blockSize
    ensures |s| < 9 ==> Events(r, [], s) == [Event([Drop(|s|, TruncatedRecord)], 6, [])]
    ensures s == Zeros(|s|) && |s| == 9 ==> Events(r, [], s) == [Event([], 6, [])]
    ensures s == Zeros(|s|) && |s| > 9 ==> Events(r, [], s) == [Event([], 7, [])]
  {
    var k := BlockCut(r, s);
    assert k == |s| && s[..k] == s && s[k..] == [];
    assert Fetch(r, [], s) == Fetch(r, s, []);
    assert Events(r, [], []) == [];
    if s == Zeros(|s|) && |s| >= 9 {
      BlankHead(r, s);
      hide ParseHead;
      if |s| == HEADER_SIZE {
        assert Fetch(r, s, []) == Fetch(r, [], []);
      }
    }
  }

  lemma BlankHead(r: ReaderConfig, s: Bytes)
    requires |s| >= HEADER_SIZE && s == Zeros(|s|)
    ensures ParseHead(r, s) == Blank
  {
    assert s[4..8] == [0, 0, 0, 0];
    assert DecodeFixed32(s[4..8]) == 0;
  }

  /** A refused head is reported once, with the size of all that is dropped with it. */
  lemma RefusedIsReported(r: ReaderConfig, block: Bytes, t: Bytes)
    requires r.blockSize > 0 && Refused(r, block) && !ParseHead(r, block).Blank?
    ensures Fetch(r, block, t)
            == var reason := if ParseHead(r, block).TooLong? then BadLength else ChecksumMismatch;
               Fetched(Event([Drop(|block|, reason)], 7, []), [], t)
  {
    hide ParseHead;
  }

  // ---- A damaged block -------------------------------------------------------------

  /** The head of the unread block is refused: a blank header, a length that does not fit, or
      a checksum that does not match. */
  ghost predicate Refused(r: ReaderConfig, block: Bytes) {
    |block| >= HEADER_SIZE && !ParseHead(r, block).Good? && !ParseHead(r, block).Wrapped?
  }

  /** A refused block tail yields one bad-record event, unless nine blank bytes end it. */
  lemma EventsOfRefused(r: ReaderConfig, off: nat, block: Bytes, t: Bytes) returns (bad: seq<Event>)
    requires r.blockSize > HEADER_SIZE && off + HEADER_SIZE < r.blockSize
    requires Refused(r, block)
    requires off + |block| == r.blockSize || (off + |block| <= r.blockSize && t == [])
    ensures EventsAt(r, off, block + t) == bad + EventsAt(r, 0, t)
    ensures (|bad| == 1 && bad[0].Event? && bad[0].code == BAD) || (t == [] && Torn(bad))
  {
    var s := block + t;
    var k := Cut(r.blockSize, off, s);
    assert s[..k] == block && s[k..] == t;
    if ParseHead(r, block).Blank? && |block| == HEADER_SIZE {
      bad := Events(r, block, []);
      assert EventsAt(r, 0, t) == [];
    } else {
      var f := Fetch(r, block, t);
      bad := [f.ev];
      if t != [] { NextBlock(r, [], t); }
    }
  }
}
