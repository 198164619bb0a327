/** How frames are laid out in fixed-size blocks: a frame never straddles a block, and a
    block with no room for a header and one byte more is filled up with zeroes. */
module Blocks {
  import opened Wrappers
  import opened Coding

  const HEADER_SIZE: nat := 9

  function Zeros(n: nat): (z: Bytes)
    ensures |z| == n
  {
    seq(n, _ => 0)
  }

  /** Where the next frame starts when the current block of b bytes is filled up to off. */
  function StartAt(b: nat, off: nat): (s: nat)
    requires off <= b
    ensures s <= off
  {
    if b - off <= HEADER_SIZE then 0 else off
  }

  /** The zero filler that precedes it. */
  function Filler(b: nat, off: nat): (z: Bytes)
    requires off <= b
    ensures |z| == if b - off <= HEADER_SIZE then b - off else 0
  {
    if b - off <= HEADER_SIZE then Zeros(b - off) else []
  }

  /** No frame straddles a block when they are written from offset off of one. */
  ghost predicate Fits(b: nat, off: nat, fs: seq<Bytes>)
    decreases |fs|
  {
    && off <= b
    && (fs == [] ||
        (&& HEADER_SIZE <= |fs[0]|
         && StartAt(b, off) + |fs[0]| <= b
         && Fits(b, StartAt(b, off) + |fs[0]|, fs[1..])))
  }

  /** The bytes of a run of frames written from offset off of a block. */
  function Layout(b: nat, off: nat, fs: seq<Bytes>): Bytes
    requires Fits(b, off, fs)
    decreases |fs|
  {
    if fs == [] then [] else Filler(b, off) + fs[0] + Layout(b, StartAt(b, off) + |fs[0]|, fs[1..])
  }

  /** The offset in its block at which the run ends. */
  function EndOf(b: nat, off: nat, fs: seq<Bytes>): (e: nat)
    requires Fits(b, off, fs)
    ensures e <= b
    decreases |fs|
  {
    if fs == [] then off else EndOf(b, StartAt(b, off) + |fs[0]|, fs[1..])
  }

  lemma {:induction false} LayoutConcat(b: nat, off: nat, fs: seq<Bytes>, gs: seq<Bytes>)
    requires Fits(b, off, fs) && Fits(b, EndOf(b, off, fs), gs)
    ensures Fits(b, off, fs + gs)
    ensures Layout(b, off, fs + gs) == Layout(b, off, fs) + Layout(b, EndOf(b, off, fs), gs)
    ensures EndOf(b, off, fs + gs) == EndOf(b, EndOf(b, off, fs), gs)
    decreases |fs|
  {
    if fs == [] {
      assert fs + gs == gs;
    } else {
      assert (fs + gs)[0] == fs[0] && (fs + gs)[1..] == fs[1..] + gs;
      var next := StartAt(b, off) + |fs[0]|;
      LayoutConcat(b, next, fs[1..], gs);
      Associative(Filler(b, off) + fs[0], Layout(b, next, fs[1..]), Layout(b, EndOf(b, off, fs), gs));
    }
  }

  lemma {:induction false} FitsSplit(b: nat, off: nat, fs: seq<Bytes>, gs: seq<Bytes>)
    requires Fits(b, off, fs + gs)
    ensures Fits(b, off, fs) && Fits(b, EndOf(b, off, fs), gs)
    decreases |fs|
  {
    if fs == [] {
      assert fs + gs == gs;
    } else {
      assert (fs + gs)[0] == fs[0] && (fs + gs)[1..] == fs[1..] + gs;
      FitsSplit(b, StartAt(b, off) + |fs[0]|, fs[1..], gs);
    }
  }

  /** One more frame at the end of a run. */
  lemma LayoutSnoc(b: nat, off: nat, fs: seq<Bytes>, f: Bytes)
    requires Fits(b, off, fs) && HEADER_SIZE <= |f|
    requires StartAt(b, EndOf(b, off, fs)) + |f| <= b
    ensures Fits(b, off, fs + [f])
    ensures Layout(b, off, fs + [f]) == Layout(b, off, fs) + Filler(b, EndOf(b, off, fs)) + f
    ensures EndOf(b, off, fs + [f]) == StartAt(b, EndOf(b, off, fs)) + |f|
  {
    var e := EndOf(b, off, fs);
    assert [f][1..] == [];
    assert Fits(b, e, [f]);
    LayoutConcat(b, off, fs, [f]);
    assert Layout(b, e, [f]) == Filler(b, e) + f + [];
    assert Layout(b, off, fs + [f]) == Layout(b, off, fs) + (Filler(b, e) + f);
  }

  /** The bytes written so far are some number of whole blocks and the current offset. */
  lemma {:induction false} LayoutSize(b: nat, off: nat, fs: seq<Bytes>) returns (k: nat)
    requires Fits(b, off, fs)
    ensures off + |Layout(b, off, fs)| == k * b + EndOf(b, off, fs)
    decreases |fs|
  {
    if fs == [] {
      k := 0;
    } else {
      var next := StartAt(b, off) + |fs[0]|;
      var rest := LayoutSize(b, next, fs[1..]);
      var l := |Layout(b, next, fs[1..])|;
      assert |Layout(b, off, fs)| == |Filler(b, off)| + |fs[0]| + l;
      k := if b - off <= HEADER_SIZE then rest + 1 else rest;
      assert (rest + 1) * b == rest * b + b;
    }
  }

  /** A non-empty run is a filler, a frame and a run. */
  lemma LayoutFirst(b: nat, off: nat, fs: seq<Bytes>)
    requires Fits(b, off, fs) && fs != []
    ensures Fits(b, StartAt(b, off) + |fs[0]|, fs[1..])
    ensures HEADER_SIZE <= |fs[0]| && off <= b && StartAt(b, off) + |fs[0]| <= b
    ensures Layout(b, off, fs) == Filler(b, off) + (fs[0] + Layout(b, StartAt(b, off) + |fs[0]|, fs[1..]))
    ensures EndOf(b, off, fs) == EndOf(b, StartAt(b, off) + |fs[0]|, fs[1..])
  {
    Associative(Filler(b, off), fs[0], Layout(b, StartAt(b, off) + |fs[0]|, fs[1..]));
  }

  lemma FitsFirst(b: nat, off: nat, fs: seq<Bytes>)
    ensures fs != [] ==>
              (Fits(b, off, fs) <==>
               && off <= b && HEADER_SIZE <= |fs[0]| && StartAt(b, off) + |fs[0]| <= b
               && Fits(b, StartAt(b, off) + |fs[0]|, fs[1..]))
  {
  }

  lemma FitsBelow(b: nat, off: nat, fs: seq<Bytes>)
    requires Fits(b, off, fs)
    ensures off <= b
  {
  }

  /** Passing over the filler first changes nothing. */
  lemma StartAligned(b: nat, off: nat, fs: seq<Bytes>)
    requires Fits(b, off, fs) && b > HEADER_SIZE
    ensures Fits(b, StartAt(b, off), fs)
    ensures fs != [] ==> Layout(b, off, fs) == Filler(b, off) + Layout(b, StartAt(b, off), fs)
  {
    hide Layout, Fits, EndOf, Filler;
    if b - off > HEADER_SIZE {
      NothingBefore(Layout(b, off, fs));
      NoFiller(b, off);
    } else if fs == [] {
      FitsNothing(b, 0);
    } else {
      FitsFirst(b, off, fs);
      FitsFirst(b, 0, fs);
      LayoutFirst(b, off, fs);
      LayoutFirst(b, 0, fs);
      NoFiller(b, 0);
      NothingBefore(fs[0] + Layout(b, |fs[0]|, fs[1..]));
    }
  }

  lemma NoFiller(b: nat, off: nat)
    requires off <= b && b - off > HEADER_SIZE
    ensures StartAt(b, off) == off && Filler(b, off) == []
  {
  }

  lemma FitsNothing(b: nat, off: nat)
    requires off <= b
    ensures Fits(b, off, [])
  {
  }

  lemma NothingBefore(x: Bytes)
    ensures [] + x == x
  {
  }

  /** A run splits at any frame; the second part starts after its filler. */
  lemma SplitAt(b: nat, fs: seq<Bytes>, d: nat)
    requires Fits(b, 0, fs) && d <= |fs| && b > HEADER_SIZE
    ensures Fits(b, 0, fs[..d]) && Fits(b, EndOf(b, 0, fs[..d]), fs[d..])
    ensures Fits(b, StartAt(b, EndOf(b, 0, fs[..d])), fs[d..])
    ensures Layout(b, 0, fs) == Layout(b, 0, fs[..d]) + Layout(b, EndOf(b, 0, fs[..d]), fs[d..])
    ensures d < |fs| ==>
              Layout(b, 0, fs) == Layout(b, 0, fs[..d]) + Filler(b, EndOf(b, 0, fs[..d]))
                                  + Layout(b, StartAt(b, EndOf(b, 0, fs[..d])), fs[d..])
  {
    assert fs == fs[..d] + fs[d..];
    hide Layout, Fits, Filler;
    FitsSplit(b, 0, fs[..d], fs[d..]);
    LayoutConcat(b, 0, fs[..d], fs[d..]);
    var end := EndOf(b, 0, fs[..d]);
    StartAligned(b, end, fs[d..]);
    if d < |fs| {
      Associative(Layout(b, 0, fs[..d]), Filler(b, end), Layout(b, StartAt(b, end), fs[d..]));
    }
  }

  lemma PrefixGrows(x: Bytes, y: Bytes, z: Bytes)
    ensures x + y <= x + (y + z)
  {
  }

  /** More frames only append, starting with the filler. */
  lemma LayoutGrows(b: nat, fs: seq<Bytes>, gs: seq<Bytes>)
    requires Fits(b, 0, fs) && Fits(b, EndOf(b, 0, fs), gs) && gs != []
    ensures Fits(b, 0, fs + gs)
    ensures Layout(b, 0, fs) + Filler(b, EndOf(b, 0, fs)) <= Layout(b, 0, fs + gs)
  {
    hide Layout, Fits, Filler;
    var off := EndOf(b, 0, fs);
    LayoutConcat(b, 0, fs, gs);
    LayoutFirst(b, off, gs);
    PrefixGrows(Layout(b, 0, fs), Filler(b, off), gs[0] + Layout(b, StartAt(b, off) + |gs[0]|, gs[1..]));
  }

  // ---- The geometry of one block ---------------------------------------------------

  /** How much of s belongs to the block that is already filled up to off. */
  function Cut(b: nat, off: nat, s: Bytes): (k: nat)
    requires off <= b
    ensures k <= |s|
  {
    if b - off <= |s| then b - off else |s|
  }

  /** How many of the frames share the block that is already filled up to off. */
  function InBlock(b: nat, off: nat, fs: seq<Bytes>): (n: nat)
    requires Fits(b, off, fs)
    ensures n <= |fs|
    decreases |fs|
  {
    if fs == [] || b - off <= HEADER_SIZE then 0
    else 1 + InBlock(b, off + |fs[0]|, fs[1..])
  }

  lemma DropAfter<T>(s: seq<T>, i: nat, j: nat)
    requires i + j <= |s|
    ensures s[i..][j..] == s[i + j..]
  {
  }

  lemma CutStep(b: nat, off: nat, x: Bytes, u: Bytes)
    requires off + |x| <= b
    ensures (x + u)[Cut(b, off, x + u)..] == u[Cut(b, off + |x|, u)..]
  {
  }

  lemma InBlockFirst(b: nat, off: nat, fs: seq<Bytes>)
    requires Fits(b, off, fs) && fs != [] && b - off > HEADER_SIZE
    ensures Fits(b, off + |fs[0]|, fs[1..]) && off + |fs[0]| <= b
    ensures InBlock(b, off, fs) == 1 + InBlock(b, off + |fs[0]|, fs[1..])
    ensures Layout(b, off, fs) == fs[0] + Layout(b, off + |fs[0]|, fs[1..])
  {
    assert Filler(b, off) + fs[0] == fs[0];
  }

  lemma InBlockNone(b: nat, off: nat, fs: seq<Bytes>)
    requires Fits(b, off, fs) && b > HEADER_SIZE && (fs == [] || b - off <= HEADER_SIZE)
    ensures Fits(b, 0, fs) && fs[0..] == fs && InBlock(b, off, fs) == 0
    ensures Layout(b, off, fs)[Cut(b, off, Layout(b, off, fs))..] == Layout(b, 0, fs)
  {
    if fs != [] {
      StartAligned(b, off, fs);
    }
  }

  /** The frames of later blocks are exactly the bytes after this block. */
  lemma {:induction false} BytesAfterBlock(b: nat, off: nat, fs: seq<Bytes>)
    requires Fits(b, off, fs) && b > HEADER_SIZE
    ensures Fits(b, 0, fs[InBlock(b, off, fs)..])
    ensures Layout(b, off, fs)[Cut(b, off, Layout(b, off, fs))..]
            == Layout(b, 0, fs[InBlock(b, off, fs)..])
    decreases |fs|
  {
    hide Layout, Fits, InBlock, Cut, Filler;
    if fs == [] || b - off <= HEADER_SIZE {
      InBlockNone(b, off, fs);
    } else {
      var next := off + |fs[0]|;
      InBlockFirst(b, off, fs);
      CutStep(b, off, fs[0], Layout(b, next, fs[1..]));
      DropAfter(fs, 1, InBlock(b, next, fs[1..]));
      BytesAfterBlock(b, next, fs[1..]);
    }
  }

  /** A valid frame number in a file body made of these frames. */
  ghost predicate FrameIn(b: nat, fs: seq<Bytes>, d: nat) {
    Fits(b, 0, fs) && d < |fs| && b > HEADER_SIZE
  }

  /** Where frame d starts in the body. */
  ghost function FramePos(b: nat, fs: seq<Bytes>, d: nat): nat
    requires FrameIn(b, fs, d)
  {
    SplitAt(b, fs, d);
    |Layout(b, 0, fs[..d])| + |Filler(b, EndOf(b, 0, fs[..d]))|
  }

  /** The offset in its block at which frame d starts. */
  ghost function FrameOffset(b: nat, fs: seq<Bytes>, d: nat): (off: nat)
    requires FrameIn(b, fs, d)
    ensures off + HEADER_SIZE < b && Fits(b, off, fs[d..])
  {
    SplitAt(b, fs, d);
    StartAt(b, EndOf(b, 0, fs[..d]))
  }

  /** The first frame after d that lies in a later block. */
  ghost function NextBlockFrame(b: nat, fs: seq<Bytes>, d: nat): (e: nat)
    requires FrameIn(b, fs, d)
    ensures d < e <= |fs|
  {
    d + InBlock(b, FrameOffset(b, fs, d), fs[d..])
  }

  /** How many bytes of the body lie in the block of frame d from its first byte on. */
  ghost function TailSize(b: nat, fs: seq<Bytes>, d: nat): nat
    requires FrameIn(b, fs, d)
  {
    Cut(b, FrameOffset(b, fs, d), Layout(b, FrameOffset(b, fs, d), fs[d..]))
  }

  /** The body with the bytes from frame d to the end of its block replaced by tail. */
  ghost function Damaged(b: nat, fs: seq<Bytes>, d: nat, tail: Bytes): Bytes
    requires FrameIn(b, fs, d) && |tail| == TailSize(b, fs, d)
  {
    DamagedParts(b, fs, d);
    var body, pos := Layout(b, 0, fs), FramePos(b, fs, d);
    body[..pos] + tail + body[pos + |tail|..]
  }

  lemma CutAfter(x: Bytes, s: Bytes, k: nat)
    requires k <= |s|
    ensures (x + s)[..|x|] == x && (x + s)[|x| + k..] == s[k..]
  {
  }

  lemma CutIsWhole(b: nat, off: nat, s: Bytes)
    requires off <= b
    ensures off + Cut(b, off, s) == b || (off + Cut(b, off, s) <= b && s[Cut(b, off, s)..] == [])
  {
  }

  /** The body around the damage: whole frames before it, whole frames of later blocks after. */
  lemma DamagedParts(b: nat, fs: seq<Bytes>, d: nat)
    requires FrameIn(b, fs, d)
    ensures var body, pos, n := Layout(b, 0, fs), FramePos(b, fs, d), TailSize(b, fs, d);
            var e, off := NextBlockFrame(b, fs, d), FrameOffset(b, fs, d);
            && Fits(b, 0, fs[..d]) && Fits(b, 0, fs[e..])
            && pos + n <= |body|
            && off == StartAt(b, EndOf(b, 0, fs[..d]))
            && body[..pos] == Layout(b, 0, fs[..d]) + Filler(b, EndOf(b, 0, fs[..d]))
            && body[pos + n..] == Layout(b, 0, fs[e..])
            && (off + n == b || (off + n <= b && body[pos + n..] == []))
  {
    hide Layout, Fits, EndOf, Filler, InBlock, Cut, StartAt;
    var off := FrameOffset(b, fs, d);
    SplitAt(b, fs, d);
    BytesAfterBlock(b, off, fs[d..]);
    DropAfter(fs, d, InBlock(b, off, fs[d..]));
    var before := Layout(b, 0, fs[..d]) + Filler(b, EndOf(b, 0, fs[..d]));
    var s := Layout(b, off, fs[d..]);
    CutAfter(before, s, Cut(b, off, s));
    CutIsWhole(b, off, s);
  }
}
