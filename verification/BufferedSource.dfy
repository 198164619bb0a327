/** Buffered reading (util/sinksource.cc, util/sinksource.h, file/filesource.cc): a window of
    unread bytes that moves through a fixed buffer and is refilled from a file. */
module Buffering {
  import opened Lines

  lemma SlicesJoin(s: Text, i: nat, j: nat, k: nat)
    requires i <= j <= k <= |s|
    ensures s[i..k] == s[i..j] + s[j..k]
  {
  }

  lemma SlicesPrefix(s: Text, i: nat, j: nat)
    requires i <= j <= |s|
    ensures s[i..j] == s[i..][..j - i]
  {
  }

  lemma SlicesSuffix(s: Text, i: nat, j: nat, n: nat)
    requires i + n <= j <= |s|
    ensures s[i..j][n..] == s[i + n..j] && s[i..][n..] == s[i + n..]
  {
  }

  const TWO32: nat := 0x1_0000_0000

  class FileSource {
    const file: Text
    const buffer: array<bv8>
    var peekPos: nat
    var availPeek: nat
    var eof: bool
    var offset: nat
    /** How many bytes of the stream have been skipped. */
    ghost var skipped: nat

    /** The unread bytes in the buffer end where the file has been read up to; an exhausted
        window is back at the start. */
    ghost predicate Window()
      reads `peekPos, `availPeek, `offset, `skipped, buffer
    {
      && 0 < buffer.Length < TWO32 && peekPos + availPeek <= buffer.Length
      && offset == skipped + availPeek <= |file|
      && buffer[peekPos..peekPos + availPeek] == file[skipped..offset]
      && (availPeek == 0 ==> peekPos == 0)
    }

    /** And end of file is only noted at the end. */
    ghost predicate Valid()
      reads this, buffer
    {
      Window() && (eof ==> offset == |file|)
    }

    /** What is still to be read. */
    ghost function Rest(): Text
      requires skipped <= |file|
      reads this
    {
      file[skipped..]
    }

    constructor (file: Text, bufferSize: nat)
      requires 0 < bufferSize < TWO32
      ensures Valid() && fresh(buffer) && this.file == file && buffer.Length == bufferSize && skipped == 0 && !eof
      ensures availPeek == 0
    {
      this.file := file;
      buffer := new bv8[bufferSize];
      peekPos, availPeek, eof, offset, skipped := 0, 0, false, 0, 0;
    }

    predicate IsPeekable(minimal: nat)
      reads this
    {
      eof || (availPeek >= minimal && availPeek != 0)
    }

    function AvailableToRefill(): nat
      requires peekPos + availPeek <= buffer.Length
      reads this
    {
      buffer.Length - (peekPos + availPeek)
    }

    /** Skip: the caller must have peeked at what it skips. */
    method Skip(count: nat)
      requires Valid() && count <= availPeek
      modifies this
      ensures Valid() && skipped == old(skipped) + count && Rest() == old(Rest())[count..]
      ensures availPeek == old(availPeek) - count && eof == old(eof) && offset == old(offset)
      ensures peekPos == if availPeek == 0 then 0 else old(peekPos) + count
    {
      ghost var window := buffer[peekPos..peekPos + availPeek];
      SlicesSuffix(file, skipped, offset, count);
      assert buffer[peekPos + count..peekPos + availPeek] == window[count..];
      availPeek := availPeek - count;
      peekPos := peekPos + count;
      skipped := skipped + count;
      if availPeek == 0 {
        peekPos := 0;
      }
    }

    /** Source::RefillInternal: read as much as fits behind the unread bytes; a short read is
        the end of the file. */
    method RefillInternal() returns (end: bool)
      requires Valid() && !eof
      modifies `availPeek, `offset, buffer
      ensures Valid() && (end ==> offset == |file|)
      ensures end <==> old(AvailableToRefill()) > |file| - old(offset)
      ensures availPeek == old(availPeek) + Shorter(old(AvailableToRefill()), |file| - old(offset))
    {
      var refill := AvailableToRefill();
      var n := Shorter(refill, |file| - offset);
      ReadInto(peekPos + availPeek, n);
      availPeek := availPeek + n;
      offset := offset + n;
      end := n < refill;
    }

    /** The read itself: n more bytes of the file, placed behind the unread ones. */
    method ReadInto(at: nat, n: nat)
      requires peekPos <= at && at + n <= buffer.Length && offset + n <= |file| && skipped <= offset
      requires buffer[peekPos..at] == file[skipped..offset]
      modifies buffer
      ensures buffer[peekPos..at + n] == file[skipped..offset + n]
    {
      ghost var was := buffer[peekPos..at];
      forall k | 0 <= k < n {
        buffer[at + k] := file[offset + k];
      }
      assert buffer[peekPos..at] == was;
      assert buffer[at..at + n] == file[offset..offset + n];
      assert buffer[peekPos..at + n] == buffer[peekPos..at] + buffer[at..at + n];
      SlicesJoin(file, skipped, offset, offset + n);
    }

    /** The 32-bit sum by which Refill decides whether to move the unread bytes is cut off. */
    predicate SumWraps(minimal: nat)
      reads this
    {
      peekPos + availPeek + minimal >= TWO32
    }

    /** Refill: if the unread bytes leave too little room they first move to the start of the
        buffer.  overlap tells that they did not fit before their old place, which the code
        logs as an error. */
    method Refill(minimal: nat) returns (overlap: bool)
      requires Valid() && !IsPeekable(minimal) && minimal < buffer.Length
      modifies this, buffer
      ensures Valid() && skipped == old(skipped) && |Rest()| == |old(Rest())|
      ensures var moves := buffer.Length < old(peekPos) + old(availPeek) + minimal && !old(SumWraps(minimal));
              && peekPos == (if moves || availPeek == 0 then 0 else old(peekPos))
              && (overlap <==> moves && old(availPeek) > old(peekPos))
      ensures var room := buffer.Length - peekPos - old(availPeek);
              && availPeek == old(availPeek) + Shorter(room, |file| - old(offset))
              && (eof <==> room > |file| - old(offset))
      ensures !eof ==> availPeek > 0 && (availPeek >= minimal || old(SumWraps(minimal)))
      ensures 3 * minimal <= buffer.Length ==> !overlap
    {
      hide Window;
      Bounds();
      overlap := false;
      if buffer.Length < (peekPos + availPeek + minimal) % TWO32 {
        overlap := availPeek > peekPos;
        MoveToStart();
        Bounds();
      }
      eof := RefillInternal();
      Bounds();
    }

    /** The numbers in it. */
    lemma Bounds()
      requires Window()
      ensures 0 < buffer.Length < TWO32 && peekPos + availPeek <= buffer.Length
      ensures offset == skipped + availPeek <= |file|
      ensures availPeek == 0 ==> peekPos == 0
    {
    }

    /** memcpy, or memmove if the two places overlap. */
    method MoveToStart()
      requires Valid()
      modifies `peekPos, buffer
      ensures Valid() && peekPos == 0
    {
      ghost var window := buffer[peekPos..peekPos + availPeek];
      forall k | 0 <= k < availPeek {
        buffer[k] := buffer[peekPos + k];
      }
      peekPos := 0;
      assert buffer[0..availPeek] == window;
    }

    /** Peek will find less than minimal bytes and the file not at its end: the unread bytes had to
        move, but the sum that tells so wrapped. */
    predicate Starves(minimal: nat)
      requires Valid()
      reads this, buffer
    {
      && !IsPeekable(minimal) && SumWraps(minimal) && buffer.Length < peekPos + minimal
      && buffer.Length - peekPos - availPeek <= |file| - offset
    }

    /** No buffer of at most 2^31 bytes starves; a larger one can, as soon as its window starts
        behind the room that minimal bytes need. */
    lemma StarvesOnlyIfHuge(minimal: nat)
      requires Valid() && minimal < buffer.Length
      ensures Starves(minimal) ==> buffer.Length > 0x8000_0000
    {
    }

    /** What Peek does before it shows its window. */
    method MakePeekable(minimal: nat) returns (checked: bool)
      requires Valid() && minimal < buffer.Length
      modifies this, buffer
      ensures Valid() && skipped == old(skipped)
      ensures checked <==> !old(Starves(minimal))
      ensures checked <==> availPeek >= minimal || eof
      ensures availPeek == 0 ==> skipped == |file|
      ensures old(IsPeekable(minimal)) ==> unchanged(this)
      ensures old(availPeek) == 0 && !old(eof) ==>
                peekPos == 0 && availPeek == Shorter(buffer.Length, |file| - skipped)
                && (eof <==> buffer.Length > |file| - skipped)
    {
      hide Window;
      Bounds();
      checked := true;
      if !IsPeekable(minimal) {
        var _ := Refill(minimal);
        Bounds();
        checked := eof || availPeek >= minimal;
      }
    }

    /** Peek: a prefix of the rest of the stream, empty exactly at the end, and at least minimal
        bytes of it unless the stream ends before.  The CHECK_GE of the code fails exactly if the
        source starves; checked tells that it holds. */
    method Peek(minimal: nat) returns (checked: bool, window: Text)
      requires Valid() && minimal < buffer.Length
      modifies this, buffer
      ensures Valid() && skipped == old(skipped) && Rest() == old(Rest())
      ensures window <= Rest() && |window| == availPeek
      ensures window == [] <==> Rest() == []
      ensures checked <==> !old(Starves(minimal))
      ensures checked <==> |window| >= minimal || eof
      ensures eof ==> window == Rest()
      ensures old(IsPeekable(minimal)) ==> unchanged(this)
      ensures old(availPeek) == 0 && !old(eof) ==>
                peekPos == 0 && availPeek == Shorter(buffer.Length, |old(Rest())|)
                && (eof <==> buffer.Length > |old(Rest())|)
    {
      hide Window, Starves;
      checked := MakePeekable(minimal);
      Bounds();
      window := buffer[peekPos..peekPos + availPeek];
      WindowIsPrefix();
    }

    lemma WindowIsPrefix()
      requires Window()
      ensures peekPos + availPeek <= buffer.Length && skipped <= |file|
      ensures buffer[peekPos..peekPos + availPeek] <= Rest()
      ensures |Rest()| == availPeek + (|file| - offset)
    {
      SlicesPrefix(file, skipped, offset);
    }
  }

  /** And this is how one starves: 3 * 2^30 bytes of buffer, filled by the first Peek; a Skip that
      leaves 2^31 - 1 of them behind the first third; and a Peek at one byte more than those. */
  method Starve(file: Text) returns (checked: bool)
    requires |file| >= 0xc000_0000
    ensures !checked
  {
    hide FileSource.Window;
    var s := new FileSource(file, 0xc000_0000);
    s.Bounds();
    var _, _ := s.Peek(1);
    s.Bounds();
    s.Skip(0x4000_0001);
    s.Bounds();
    var window;
    checked, window := s.Peek(0x8000_0000);
  }

  /** StringSource: a string handed out in blocks, counted from wherever it has been skipped to.
      It shows nothing before the end only if the block size is zero. */
  class StringSource {
    var input: Text
    const blockSize: nat

    constructor (input: Text, blockSize: nat)
      ensures this.input == input && this.blockSize == blockSize
    {
      this.input, this.blockSize := input, blockSize;
    }

    method Peek() returns (window: Text)
      ensures window <= input && |window| <= blockSize
      ensures window == [] <==> input == [] || blockSize == 0
      ensures |window| == blockSize || window == input
    {
      window := input[..Shorter(blockSize, |input|)];
    }

    method Skip(n: nat)
      requires n <= |input|
      modifies this
      ensures input == old(input)[n..]
    {
      input := input[n..];
    }
  }

  function Shorter(x: nat, y: nat): nat {
    if x < y then x else y
  }
}
