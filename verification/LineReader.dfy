/** LineReader::Next (file/filesource.cc): lines from a source that hands out the stream in
    pieces of any size, whatever falls on the boundaries. */
module LineReading {
  import opened Lines
  import opened Wrappers

  /** Any source: Peek shows some non-empty part of what is left, a different one each time if
      it likes, and nothing only at the end.  StringSource and BufferredSource are sources. */
  class Source {
    var rest: Text

    constructor (stream: Text)
      ensures rest == stream
    {
      rest := stream;
    }

    method Peek() returns (s: Text)
      ensures s <= rest && (s == [] <==> rest == [])
    {
      if rest == [] { return []; }
      var n :| 1 <= n <= |rest|;
      s := rest[..n];
    }

    method Skip(n: nat)
      requires n <= |rest|
      modifies this
      ensures rest == old(rest)[n..]
    {
      rest := rest[n..];
    }
  }

  /** The search for CR or LF in one piece. */
  method FindEol(s: Text) returns (eol: nat)
    ensures eol == Eol(s)
  {
    eol := 0;
    while eol < |s| && s[eol] != CR && s[eol] != LF
      invariant eol <= |s| && forall i :: 0 <= i < eol ==> !IsEol(s[i])
    {
      eol := eol + 1;
    }
    EolIs(s, eol);
  }

  predicate Plain(s: Text) {
    forall i :: 0 <= i < |s| ==> !IsEol(s[i])
  }

  /** begun is the part of the first line of the text that has been taken already. */
  predicate OnLine(text: Text, begun: Text, left: Text) {
    text == begun + left && Plain(begun)
  }

  lemma StartLine(text: Text)
    ensures OnLine(text, [], text)
    ensures Eol([]) == 0 && Terminator([]) == 0 && AfterLine([]) == []
  {
  }

  lemma TakePiece(text: Text, begun: Text, left: Text, s: Text)
    requires OnLine(text, begun, left) && s <= left && Plain(s)
    ensures OnLine(text, begun + s, left[|s|..])
  {
  }

  lemma EndLine(text: Text, begun: Text, left: Text)
    requires OnLine(text, begun, left)
    ensures text[..Eol(text)] == begun + left[..Eol(left)]
    ensures Terminator(text) == Terminator(left) && AfterLine(text) == AfterLine(left)
    ensures left == [] ==> text == begun == text[..Eol(text)]
    ensures left != [] ==> text != []
  {
    EolIs(begun + left, |begun| + Eol(left));
    assert begun + [] == begun;
  }

  /** What a piece says about the first line of the text it begins. */
  lemma PieceOfLine(left: Text, s: Text)
    requires s <= left && s != []
    ensures Eol(s) < |s| ==> Eol(left) == Eol(s) && left[..Eol(left)] == s[..Eol(s)] && Terminator(left) > 0
    ensures Eol(s) == |s| ==> Plain(s)
  {
    if Eol(s) < |s| {
      EolIs(left, Eol(s));
    }
  }

  /** Skipping a line and its terminator, as far as the piece shows it. */
  lemma SkipOfLine(left: Text, s: Text, skip: nat)
    requires s <= left && Eol(s) < |s|
    requires skip == Eol(s) + if s[Eol(s)] == CR && Eol(s) + 1 < |s| && s[Eol(s) + 1] == LF then 2 else 1
    ensures var cut := s[Eol(s)] == CR && Eol(s) + 1 == |s|;
            AfterLine(left)
            == if cut && left[skip..] != [] && left[skip..][0] == LF then left[skip..][1..] else left[skip..]
  {
    hide Eol;
    var e := Eol(s);
    EolIs(left, e);
    assert left[e] == s[e];
    if e + 1 < |s| {
      assert left[e + 1] == s[e + 1];
    } else if skip < |left| {
      assert left[skip..][0] == left[skip] && left[skip..][1..] == left[skip + 1..];
    }
  }

  class LineReader {
    const source: Source
    var lineNum: nat
    var ignoreNewlineAtBegin: bool

    constructor (source: Source)
      ensures this.source == source && lineNum == 0 && !ignoreNewlineAtBegin
    {
      this.source := source;
      lineNum, ignoreNewlineAtBegin := 0, false;
    }

    /** What is left of the text: the LF of a CR LF whose CR has been taken is not. */
    function Left(): Text
      reads this, source
    {
      if ignoreNewlineAtBegin && source.rest != [] && source.rest[0] == LF then source.rest[1..] else source.rest
    }

    /** If the last line ended with the CR of its piece, an LF at the start of piece s belongs
        to it. */
    method SkipLeftover(s: Text) returns (skipped: bool)
      requires s <= source.rest && s != []
      modifies this, source
      ensures Left() == old(Left()) == source.rest && lineNum == old(lineNum) && !ignoreNewlineAtBegin
      ensures skipped ==> |source.rest| < old(|source.rest|)
      ensures !skipped ==> source.rest == old(source.rest)
    {
      skipped := false;
      if ignoreNewlineAtBegin {
        ignoreNewlineAtBegin := false;
        if s[0] == LF {
          source.Skip(1);
          skipped := true;
        }
      }
    }

    /** The end of Next: skip the line at the start of piece s, and its terminator. */
    method SkipLine(s: Text, eol: nat)
      requires s <= source.rest && eol == Eol(s) < |s| && !ignoreNewlineAtBegin
      modifies this, source
      ensures Left() == AfterLine(old(source.rest)) && lineNum == old(lineNum) + 1
    {
      hide Eol, AfterLine;
      var skip := eol + 1;
      if s[eol] == CR {
        if eol + 1 == |s| {
          ignoreNewlineAtBegin := true;
        } else if s[eol + 1] == LF {
          skip := skip + 1;
        }
      }
      SkipOfLine(source.rest, s, skip);
      source.Skip(skip);
      lineNum := lineNum + 1;
    }

    /** The body of the loop in Next, for a piece that is not empty. */
    method TakeFrom(s: Text, begun: Text, ghost text: Text) returns (done: bool, result: Text)
      requires s <= source.rest && s != [] && !ignoreNewlineAtBegin && OnLine(text, begun, source.rest)
      modifies this, source
      ensures done ==> result == text[..Eol(text)] && Left() == AfterLine(text) && Terminator(text) > 0
      ensures !done ==> OnLine(text, result, Left()) && |source.rest| < old(|source.rest|)
      ensures !done ==> result != [] && !ignoreNewlineAtBegin
      ensures lineNum == old(lineNum) + if done then 1 else 0
    {
      hide Eol, Terminator, AfterLine, Plain, OnLine;
      var eol := FindEol(s);
      PieceOfLine(source.rest, s);
      if eol != |s| {
        EndLine(text, begun, source.rest);
        result := begun + s[..eol];
        SkipLine(s, eol);
        done := true;
      } else {
        TakePiece(text, begun, source.rest, s);
        result := begun + s;
        source.Skip(|s|);
        done := false;
      }
    }

    /** Next: the next line, or false at the end of the text.  Only terminated lines are numbered. */
    method Next() returns (ok: bool, result: Text)
      modifies this, source
      ensures ok <==> old(Left()) != []
      ensures ok ==> result == old(Left())[..Eol(old(Left()))] && Left() == AfterLine(old(Left()))
      ensures !ok ==> result == [] && Left() == []
      ensures lineNum == old(lineNum) + if Terminator(old(Left())) > 0 then 1 else 0
    {
      hide Eol, Terminator, AfterLine, Plain, OnLine;
      ghost var text := Left();
      StartLine(text);
      result := [];
      while true
        invariant OnLine(text, result, Left()) && lineNum == old(lineNum)
        invariant result != [] ==> !ignoreNewlineAtBegin
        decreases |source.rest|
      {
        EndLine(text, result, Left());
        var s := source.Peek();
        if s == [] {
          return result != [], result;
        }
        var skipped := SkipLeftover(s);
        if skipped { continue; }
        ok, result := TakeFrom(s, result, text);
        if ok { return; }
      }
    }
  }

  lemma SplitStep(s: Text)
    ensures Split(s) == if s == [] then [] else [s[..Eol(s)]] + Split(AfterLine(s))
  {
  }

  /** Reading until Next returns false yields the lines of the stream, however it was cut. */
  method ReadLines(stream: Text) returns (lines: seq<Text>)
    ensures lines == Split(stream)
  {
    hide Split, Eol, Terminator, AfterLine;
    var source := new Source(stream);
    var reader := new LineReader(source);
    lines := [];
    var more := true;
    assert [] + Split(stream) == Split(stream);
    while more
      invariant reader.source == source && fresh(reader) && fresh(source)
      invariant lines + Split(reader.Left()) == Split(stream)
      invariant !more ==> reader.Left() == []
      decreases |reader.Left()|, more
    {
      SplitStep(reader.Left());
      var line;
      more, line := reader.Next();
      if more {
        Associative(lines, [line], Split(reader.Left()));
        lines := lines + [line];
      }
    }
    SplitStep([]);
    assert lines + [] == lines;
  }
}
