/** Text as lines: what a line is, shared by the line reader and the line-ending cleanup. */
module Lines {

  type Text = seq<bv8>

  const LF: bv8 := 10
  const CR: bv8 := 13

  predicate IsEol(c: bv8) {
    c == LF || c == CR
  }

  /** The length of the first line, without its terminator. */
  function Eol(s: Text): (n: nat)
    ensures n <= |s| && (forall i :: 0 <= i < n ==> !IsEol(s[i])) && (n < |s| ==> IsEol(s[n]))
  {
    if s == [] || IsEol(s[0]) then 0 else Eol(s[1..]) + 1
  }

  /** The bytes of its terminator: LF, CR, CR LF, or none at the end of the text. */
  function Terminator(s: Text): (n: nat)
    ensures Eol(s) + n <= |s| && (s != [] ==> Eol(s) + n > 0)
  {
    var e := Eol(s);
    if e == |s| then 0 else if s[e] == CR && e + 1 < |s| && s[e + 1] == LF then 2 else 1
  }

  function AfterLine(s: Text): (rest: Text)
    ensures s != [] ==> |rest| < |s|
  {
    s[Eol(s) + Terminator(s)..]
  }

  /** The lines of a text: every terminated one, and a final non-empty unterminated one. */
  function Split(s: Text): (ls: seq<Text>)
    decreases |s|
  {
    if s == [] then [] else [s[..Eol(s)]] + Split(AfterLine(s))
  }

  /** The only first line is the one that fits the definition. */
  lemma {:induction false} EolIs(s: Text, n: nat)
    requires n <= |s| && (forall i :: 0 <= i < n ==> !IsEol(s[i])) && (n < |s| ==> IsEol(s[n]))
    ensures Eol(s) == n
    decreases n
  {
    if n > 0 {
      EolIs(s[1..], n - 1);
    }
  }

  function Joined(ls: seq<Text>): Text {
    if ls == [] then [] else ls[0] + [LF] + Joined(ls[1..])
  }

  predicate GoodLines(ls: seq<Text>) {
    forall i, j :: 0 <= i < |ls| && 0 <= j < |ls[i]| ==> !IsEol(ls[i][j])
  }

  /** Lines with LF after each of them are split into the same lines. */
  lemma {:induction false} SplitOfJoined(ls: seq<Text>)
    requires GoodLines(ls)
    ensures Split(Joined(ls)) == ls
    decreases |ls|
  {
    hide GoodLines, Eol, Terminator, AfterLine;
    if ls != [] {
      FirstIsGood(ls);
      HeadOfJoined(ls[0], Joined(ls[1..]));
      SplitOfJoined(ls[1..]);
    }
  }

  lemma FirstIsGood(ls: seq<Text>)
    requires GoodLines(ls) && ls != []
    ensures GoodLines(ls[1..]) && forall i :: 0 <= i < |ls[0]| ==> !IsEol(ls[0][i])
  {
  }

  lemma HeadOfJoined(line: Text, more: Text)
    requires forall i :: 0 <= i < |line| ==> !IsEol(line[i])
    ensures var s := line + [LF] + more; s != [] && s[..Eol(s)] == line && AfterLine(s) == more
  {
    var s := line + [LF] + more;
    assert s[|line|] == LF;
    EolIs(s, |line|);
    assert s[..|line|] == line && s[|line| + 1..] == more;
  }

  /** A line ended in any of the three ways is the first line, whatever follows; an LF after a CR
      belongs to it. */
  lemma SplitOfTerminated(line: Text, end: Text, more: Text)
    requires forall i :: 0 <= i < |line| ==> line[i] != 10 && line[i] != 13
    requires end == [10] || end == [13, 10] || (end == [13] && (more == [] || more[0] != 10))
    ensures Split(line + end + more) == [line] + Split(more)
  {
    var s := line + end + more;
    assert s[|line|] == end[0] && (|line| + 1 < |s| ==> s[|line| + 1] == (end + more)[1]);
    EolIs(s, |line|);
    assert s[..|line|] == line && s[|line| + |end|..] == more;
    assert Terminator(s) == |end|;
  }

  /** What is left without an end is a line too, unless it is empty. */
  lemma SplitOfRest(line: Text)
    requires forall i :: 0 <= i < |line| ==> line[i] != 10 && line[i] != 13
    ensures Split(line) == if line == [] then [] else [line]
  {
    EolIs(line, |line|);
    assert line[..|line|] == line && line[|line|..] == [];
  }

  lemma {:induction false} SplitIsGood(s: Text)
    ensures GoodLines(Split(s))
    decreases |s|
  {
    if s != [] {
      SplitIsGood(AfterLine(s));
    }
  }
}
