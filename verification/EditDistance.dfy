/** EditDistance (strings/util.cc): the table of distances between prefixes, filled row by row,
    against the least number of single-character edits. */
module EditDistance {

  type Text = seq<char>

  // ---- Edits -----------------------------------------------------------------------

  datatype Edit = Insert(at: nat, c: char) | Delete(at: nat) | Change(at: nat, c: char)

  predicate Applies(e: Edit, s: Text) {
    if e.Insert? then e.at <= |s| else e.at < |s|
  }

  function Apply(e: Edit, s: Text): (t: Text)
    requires Applies(e, s)
  {
    match e
    case Insert(k, c) => s[..k] + [c] + s[k..]
    case Delete(k) => s[..k] + s[k + 1..]
    case Change(k, c) => s[k := c]
  }

  /** The script es, applied from left to right, turns s into t. */
  predicate Turns(es: seq<Edit>, s: Text, t: Text) {
    if es == [] then s == t else Applies(es[0], s) && Turns(es[1..], Apply(es[0], s), t)
  }

  function Undo(e: Edit, s: Text): (u: Edit)
    requires Applies(e, s)
  {
    match e
    case Insert(k, c) => Delete(k)
    case Delete(k) => Insert(k, s[k])
    case Change(k, c) => Change(k, s[k])
  }

  lemma UndoUndoes(e: Edit, s: Text)
    requires Applies(e, s)
    ensures Applies(Undo(e, s), Apply(e, s)) && Apply(Undo(e, s), Apply(e, s)) == s
  {
    var t := Apply(e, s);
    match e
    case Insert(k, c) =>
      assert t[..k] == s[..k] && t[k + 1..] == s[k..];
      assert s[..k] + s[k..] == s;
    case Delete(k) =>
      assert t[..k] == s[..k] && t[k..] == s[k + 1..];
      assert s[..k] + [s[k]] + s[k + 1..] == s;
    case Change(k, c) =>
      assert t[k := s[k]] == s;
  }

  lemma {:induction false} TurnsConcat(xs: seq<Edit>, ys: seq<Edit>, s: Text, t: Text, u: Text)
    requires Turns(xs, s, t) && Turns(ys, t, u)
    ensures Turns(xs + ys, s, u)
    decreases |xs|
  {
    hide Apply, Applies;
    if xs == [] {
      assert xs + ys == ys;
    } else {
      assert (xs + ys)[0] == xs[0] && (xs + ys)[1..] == xs[1..] + ys;
      TurnsConcat(xs[1..], ys, Apply(xs[0], s), t, u);
    }
  }

  lemma TurnsThen(es: seq<Edit>, s: Text, t: Text, e: Edit, u: Text)
    requires Turns(es, s, t) && Applies(e, t) && Apply(e, t) == u
    ensures Turns(es + [e], s, u)
  {
    hide Apply, Applies;
    assert Turns([e], t, u);
    TurnsConcat(es, [e], s, t, u);
  }

  lemma {:induction false} TurnsBack(es: seq<Edit>, s: Text, t: Text) returns (bs: seq<Edit>)
    requires Turns(es, s, t)
    ensures Turns(bs, t, s) && |bs| == |es|
    decreases |es|
  {
    if es == [] {
      bs := [];
    } else {
      var s' := Apply(es[0], s);
      bs := TurnsBack(es[1..], s', t);
      UndoUndoes(es[0], s);
      TurnsThen(bs, t, s', Undo(es[0], s), s);
      bs := bs + [Undo(es[0], s)];
    }
  }

  // ---- The distance ----------------------------------------------------------------

  function Least(x: nat, y: nat): nat {
    if x < y then x else y
  }

  function Front(s: Text): Text
    requires s != []
  {
    s[..|s| - 1]
  }

  function Last(s: Text): char
    requires s != []
  {
    s[|s| - 1]
  }

  /** The recurrence of the table, on the last characters. */
  function Distance(s: Text, t: Text): nat
    decreases |s| + |t|
  {
    if s == [] then |t|
    else if t == [] then |s|
    else Least(Least(Distance(s, Front(t)), Distance(Front(s), t)) + 1,
               Distance(Front(s), Front(t)) + if Last(s) == Last(t) then 0 else 1)
  }

  /** Adding one character at the end of either string moves the distance by at most one. */
  lemma {:induction false} FrontIsNear(s: Text, t: Text)
    requires t != []
    ensures Distance(s, t) <= Distance(s, Front(t)) + 1
    ensures Distance(s, Front(t)) <= Distance(s, t) + 1
    decreases |s|
  {
    if s != [] {
      FrontIsNear(Front(s), t);
    }
  }

  /** Where an edit of t happens: at the last character, or inside the front. */
  lemma EditCases(e: Edit, t: Text)
    requires Applies(e, t)
    ensures var u := Apply(e, t);
            || (u != [] && Front(u) == t)
            || (t != [] && u == Front(t))
            || (t != [] && u != [] && Front(u) == Front(t))
            || (t != [] && u != [] && Applies(e, Front(t)) && Front(u) == Apply(e, Front(t)) && Last(u) == Last(t))
  {
    var u := Apply(e, t);
    if e.Insert? && e.at == |t| {
      assert Front(u) == t;
    } else if e.Delete? && e.at == |t| - 1 {
      assert u == Front(t);
    } else if e.Change? && e.at == |t| - 1 {
      assert Front(u) == Front(t);
    } else {
      assert Front(u) == Apply(e, Front(t)) && Last(u) == Last(t);
    }
  }

  /** One edit of t moves its distance from s by at most one. */
  lemma {:induction false} EditIsNear(s: Text, t: Text, e: Edit)
    requires Applies(e, t)
    ensures Distance(s, Apply(e, t)) <= Distance(s, t) + 1
    decreases |s| + |t|
  {
    var u := Apply(e, t);
    EditCases(e, t);
    if u != [] && Front(u) == t {
      FrontIsNear(s, u);
    } else if t != [] && u == Front(t) {
      FrontIsNear(s, t);
    } else if s == [] {
      hide Apply, Applies, Last;
    } else {
      EditIsNear(Front(s), t, e);
      hide Apply, Applies, Last;
      if Front(u) == Front(t) {
        FrontIsNear(Front(s), t);
      } else {
        EditIsNear(s, Front(t), e);
        EditIsNear(Front(s), Front(t), e);
      }
    }
  }

  lemma {:induction false} SameIsZero(s: Text)
    ensures Distance(s, s) == 0
    decreases |s|
  {
    if s != [] {
      SameIsZero(Front(s));
    }
  }

  /** No script is shorter than the distance. */
  lemma {:induction false} ScriptIsLong(s: Text, t: Text, u: Text, es: seq<Edit>)
    requires Turns(es, t, u)
    ensures Distance(s, u) <= Distance(s, t) + |es|
    decreases |es|
  {
    if es != [] {
      EditIsNear(s, t, es[0]);
      ScriptIsLong(s, Apply(es[0], t), u, es[1..]);
    }
  }

  /** A script for prefixes also works before one more character. */
  lemma {:induction false} TurnsBefore(es: seq<Edit>, s: Text, t: Text, c: char)
    requires Turns(es, s, t)
    ensures Turns(es, s + [c], t + [c])
    decreases |es|
  {
    if es != [] {
      assert Apply(es[0], s + [c]) == Apply(es[0], s) + [c];
      TurnsBefore(es[1..], Apply(es[0], s), t, c);
    }
  }

  lemma TurnsAfter(e: Edit, es: seq<Edit>, s: Text, t: Text)
    requires Applies(e, s) && Turns(es, Apply(e, s), t)
    ensures Turns([e] + es, s, t)
  {
    assert ([e] + es)[1..] == es;
  }

  /** The edits of the last character. */
  lemma LastEdits(s: Text, c: char)
    requires s != []
    ensures Apply(Insert(|Front(s)|, Last(s)), Front(s)) == s
    ensures Apply(Delete(|Front(s)|), s) == Front(s)
    ensures Front(s) + [Last(s)] == s
    ensures Apply(Change(|Front(s)|, Last(s)), Front(s) + [c]) == s
  {
  }

  /** A script as short as the distance. */
  lemma {:induction false} ShortestScript(s: Text, t: Text) returns (es: seq<Edit>)
    ensures Turns(es, s, t) && |es| == Distance(s, t)
    decreases |s| + |t|
  {
    hide Apply, Last, Turns;
    if s == [] && t == [] {
      es := [];
      NoEdits(s);
    } else if t != [] && (s == [] || Distance(s, t) == Distance(s, Front(t)) + 1) {
      es := ShortestScript(s, Front(t));
      LastEdits(t, Last(t));
      TurnsThen(es, s, Front(t), Insert(|Front(t)|, Last(t)), t);
      es := es + [Insert(|Front(t)|, Last(t))];
    } else if t == [] || Distance(s, t) == Distance(Front(s), t) + 1 {
      es := ShortestScript(Front(s), t);
      LastEdits(s, Last(s));
      TurnsAfter(Delete(|Front(s)|), es, s, t);
      es := [Delete(|Front(s)|)] + es;
    } else {
      es := ShortestScript(Front(s), Front(t));
      TurnsBefore(es, Front(s), Front(t), Last(s));
      LastEdits(s, Last(s));
      LastEdits(t, Last(s));
      if Last(s) != Last(t) {
        TurnsThen(es, s, Front(t) + [Last(s)], Change(|Front(t)|, Last(t)), t);
        es := es + [Change(|Front(t)|, Last(t))];
      }
    }
  }

  lemma NoEdits(s: Text)
    ensures Turns([], s, s)
  {
  }

  /** The distance is the least number of insertions, deletions and changes that turn s into t. */
  lemma DistanceIsLeast(s: Text, t: Text)
    ensures exists es :: Turns(es, s, t) && |es| == Distance(s, t)
    ensures forall es :: Turns(es, s, t) ==> |es| >= Distance(s, t)
  {
    var best := ShortestScript(s, t);
    forall es | Turns(es, s, t) ensures |es| >= Distance(s, t) {
      ScriptIsLong(s, s, t, es);
      SameIsZero(s);
    }
  }

  /** It is a metric: zero only between equal strings, symmetric, and with the triangle
      inequality. */
  lemma Metric(s: Text, t: Text, u: Text)
    ensures Distance(s, t) == 0 <==> s == t
    ensures Distance(s, t) == Distance(t, s)
    ensures Distance(s, u) <= Distance(s, t) + Distance(t, u)
  {
    SameIsZero(s);
    SameIsZero(t);
    var st := ShortestScript(s, t);
    var ts := ShortestScript(t, s);
    var back := TurnsBack(st, s, t);
    ScriptIsLong(t, t, s, back);
    back := TurnsBack(ts, t, s);
    ScriptIsLong(s, s, t, back);
    var tu := ShortestScript(t, u);
    ScriptIsLong(s, t, u, tu);
  }

  // ---- The table -------------------------------------------------------------------

  /** What belongs at m[i][j]. */
  function Cell(s: Text, t: Text, i: nat, j: nat): nat
    requires i <= |s| && j <= |t|
  {
    Distance(s[..i], t[..j])
  }

  lemma CellEdges(s: Text, t: Text, i: nat, j: nat)
    requires i <= |s| && j <= |t|
    ensures Cell(s, t, i, 0) == i && Cell(s, t, 0, j) == j && Cell(s, t, |s|, |t|) == Distance(s, t)
  {
    assert s[..|s|] == s && t[..|t|] == t;
  }

  lemma CellInside(s: Text, t: Text, i: nat, j: nat)
    requires 0 < i <= |s| && 0 < j <= |t|
    ensures Cell(s, t, i, j)
            == Least(Least(Cell(s, t, i, j - 1) + 1, Cell(s, t, i - 1, j) + 1),
                     Cell(s, t, i - 1, j - 1) + if s[i - 1] == t[j - 1] then 0 else 1)
  {
    assert Front(s[..i]) == s[..i - 1] && Front(t[..j]) == t[..j - 1];
  }

  method EditDistance(s1: Text, s2: Text) returns (d: nat)
    ensures d == Distance(s1, s2)
  {
    hide Distance, Cell;
    CellEdges(s1, s2, 0, 0);
    if |s1| == 0 || |s2| == 0 {
      EmptySide(s1, s2);
      return if |s1| == 0 then |s2| else |s1|;
    }
    var m := new nat[|s1| + 1, |s2| + 1]((_, _) => 0);
    for i := 0 to |s1| + 1
      invariant forall k :: 0 <= k < i ==> m[k, 0] == Cell(s1, s2, k, 0)
    {
      m[i, 0] := i;
      CellEdges(s1, s2, i, 0);
    }
    for i := 0 to |s2| + 1
      invariant forall k :: 0 <= k <= |s1| ==> m[k, 0] == Cell(s1, s2, k, 0)
      invariant forall k :: 0 <= k < i ==> m[0, k] == Cell(s1, s2, 0, k)
    {
      m[0, i] := i;
      CellEdges(s1, s2, 0, i);
    }
    for i1 := 1 to |s1| + 1
      invariant forall k :: 0 <= k <= |s1| ==> m[k, 0] == Cell(s1, s2, k, 0)
      invariant forall i, j :: 0 <= i < i1 && 0 <= j <= |s2| ==> m[i, j] == Cell(s1, s2, i, j)
    {
      for i2 := 1 to |s2| + 1
        invariant forall k :: 0 <= k <= |s1| ==> m[k, 0] == Cell(s1, s2, k, 0)
        invariant forall i, j :: 0 <= i < i1 && 0 <= j <= |s2| ==> m[i, j] == Cell(s1, s2, i, j)
        invariant forall j :: 0 <= j < i2 ==> m[i1, j] == Cell(s1, s2, i1, j)
      {
        var ins := m[i1, i2 - 1] + 1;
        var del := m[i1 - 1, i2] + 1;
        var chn := m[i1 - 1, i2 - 1] + if s1[i1 - 1] == s2[i2 - 1] then 0 else 1;
        m[i1, i2] := if ins < del then Least(ins, chn) else Least(del, chn);
        CellInside(s1, s2, i1, i2);
      }
    }
    d := m[|s1|, |s2|];
  }

  lemma EmptySide(s: Text, t: Text)
    ensures s == [] ==> Distance(s, t) == |t|
    ensures t == [] ==> Distance(s, t) == |s|
  {
  }
}
