/** Which records the reader still returns when physical records are missing: cut off at
    the end of the file, or lost with the rest of a damaged block. */
module Survival {
  import opened Wrappers
  import opened Coding
  import opened ListFormat
  import opened Physical
  import opened Logical

  /** The records all of whose frames are among the first j. */
  function RecordsWithin(us: seq<Unit>, j: nat): seq<Bytes>
    decreases |us|
  {
    if us == [] || j < |UnitFrames(us[0])| then []
    else UnitRecords(us[0]) + RecordsWithin(us[1..], j - |UnitFrames(us[0])|)
  }

  /** The records all of whose frames come at or after number e. */
  function RecordsFrom(us: seq<Unit>, e: nat): seq<Bytes>
    decreases |us|
  {
    if us == [] then []
    else if e == 0 then AllRecords(us)
    else RecordsFrom(us[1..], if e >= |UnitFrames(us[0])| then e - |UnitFrames(us[0])| else 0)
  }

  /** The records that use no frame from d up to but excluding e. */
  function Survivors(us: seq<Unit>, d: nat, e: nat): seq<Bytes>
    requires d <= e
    decreases |us|
  {
    if us == [] then []
    else
      var w := |UnitFrames(us[0])|;
      if w <= d then UnitRecords(us[0]) + Survivors(us[1..], d - w, e - w)
      else RecordsFrom(us, e)
  }

  // ---- Parts of a unit -------------------------------------------------------------

  lemma {:induction false} RunTailPart(s: Bytes, pieces: seq<Bytes>, k: nat, es: seq<Event>) returns (t: Bytes)
    requires k < |pieces|
    ensures Collecting(s, Clean(TailFrames(pieces)[..k]) + es) == Collecting(t, es)
    decreases k
  {
    hide Run;
    var ps := TailFrames(pieces)[..k];
    if k == 0 {
      t := s;
      assert Clean(ps) + es == es;
    } else {
      CleanCons(ps, es);
      assert ps[1..] == TailFrames(pieces[1..])[..k - 1];
      StepMiddle(s, pieces[0], Clean(ps[1..]) + es);
      t := RunTailPart(s + pieces[0], pieces[1..], k - 1, es);
    }
  }

  lemma SplitPrefix(u: Unit, j: nat)
    requires GoodUnit(u) && 0 < j < |UnitFrames(u)|
    ensures u.Split? && |u.pieces| > j && UnitFrames(u)[..j][0] == Phys(FIRST, u.pieces[0])
    ensures UnitFrames(u)[..j][1..] == TailFrames(u.pieces[1..])[..j - 1]
  {
    hide TailFrames;
    assert u.Split?;
    FirstOfCons(Phys(FIRST, u.pieces[0]), TailFrames(u.pieces[1..]), j);
  }

  lemma FirstOfCons<T>(x: T, s: seq<T>, j: nat)
    requires 0 < j <= |s|
    ensures ([x] + s)[..j][0] == x && ([x] + s)[..j][1..] == s[..j - 1]
  {
  }

  /** The first j frames of a unit that has more leave the reader waiting, with nothing said. */
  lemma RunUnitPart(u: Unit, j: nat, es: seq<Event>) returns (frag: Option<Bytes>)
    requires GoodUnit(u) && j < |UnitFrames(u)|
    ensures Fresh(Clean(UnitFrames(u)[..j]) + es) == Run(0, [], frag, es)
  {
    hide Run, GoodPhys, Dispatch;
    var ps := UnitFrames(u)[..j];
    if j == 0 {
      frag := None;
      assert Clean(ps) + es == es;
    } else {
      var pieces := u.pieces;
      CleanCons(ps, es);
      SplitPrefix(u, j);
      hide UnitFrames, TailFrames, GoodUnit, Clean;
      StepFirst(pieces[0], Clean(ps[1..]) + es);
      var t := RunTailPart(pieces[0], pieces[1..], j - 1, es);
      frag := Some(t);
    }
  }

  /** Fragments whose beginning was lost are reported and never returned. */
  lemma {:induction false} RecordsOfOrphans(pieces: seq<Bytes>, k: nat, es: seq<Event>)
    requires k <= |pieces|
    ensures Records(Fresh(Clean(TailFrames(pieces)[k..]) + es)) == Records(Fresh(es))
    decreases |pieces|
  {
    hide Run;
    var ps := TailFrames(pieces)[k..];
    if ps == [] {
      assert Clean(ps) + es == es;
    } else if k > 0 {
      assert ps == TailFrames(pieces[1..])[k - 1..];
      RecordsOfOrphans(pieces[1..], k - 1, es);
    } else {
      CleanCons(ps, es);
      StepOrphan(ps[0], Clean(ps[1..]) + es);
      RecordsAfterReports(Report(|ps[0].payload|, MissingStart), Fresh(Clean(ps[1..]) + es));
      assert ps[1..] == TailFrames(pieces[1..])[0..];
      RecordsOfOrphans(pieces[1..], 0, es);
    }
  }

  lemma SplitSuffix(u: Unit, e: nat)
    requires GoodUnit(u) && 0 < e < |UnitFrames(u)|
    ensures u.Split? && |UnitFrames(u)| == |u.pieces|
    ensures UnitFrames(u)[e..] == TailFrames(u.pieces[1..])[e - 1..]
  {
  }

  lemma CleanSplit(ps: seq<Phys>, qs: seq<Phys>, e: nat)
    requires e <= |ps|
    ensures Clean((ps + qs)[e..]) == Clean(ps[e..]) + Clean(qs)
  {
  }

  lemma {:induction false} RecordsOfSuffix(us: seq<Unit>, e: nat)
    requires AllGoodUnits(us) && e <= |AllFrames(us)|
    ensures Records(Fresh(Clean(AllFrames(us)[e..]))) == RecordsFrom(us, e)
    decreases |us|
  {
    hide Run, Fresh, UnitFrames, UnitRecords, Records;
    var fs := AllFrames(us);
    if us == [] {
      RecordsOfNothing();
      assert Clean(fs[e..]) == [];
    } else if e == 0 {
      RunUnits(us, []);
      assert Clean(fs[e..]) == Clean(fs) + [];
      RecordsOfNothing();
      RecordsAfterGots(AllRecords(us), Fresh([]));
      assert AllRecords(us) + [] == AllRecords(us);
    } else {
      var f, more := UnitFrames(us[0]), AllFrames(us[1..]);
      assert AllGoodUnits(us[1..]) && GoodUnit(us[0]);
      if e >= |f| {
        assert fs[e..] == more[e - |f|..];
        RecordsOfSuffix(us[1..], e - |f|);
      } else {
        SplitSuffix(us[0], e);
        CleanSplit(f, more, e);
        RecordsOfOrphans(us[0].pieces[1..], e - 1, Clean(more));
        RecordsOfSuffix(us[1..], 0);
        assert more[0..] == more;
      }
    }
  }

  lemma FreshOf(es: seq<Event>)
    ensures Fresh(es) == Run(0, [], None, es)
  {
  }

  lemma RecordsOfNothing()
    ensures Records(Fresh([])) == []
  {
  }

  lemma RecordsOfAbandoned(frag: Option<Bytes>)
    ensures Records(Run(0, [], frag, [])) == []
  {
    RecordsAfterReports(Abandon(frag, PartialWithoutEnd), []);
    assert Abandon(frag, PartialWithoutEnd) + [] == Abandon(frag, PartialWithoutEnd);
  }

  /** No record comes of a torn end, and a bad record only makes the reader start afresh. */
  lemma RecordsOfTorn(frag: Option<Bytes>, torn: seq<Event>)
    requires Torn(torn)
    ensures Records(Run(0, [], frag, torn)) == []
  {
    if torn == [] {
      RecordsOfAbandoned(frag);
    } else if torn[0].code == BAD {
      assert torn == [torn[0]] + [];
      RecordsOfBad(frag, torn[0], []);
      RecordsOfNothing();
    } else {
      var ds, a := Reports(torn[0].drops), Abandon(frag, PartialWithoutEnd);
      assert Run(0, [], frag, torn) == ds + (a + [End] + Fresh(torn[1..]));
      RecordsAfterReports(ds, a + [End] + Fresh(torn[1..]));
      assert a + [End] + Fresh(torn[1..]) == a + ([End] + Fresh(torn[1..]));
      RecordsAfterReports(a, [End] + Fresh(torn[1..]));
    }
  }

  lemma RecordsOfBad(frag: Option<Bytes>, bad: Event, es: seq<Event>)
    requires bad.Event? && bad.code == BAD
    ensures Records(Run(0, [], frag, [bad] + es)) == Records(Fresh(es))
  {
    hide Run, Fresh;
    StepBad(frag, bad, es);
    var o := Reports(bad.drops) + Abandon(frag, ErrorInMiddle);
    assert OnlyReports(o);
    RecordsAfterReports(o, Fresh(es));
  }

  // ---- The two theorems about events -----------------------------------------------

  /** A prefix of the frames and a torn end yield the records whose frames are all there. */
  lemma {:induction false} RecordsOfCut(us: seq<Unit>, j: nat, torn: seq<Event>)
    requires AllGoodUnits(us) && j <= |AllFrames(us)| && Torn(torn)
    ensures Records(Fresh(Clean(AllFrames(us)[..j]) + torn)) == RecordsWithin(us, j)
    decreases |us|
  {
    hide Run, Fresh, UnitFrames, UnitRecords, Records;
    var fs := AllFrames(us);
    if us == [] {
      assert Clean(fs[..j]) + torn == torn;
      FreshOf(torn);
      RecordsOfTorn(None, torn);
    } else {
      var f, more := UnitFrames(us[0]), AllFrames(us[1..]);
      assert AllGoodUnits(us[1..]) && GoodUnit(us[0]);
      if j >= |f| {
        assert fs[..j] == f + more[..j - |f|];
        CleanConcat(f, more[..j - |f|], torn);
        RunUnit(us[0], Clean(more[..j - |f|]) + torn);
        RecordsAfterGots(UnitRecords(us[0]), Fresh(Clean(more[..j - |f|]) + torn));
        RecordsOfCut(us[1..], j - |f|, torn);
      } else {
        assert fs[..j] == f[..j];
        var frag := RunUnitPart(us[0], j, torn);
        RecordsOfTorn(frag, torn);
      }
    }
  }

  /** What stands in for the frames d up to e: one bad record, or a torn end when nothing
      follows. */
  ghost predicate Breaks(us: seq<Unit>, e: nat, bad: seq<Event>) {
    (|bad| == 1 && bad[0].Event? && bad[0].code == BAD) || (e == |AllFrames(us)| && Torn(bad))
  }

  /** Losing the frames d up to e loses exactly the records that use one of them. */
  lemma {:induction false} RecordsOfDamage(us: seq<Unit>, d: nat, e: nat, bad: seq<Event>)
    requires AllGoodUnits(us) && d < e <= |AllFrames(us)| && Breaks(us, e, bad)
    ensures Records(Fresh(Clean(AllFrames(us)[..d]) + (bad + Clean(AllFrames(us)[e..])))) == Survivors(us, d, e)
    decreases |us|
  {
    hide Run, Fresh, UnitFrames, UnitRecords, Records, Clean, GoodUnit, Torn;
    var fs := AllFrames(us);
    var f, more := UnitFrames(us[0]), AllFrames(us[1..]);
    assert fs == f + more;
    assert AllGoodUnits(us[1..]) && GoodUnit(us[0]);
    if |f| <= d {
      var es := Clean(more[..d - |f|]) + (bad + Clean(fs[e..]));
      assert fs[..d] == f + more[..d - |f|] && fs[e..] == more[e - |f|..];
      CleanConcat(f, more[..d - |f|], bad + Clean(fs[e..]));
      RunUnit(us[0], es);
      RecordsAfterGots(UnitRecords(us[0]), Fresh(es));
      RecordsOfDamage(us[1..], d - |f|, e - |f|, bad);
    } else {
      assert fs[..d] == f[..d];
      var frag := RunUnitPart(us[0], d, bad + Clean(fs[e..]));
      RecordsOfBreak(us, e, frag, bad);
    }
  }

  /** Whatever was being put together, after the break the reader returns what begins there. */
  lemma RecordsOfBreak(us: seq<Unit>, e: nat, frag: Option<Bytes>, bad: seq<Event>)
    requires AllGoodUnits(us) && e <= |AllFrames(us)| && Breaks(us, e, bad)
    ensures Records(Run(0, [], frag, bad + Clean(AllFrames(us)[e..]))) == RecordsFrom(us, e)
  {
    hide Run, Fresh, UnitFrames, UnitRecords, Records, AllFrames;
    var after := Clean(AllFrames(us)[e..]);
    RecordsOfSuffix(us, e);
    if |bad| == 1 && bad[0].Event? && bad[0].code == BAD {
      assert bad == [bad[0]];
      RecordsOfBad(frag, bad[0], after);
    } else {
      assert after == [] && bad + after == bad;
      RecordsOfTorn(frag, bad);
      RecordsOfNothing();
    }
  }
}
