/** ListReader::ReadRecord as a function of the physical events: what the client of the
    reader observes, record by record and report by report. */
module Logical {
  import opened Wrappers
  import opened Coding
  import opened ListFormat
  import opened Physical

  /** A record returned, a call of the corruption reporter, a false return at an end-of-file
      event, or the read outside a buffer. */
  datatype Obs = Got(record: Bytes) | Dropped(drop: Drop) | End | Crash

  function Reports(ds: seq<Drop>): (o: seq<Obs>)
    ensures |o| == |ds|
  {
    seq(|ds|, i requires 0 <= i < |ds| => Dropped(ds[i]))
  }

  function Report(bytes: nat, reason: Reason): seq<Obs> {
    [Dropped(Drop(bytes, reason))]
  }

  /** The report about the fragments collected so far, if any. */
  function Abandon(frag: Option<Bytes>, reason: Reason): seq<Obs> {
    if frag.Some? then Report(|frag.value|, reason) else []
  }

  /** What is observed with no array and no fragmented record under way. */
  function Fresh(es: seq<Event>): seq<Obs> {
    Run(0, [], None, es)
  }

  /** And with the fragments s collected. */
  function Collecting(s: Bytes, es: seq<Event>): seq<Obs> {
    Run(0, [], Some(s), es)
  }

  /** Everything the client observes from here: n entries of an array are still to be
      returned from store, frag is the record being put together, es the physical events. */
  function Run(n: nat, store: Bytes, frag: Option<Bytes>, es: seq<Event>): seq<Obs>
    decreases |es|, 0, n
  {
    if n > 0 then
      match TakeString(store)
      case None => Report(|store|, InvalidArray) + Run(0, [], frag, es)
      case Some((item, rest)) => [Got(item)] + Run(n - 1, rest, None, es)
    else if es == [] then Abandon(frag, PartialWithoutEnd)
    else if es[0].OutOfBounds? then [Crash]
    else
      var (drops, code, payload) := (es[0].drops, es[0].code, es[0].payload);
      Reports(drops) + Dispatch(frag, code, payload, es[1..])
  }

  /** One turn of the switch: what is observed, and the state the loop goes on with. */
  datatype Turn = Turn(said: seq<Obs>, n: nat, store: Bytes, frag: Option<Bytes>)

  /** The switch on the record type.  A full record inside a fragmented one falls through to
      the case of a first fragment, as the source does. */
  function Switch(frag: Option<Bytes>, code: nat, payload: Bytes): Turn {
    if code == FULL as nat then
      if frag.None? then Turn([Got(payload)], 0, [], None)
      else Turn(Abandon(frag, PartialWithoutEnd) + Abandon(frag, PartialWithoutEnd), 0, [], Some(payload))
    else if code == FIRST as nat then Turn(Abandon(frag, PartialWithoutEnd), 0, [], Some(payload))
    else if code == MIDDLE as nat then
      if frag.None? then Turn(Report(|payload|, MissingStart), 0, [], None)
      else Turn([], 0, [], Some(frag.value + payload))
    else if code == LAST as nat then
      if frag.None? then Turn(Report(|payload|, MissingStart), 0, [], None)
      else Turn([Got(frag.value + payload)], 0, [], None)
    else if code == ARRAY as nat then
      match ParseVarint(payload)
      case Some(p) =>
        if p.value != 0 then Turn(Abandon(frag, PartialWithoutEnd), p.value, payload[p.width..], frag)
        else Turn(Abandon(frag, PartialWithoutEnd) + Report(|payload|, InvalidArray), 0, [], frag)
      case None => Turn(Abandon(frag, PartialWithoutEnd) + Report(|payload|, InvalidArray), 0, [], frag)
    else if code == EOF then Turn(Abandon(frag, PartialWithoutEnd) + [End], 0, [], None)
    else if code == BAD then Turn(Abandon(frag, ErrorInMiddle), 0, [], None)
    else Turn(Report(|payload| + (if frag.Some? then |frag.value| else 0), UnknownType), 0, [], None)
  }

  function Dispatch(frag: Option<Bytes>, code: nat, payload: Bytes, es: seq<Event>): seq<Obs>
    decreases |es|, 2, 0
  {
    var t := Switch(frag, code, payload);
    t.said + Run(t.n, t.store, t.frag, es)
  }

  /** The client meets the crash exactly if some physical read leaves its buffer. */
  lemma {:induction false} CrashIff(n: nat, store: Bytes, frag: Option<Bytes>, es: seq<Event>)
    ensures Crash in Run(n, store, frag, es) <==> OutOfBounds in es
    decreases |es|, n
  {
    hide Switch;
    if n > 0 {
      match TakeString(store) {
        case None => CrashIff(0, [], frag, es);
        case Some((_, rest)) => CrashIff(n - 1, rest, None, es);
      }
    } else if es != [] && es[0].Event? {
      var t := Switch(frag, es[0].code, es[0].payload);
      SwitchIsCalm(frag, es[0].code, es[0].payload);
      CrashIff(t.n, t.store, t.frag, es[1..]);
      assert es == [es[0]] + es[1..];
    }
  }

  lemma SwitchIsCalm(frag: Option<Bytes>, code: nat, payload: Bytes)
    ensures Crash !in Switch(frag, code, payload).said
  {
  }

  // ---- What a client loop collects -------------------------------------------------

  /** The records a client sees before the first false return. */
  function Records(os: seq<Obs>): seq<Bytes>
    decreases |os|
  {
    if os == [] || os[0].End? || os[0].Crash? then []
    else (if os[0].Got? then [os[0].record] else []) + Records(os[1..])
  }

  function Gots(rs: seq<Bytes>): (os: seq<Obs>)
    ensures |os| == |rs|
  {
    seq(|rs|, i requires 0 <= i < |rs| => Got(rs[i]))
  }

  /** No record, no end and no crash. */
  predicate OnlyReports(os: seq<Obs>) {
    forall i :: 0 <= i < |os| ==> os[i].Dropped?
  }

  lemma {:induction false} RecordsAfterReports(os: seq<Obs>, us: seq<Obs>)
    requires OnlyReports(os)
    ensures Records(os + us) == Records(us)
    decreases |os|
  {
    if os == [] {
      assert os + us == us;
    } else {
      assert (os + us)[0] == os[0] && (os + us)[1..] == os[1..] + us;
      RecordsAfterReports(os[1..], us);
    }
  }

  lemma {:induction false} RecordsAfterGots(rs: seq<Bytes>, us: seq<Obs>)
    ensures Records(Gots(rs) + us) == rs + Records(us)
    decreases |rs|
  {
    if rs == [] {
      assert Gots(rs) + us == us;
    } else {
      var os := Gots(rs) + us;
      assert os[0] == Got(rs[0]) && os[1..] == Gots(rs[1..]) + us;
      RecordsAfterGots(rs[1..], us);
    }
  }

  // ---- Single steps ----------------------------------------------------------------

  lemma StepItem(n: nat, item: Bytes, rest: Bytes, es: seq<Event>)
    requires n > 0 && |item| < TWO32
    ensures Run(n, EncodeVarint(|item|) + item + rest, None, es) == [Got(item)] + Run(n - 1, rest, None, es)
  {
    TakeStringOf(item, rest);
  }

  /** One clean event is dispatched on its type. */
  lemma StepClean(frag: Option<Bytes>, p: Phys, es: seq<Event>)
    ensures Run(0, [], frag, [Event([], p.kind, p.payload)] + es) == Dispatch(frag, p.kind, p.payload, es)
  {
    var all := [Event([], p.kind as nat, p.payload)] + es;
    assert all[0] == Event([], p.kind, p.payload) && all[1..] == es;
    hide Dispatch;
    var o := Dispatch(frag, p.kind, p.payload, es);
    assert Reports([]) + o == o;
  }

  lemma StepFull(r: Bytes, es: seq<Event>)
    ensures Fresh([Event([], FULL, r)] + es) == [Got(r)] + Fresh(es)
  {
    hide Run;
    StepClean(None, Phys(FULL, r), es);
  }

  lemma StepFirst(s: Bytes, es: seq<Event>)
    ensures Fresh([Event([], FIRST, s)] + es) == Collecting(s, es)
  {
    hide Run;
    StepClean(None, Phys(FIRST, s), es);
    assert [] + Collecting(s, es) == Collecting(s, es);
  }

  lemma StepMiddle(s: Bytes, t: Bytes, es: seq<Event>)
    ensures Collecting(s, [Event([], MIDDLE, t)] + es) == Collecting(s + t, es)
  {
    hide Run;
    StepClean(Some(s), Phys(MIDDLE, t), es);
  }

  lemma StepLast(s: Bytes, t: Bytes, es: seq<Event>)
    ensures Collecting(s, [Event([], LAST, t)] + es) == [Got(s + t)] + Fresh(es)
  {
    hide Run;
    StepClean(Some(s), Phys(LAST, t), es);
  }

  lemma StepArray(rs: seq<Bytes>, es: seq<Event>)
    requires 0 < |rs| < TWO32
    ensures Fresh([Event([], ARRAY, ArrayPayload(rs))] + es) == Run(|rs|, ArrayBody(rs), None, es)
  {
    hide Run;
    var p := ArrayPayload(rs);
    VarintRoundTrip(|rs|, ArrayBody(rs));
    assert p[|EncodeVarint(|rs|)|..] == ArrayBody(rs);
    StepClean(None, Phys(ARRAY, p), es);
    var o := Run(|rs|, ArrayBody(rs), None, es);
    assert [] + o == o;
  }

  /** A fragment without a beginning is reported and passed over. */
  lemma StepOrphan(p: Phys, es: seq<Event>)
    requires p.kind == MIDDLE || p.kind == LAST
    ensures Fresh([Event([], p.kind, p.payload)] + es) == Report(|p.payload|, MissingStart) + Fresh(es)
  {
    hide Run;
    StepClean(None, p, es);
  }

  /** A bad record abandons what was being put together. */
  lemma StepBad(frag: Option<Bytes>, ev: Event, es: seq<Event>)
    requires ev.Event? && ev.code == BAD
    ensures Run(0, [], frag, [ev] + es) == Reports(ev.drops) + Abandon(frag, ErrorInMiddle) + Fresh(es)
  {
    assert ([ev] + es)[0] == ev && ([ev] + es)[1..] == es;
    Associative(Reports(ev.drops), Abandon(frag, ErrorInMiddle), Fresh(es));
  }

  // ---- Undamaged units -------------------------------------------------------------

  /** An array's entries are returned one by one. */
  lemma {:induction false} RunArray(rs: seq<Bytes>, es: seq<Event>)
    requires forall r :: r in rs ==> |r| < TWO32
    ensures Run(|rs|, ArrayBody(rs), None, es) == Gots(rs) + Fresh(es)
    decreases |rs|
  {
    if rs == [] {
      assert Gots(rs) + Fresh(es) == Fresh(es);
    } else {
      hide Run;
      StepItem(|rs|, rs[0], ArrayBody(rs[1..]), es);
      RunArray(rs[1..], es);
      assert Gots(rs) == [Got(rs[0])] + Gots(rs[1..]);
      Associative([Got(rs[0])], Gots(rs[1..]), Fresh(es));
    }
  }

  /** The fragments after the first, to the last: one record. */
  lemma {:induction false} RunTail(s: Bytes, pieces: seq<Bytes>, es: seq<Event>)
    requires pieces != []
    ensures Collecting(s, Clean(TailFrames(pieces)) + es) == [Got(s + Joined(pieces))] + Fresh(es)
    decreases |pieces|
  {
    hide Run;
    CleanCons(TailFrames(pieces), es);
    if |pieces| == 1 {
      StepLast(s, pieces[0], Clean(TailFrames(pieces)[1..]) + es);
      assert Clean(TailFrames(pieces)[1..]) + es == es;
      assert pieces[1..] == [] && Joined(pieces) == pieces[0];
    } else {
      assert TailFrames(pieces)[1..] == TailFrames(pieces[1..]);
      StepMiddle(s, pieces[0], Clean(TailFrames(pieces[1..])) + es);
      RunTail(s + pieces[0], pieces[1..], es);
      assert s + pieces[0] + Joined(pieces[1..]) == s + Joined(pieces);
    }
  }

  lemma CleanCons(ps: seq<Phys>, es: seq<Event>)
    requires ps != []
    ensures Clean(ps) + es == [Event([], ps[0].kind, ps[0].payload)] + (Clean(ps[1..]) + es)
  {
  }

  ghost predicate AllGoodUnits(us: seq<Unit>) {
    forall i :: 0 <= i < |us| ==> GoodUnit(us[i])
  }

  lemma CleanConcat(ps: seq<Phys>, qs: seq<Phys>, es: seq<Event>)
    ensures Clean(ps + qs) + es == Clean(ps) + (Clean(qs) + es)
  {
  }

  lemma GotsConcat(rs: seq<Bytes>, ts: seq<Bytes>, os: seq<Obs>)
    ensures Gots(rs + ts) + os == Gots(rs) + (Gots(ts) + os)
  {
  }

  /** The frames of a good unit are read back as its records. */
  lemma RunUnit(u: Unit, es: seq<Event>)
    requires GoodUnit(u)
    ensures Fresh(Clean(UnitFrames(u)) + es) == Gots(UnitRecords(u)) + Fresh(es)
  {
    hide Run;
    var ps := UnitFrames(u);
    CleanCons(ps, es);
    match u {
      case Whole(r) =>
        StepFull(r, es);
        assert Clean(ps[1..]) + es == es;
        assert Gots([r]) == [Got(r)];
      case Packed(rs) =>
        StepArray(rs, es);
        assert Clean(ps[1..]) + es == es;
        RunArray(rs, es);
      case Split(pieces) =>
        assert ps[1..] == TailFrames(pieces[1..]);
        StepFirst(pieces[0], Clean(ps[1..]) + es);
        RunTail(pieces[0], pieces[1..], es);
        assert Gots([Joined(pieces)]) == [Got(Joined(pieces))];
    }
  }

  /** The frames of good units are read back as exactly their records, with no report. */
  lemma {:induction false} RunUnits(us: seq<Unit>, es: seq<Event>)
    requires AllGoodUnits(us)
    ensures Fresh(Clean(AllFrames(us)) + es) == Gots(AllRecords(us)) + Fresh(es)
    decreases |us|
  {
    if us == [] {
      assert Clean(AllFrames(us)) + es == es;
      assert Gots(AllRecords(us)) + Fresh(es) == Fresh(es);
    } else {
      CleanConcat(UnitFrames(us[0]), AllFrames(us[1..]), es);
      GotsConcat(UnitRecords(us[0]), AllRecords(us[1..]), Fresh(es));
      assert AllGoodUnits(us[1..]) && GoodUnit(us[0]);
      assert AllFrames(us) == UnitFrames(us[0]) + AllFrames(us[1..]);
      assert AllRecords(us) == UnitRecords(us[0]) + AllRecords(us[1..]);
      hide *;
      RunUnit(us[0], Clean(AllFrames(us[1..])) + es);
      RunUnits(us[1..], es);
    }
  }

  // ---- Where records come from -----------------------------------------------------

  /** The entries that can be taken from the store of an array, up to the first broken one. */
  function Entries(n: nat, store: Bytes): seq<Bytes>
    decreases n
  {
    if n == 0 then []
    else
      match TakeString(store)
      case None => []
      case Some((item, rest)) => [item] + Entries(n - 1, rest)
  }

  function ArrayEntries(payload: Bytes): seq<Bytes> {
    match ParseVarint(payload)
    case None => []
    case Some(p) => Entries(p.value, payload[p.width..])
  }

  /** The payloads of the middle fragments, joined. */
  function Middles(es: seq<Event>): Bytes {
    if es == [] then []
    else (if es[0].Event? && es[0].code == 3 then es[0].payload else []) + Middles(es[1..])
  }

  /** Event i begins a fragmented record, and up to but excluding k nothing ends it: there are only
      middle fragments, and arrays that yield no entry. */
  ghost predicate Begins(es: seq<Event>, i: nat, k: nat) {
    && i < k <= |es|
    && es[i].Event? && (es[i].code == 1 || es[i].code == 2)
    && forall m :: i < m < k ==>
         es[m].Event? && (es[m].code == 3 || (es[m].code == 4 && ArrayEntries(es[m].payload) == []))
  }

  /** x is a whole record. */
  ghost predicate IsFull(es: seq<Event>, x: Bytes) {
    exists i :: 0 <= i < |es| && es[i].Event? && es[i].code == 1 && es[i].payload == x
  }

  /** x is an entry of an array. */
  ghost predicate IsEntry(es: seq<Event>, x: Bytes) {
    exists i :: 0 <= i < |es| && es[i].Event? && es[i].code == 4 && x in ArrayEntries(es[i].payload)
  }

  /** x is what a first fragment, the middle ones after it and the last one spell. */
  ghost predicate IsJoined(es: seq<Event>, x: Bytes) {
    exists i: nat, j: nat :: Begins(es, i, j) && j < |es| && es[j].Event? && es[j].code == 5
                             && x == es[i].payload + Middles(es[i + 1..j]) + es[j].payload
  }

  lemma {:induction false} MiddlesSnoc(es: seq<Event>, e: Event)
    ensures Middles(es + [e]) == Middles(es) + if e.Event? && e.code == 3 then e.payload else []
    decreases |es|
  {
    if es == [] {
      assert [] + [e] == [e] && [e][1..] == [];
    } else {
      assert (es + [e])[0] == es[0] && (es + [e])[1..] == es[1..] + [e];
      MiddlesSnoc(es[1..], e);
    }
  }

  /** The record in the making is spelled by events before k, which began with number i. */
  ghost predicate Making(es: seq<Event>, i: nat, k: nat, frag: Option<Bytes>) {
    frag.Some? ==> Begins(es, i, k) && frag.value == es[i].payload + Middles(es[i + 1..k])
  }

  lemma MakingMore(es: seq<Event>, i: nat, k: nat, frag: Option<Bytes>)
    requires Making(es, i, k, frag) && frag.Some? && k < |es| && es[k].Event?
    ensures es[k].code == 3 ==> Making(es, i, k + 1, Some(frag.value + es[k].payload))
    ensures es[k].code == 4 && ArrayEntries(es[k].payload) == [] ==> Making(es, i, k + 1, frag)
    ensures es[k].code == 5 ==> IsJoined(es, frag.value + es[k].payload)
  {
    hide ArrayEntries;
    assert es[i + 1..k + 1] == es[i + 1..k] + [es[k]];
    MiddlesSnoc(es[i + 1..k], es[k]);
    hide Middles;
    if es[k].code == 3 {
      assert es[i].payload + Middles(es[i + 1..k]) + es[k].payload == es[i].payload + Middles(es[i + 1..k + 1]);
    }
  }

  lemma MakingStarts(es: seq<Event>, k: nat)
    requires k < |es| && es[k].Event? && (es[k].code == 1 || es[k].code == 2)
    ensures Making(es, k, k + 1, Some(es[k].payload))
  {
    assert es[k + 1..k + 1] == [];
    assert es[k].payload + [] == es[k].payload;
  }

  lemma NothingMade(es: seq<Event>, i: nat, k: nat)
    ensures Making(es, i, k, None)
  {
  }

  lemma ReportsHoldNoRecord(ds: seq<Drop>, x: Bytes)
    ensures Got(x) !in Reports(ds)
  {
  }

  /** The records that one turn of the switch returns itself. */
  lemma SaidRecord(frag: Option<Bytes>, code: nat, payload: Bytes, x: Bytes)
    requires Got(x) in Switch(frag, code, payload).said
    ensures (code == 1 && x == payload) || (code == 5 && frag.Some? && x == frag.value + payload)
  {
  }

  /** What one turn leaves in the making, or in the array store. */
  lemma TurnMaking(es: seq<Event>, k: nat, i: nat, frag: Option<Bytes>) returns (i': nat)
    requires k < |es| && es[k].Event? && Making(es, i, k, frag)
    ensures var t := Switch(frag, es[k].code, es[k].payload);
            && (Entries(t.n, t.store) == [] ==> Making(es, i', k + 1, t.frag))
            && (forall e :: e in Entries(t.n, t.store) ==> es[k].code == 4 && e in ArrayEntries(es[k].payload))
  {
    i' := if es[k].code == 1 || es[k].code == 2 then k else i;
    if es[k].code == 1 || es[k].code == 2 {
      MakingStarts(es, k);
    } else if frag.Some? {
      MakingMore(es, i, k, frag);
    }
    NothingMade(es, i', k + 1);
    hide Making;
  }

  lemma EntryOf(es: seq<Event>, k: nat, x: Bytes)
    requires k < |es| && es[k].Event? && es[k].code == 4 && x in ArrayEntries(es[k].payload)
    ensures IsEntry(es, x)
  {
  }

  lemma FullAt(es: seq<Event>, k: nat)
    requires k < |es| && es[k].Event? && es[k].code == 1
    ensures IsFull(es, es[k].payload)
  {
  }

  lemma {:induction false} RecordOfTurn(es: seq<Event>, k: nat, i: nat, frag: Option<Bytes>, x: Bytes)
    requires k < |es| && es[k].Event? && Making(es, i, k, frag)
    requires Got(x) in Dispatch(frag, es[k].code, es[k].payload, es[k + 1..])
    ensures IsFull(es, x) || IsEntry(es, x) || IsJoined(es, x)
    decreases |es| - k, 0, 0
  {
    hide IsFull, IsEntry, IsJoined, Making, Switch, Run, Entries, ArrayEntries;
    var t := Switch(frag, es[k].code, es[k].payload);
    if Got(x) in t.said {
      SaidRecord(frag, es[k].code, es[k].payload, x);
      if es[k].code == 1 {
        FullAt(es, k);
      } else {
        MakingMore(es, i, k, frag);
      }
    } else {
      var i' := TurnMaking(es, k, i, frag);
      forall e | e in Entries(t.n, t.store) ensures IsEntry(es, e) {
        EntryOf(es, k, e);
      }
      RecordOfRun(es, k + 1, t.n, t.store, i', t.frag, x);
    }
  }

  lemma {:induction false} RecordOfRun(es: seq<Event>, k: nat, n: nat, store: Bytes, i: nat, frag: Option<Bytes>,
                                       x: Bytes)
    requires k <= |es| && Got(x) in Run(n, store, frag, es[k..])
    requires forall e :: e in Entries(n, store) ==> IsEntry(es, e)
    requires Entries(n, store) == [] ==> Making(es, i, k, frag)
    ensures IsFull(es, x) || IsEntry(es, x) || IsJoined(es, x)
    decreases |es| - k, n, 1
  {
    hide IsFull, IsEntry, IsJoined, Making, Dispatch;
    assert k < |es| ==> es[k..][0] == es[k];
    if n > 0 {
      match TakeString(store) {
        case None =>
          assert Entries(n, store) == [] && Entries(0, []) == [];
          RecordOfRun(es, k, 0, [], i, frag, x);
        case Some((item, rest)) =>
          var more := Entries(n - 1, rest);
          assert Entries(n, store) == [item] + more;
          if x != item {
            NothingMade(es, i, k);
            RecordOfRun(es, k, n - 1, rest, i, None, x);
          }
      }
    } else if k < |es| && es[k].Event? {
      assert es[k..][0] == es[k] && es[k..][1..] == es[k + 1..];
      ReportsHoldNoRecord(es[k].drops, x);
      RecordOfTurn(es, k, i, frag, x);
    }
  }

  /** No record is invented: each is a full record, an entry of an array, or the fragments of one
      fragmented record from its beginning to its end, with nothing of another among them. */
  lemma RecordsAreWritten(es: seq<Event>, x: Bytes)
    requires Got(x) in Run(0, [], None, es)
    ensures IsFull(es, x) || IsEntry(es, x) || IsJoined(es, x)
  {
    assert es[0..] == es && Entries(0, []) == [];
    NothingMade(es, 0, 0);
    RecordOfRun(es, 0, 0, [], 0, None, x);
  }

  // ---- What becomes of fragments ---------------------------------------------------

  /** Whatever was collected before, a first fragment begins anew: the fragments from it to the
      last one are returned as one record, and what was abandoned is reported with its size. */
  lemma FragmentsAreReturned(frag: Option<Bytes>, pieces: seq<Bytes>, es: seq<Event>)
    requires |pieces| >= 2
    ensures Run(0, [], frag, Clean(UnitFrames(Split(pieces))) + es)
            == (if frag.Some? then [Dropped(Drop(|frag.value|, PartialWithoutEnd))] else [])
               + ([Got(Joined(pieces))] + Run(0, [], None, es))
  {
    hide Run;
    var ps := UnitFrames(Split(pieces));
    CleanCons(ps, es);
    assert ps[1..] == TailFrames(pieces[1..]);
    StepClean(frag, ps[0], Clean(ps[1..]) + es);
    RunTail(pieces[0], pieces[1..], es);
  }

  /** Fragments that are not continued are reported first, with their size and the reason. */
  lemma FragmentsAreReported(s: Bytes, code: nat, payload: Bytes, es: seq<Event>)
    requires code != 3 && code != 5
    ensures var os := Run(0, [], Some(s), [Event([], code, payload)] + es);
            os != [] && os[0] == Dropped(
              if code == 7 then Drop(|s|, ErrorInMiddle)
              else if code == 1 || code == 2 || code == 4 || code == 6 then Drop(|s|, PartialWithoutEnd)
              else Drop(|payload| + |s|, UnknownType))
    ensures Run(0, [], Some(s), []) == [Dropped(Drop(|s|, PartialWithoutEnd))]
  {
    RunOne(Some(s), code, payload, es);
    assert Switch(Some(s), code, payload).said != [];
  }

  /** With nothing collected: fragments without a beginning and unknown types are reported with
      their size, a broken array with its own, a bad record says nothing more than it has said, and
      the end of the file is the end. */
  lemma LooseEvents(code: nat, payload: Bytes, es: seq<Event>)
    requires code != 1 && code != 2
    ensures var os := Run(0, [], None, [Event([], code, payload)] + es);
            && (code == 3 || code == 5 ==> os == [Dropped(Drop(|payload|, MissingStart))] + Run(0, [], None, es))
            && (code == 4 && (ParseVarint(payload) == None || ParseVarint(payload).value.value == 0) ==>
                  os == [Dropped(Drop(|payload|, InvalidArray))] + Run(0, [], None, es))
            && (code == 6 ==> os == [End] + Run(0, [], None, es))
            && (code == 7 ==> os == Run(0, [], None, es))
            && (code == 0 || code > 7 ==> os == [Dropped(Drop(|payload|, UnknownType))] + Run(0, [], None, es))
  {
    hide Run, Switch;
    RunOne(None, code, payload, es);
    LooseTurns(code, payload);
    assert [] + Run(0, [], None, es) == Run(0, [], None, es);
  }

  lemma RunOne(frag: Option<Bytes>, code: nat, payload: Bytes, es: seq<Event>)
    ensures var t := Switch(frag, code, payload);
            Run(0, [], frag, [Event([], code, payload)] + es) == t.said + Run(t.n, t.store, t.frag, es)
  {
    var all := [Event([], code, payload)] + es;
    assert all[0] == Event([], code, payload) && all[1..] == es;
    var t := Switch(frag, code, payload);
    hide Switch;
    var o := t.said + Run(t.n, t.store, t.frag, es);
    assert Reports([]) + o == o;
  }

  lemma LooseTurns(code: nat, payload: Bytes)
    ensures code == 3 || code == 5 ==>
              Switch(None, code, payload) == Turn([Dropped(Drop(|payload|, MissingStart))], 0, [], None)
    ensures code == 4 && (ParseVarint(payload) == None || ParseVarint(payload).value.value == 0) ==>
              Switch(None, code, payload) == Turn([Dropped(Drop(|payload|, InvalidArray))], 0, [], None)
    ensures code == 6 ==> Switch(None, code, payload) == Turn([End], 0, [], None)
    ensures code == 7 ==> Switch(None, code, payload) == Turn([], 0, [], None)
    ensures code == 0 || code > 7 ==>
              Switch(None, code, payload) == Turn([Dropped(Drop(|payload|, UnknownType))], 0, [], None)
  {
    assert [] + [End] == [End];
    assert [] + Report(|payload|, InvalidArray) == Report(|payload|, InvalidArray);
  }

  /** What is left of a store when its entries have been taken. */
  function Unread(n: nat, store: Bytes): Bytes
    decreases n
  {
    if n == 0 then store
    else
      match TakeString(store)
      case None => store
      case Some((_, rest)) => Unread(n - 1, rest)
  }

  /** An array is read entry by entry; where it is broken, what is left of it is reported. */
  lemma {:induction false} ArraysAreRead(n: nat, store: Bytes, es: seq<Event>)
    ensures Run(n, store, None, es)
            == Gots(Entries(n, store))
               + ((if |Entries(n, store)| == n then [] else [Dropped(Drop(|Unread(n, store)|, InvalidArray))])
                  + Run(0, [], None, es))
    decreases n
  {
    hide Dispatch;
    var rest := Run(0, [], None, es);
    if n == 0 {
      assert Run(0, store, None, es) == rest;
      assert Gots(Entries(0, store)) + ([] + rest) == rest;
    } else {
      match TakeString(store)
      case None =>
        assert Entries(n, store) == [];
        assert Gots([]) + (Report(|store|, InvalidArray) + rest) == Report(|store|, InvalidArray) + rest;
      case Some((item, more)) =>
        ArraysAreRead(n - 1, more, es);
        assert Entries(n, store) == [item] + Entries(n - 1, more);
        GotsConcat([item], Entries(n - 1, more),
                   (if |Entries(n - 1, more)| == n - 1 then []
                    else [Dropped(Drop(|Unread(n - 1, more)|, InvalidArray))]) + rest);
        assert Gots([item]) == [Got(item)];
    }
  }
}
