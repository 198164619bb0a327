/** The untimed EventCount protocol (base/event_count.h): each atomic operation on val_ and
    each futex call is one step, and steps of different threads interleave freely.  The
    condition is stable: once true it stays true. */
module EventCount {
  import opened Wrappers

  const WORD: nat := 0x1_0000_0000
  const DWORD: nat := 0x1_0000_0000_0000_0000
  const ADD_WAITER: nat := 1
  const SUB_WAITER: nat := DWORD - 1
  const ADD_EPOCH: nat := WORD
  const INT_MAX: nat := 0x7fff_ffff

  /** val_: the epoch in the high 32 bits, the number of waiters in the low 32. */
  function Epoch(v: nat): nat {
    v / WORD
  }

  function Waiters(v: nat): nat {
    v % WORD
  }

  /** std::atomic<uint64_t>::fetch_add. */
  function FetchAdd(v: nat, x: nat): nat {
    (v + x) % DWORD
  }

  // ---- States ----------------------------------------------------------------------

  /** Where a thread running await() is.  since is a history variable: how many notifications
      had happened when key was taken. */
  datatype Pc =
    | Enter
    | Prepare
    | Check(key: nat, since: nat)
    | Cancel(key: nat, since: nat)
    | Load(key: nat, since: nat)
    | Futex(key: nat, since: nat)
    | Asleep(key: nat, since: nat)
    | Leave(key: nat, since: nat)
    | Done

  /** The poster makes the condition true and then runs notifyAll. */
  datatype Poster = Setting | Bumping | Waking | Returned

  /** others holds the notifiers between their fetch_add and their futex call, each with the
      number of threads it asks to wake; bumps and postedAt are history variables. */
  datatype State = State(val: nat, cond: bool, threads: map<nat, Pc>, poster: Poster,
                         others: map<nat, nat>, bumps: nat, postedAt: nat)

  predicate Registered(pc: Pc) {
    pc.Check? || pc.Cancel? || pc.Load? || pc.Futex? || pc.Asleep? || pc.Leave?
  }

  function RegisteredThreads(threads: map<nat, Pc>): set<nat> {
    set t | t in threads && Registered(threads[t])
  }

  function Sleepers(threads: map<nat, Pc>): set<nat> {
    set t | t in threads && threads[t].Asleep?
  }

  /** The kernel moves woken sleepers back to the head of the loop in wait(). */
  function Woken(threads: map<nat, Pc>, who: set<nat>): map<nat, Pc> {
    map t | t in threads ::
      if t in who && threads[t].Asleep? then Load(threads[t].key, threads[t].since) else threads[t]
  }

  // ---- Steps -----------------------------------------------------------------------

  /** A step of a waiter; a new call of await() by a thread that has returned from one; a spurious
      return from the futex; a step of the poster; the two steps of any other notify(1) or
      notifyAll.  who is the kernel's choice of threads to wake. */
  datatype Step =
    | Wait(t: nat)
    | Again(t: nat)
    | Spurious(t: nat)
    | Post(who: set<nat>)
    | OtherBump(i: nat, n: nat)
    | OtherWake(i: nat, who: set<nat>)

  /** FUTEX_WAKE with limit n wakes exactly min(n, sleepers) threads. */
  ghost predicate Wakes(threads: map<nat, Pc>, n: nat, who: set<nat>) {
    who <= Sleepers(threads) && |who| == if n < |Sleepers(threads)| then n else |Sleepers(threads)|
  }

  /** Of the threads that are asleep, exactly those beyond the limit stay asleep. */
  lemma SleepersAfterWaking(threads: map<nat, Pc>, n: nat, who: set<nat>)
    requires Wakes(threads, n, who)
    ensures Sleepers(Woken(threads, who)) == Sleepers(threads) - who
    ensures Sleepers(Woken(threads, who)) == {} <==> |Sleepers(threads)| <= n
  {
    assert Sleepers(Woken(threads, who)) == Sleepers(threads) - who;
    SubsetSize(who, Sleepers(threads));
    assert Sleepers(threads) == who + (Sleepers(threads) - who);
  }

  /** Fewer than 2^32 notifications happen while one waiter is registered. */
  ghost predicate RoomToBump(s: State) {
    forall t :: t in s.threads && Registered(s.threads[t]) ==> s.bumps + 1 < s.threads[t].since + WORD
  }

  ghost predicate Enabled(s: State, step: Step) {
    match step
    case Wait(t) => t in s.threads && !s.threads[t].Asleep? && !s.threads[t].Done?
    case Again(t) => t in s.threads && s.threads[t].Done?
    case Spurious(t) => t in s.threads && s.threads[t].Asleep?
    case Post(who) =>
      (s.poster == Setting && who == {})
      || (s.poster == Bumping && who == {} && RoomToBump(s))
      || (s.poster == Waking && Wakes(s.threads, INT_MAX, who))
    case OtherBump(i, n) => i !in s.others && 1 <= n <= INT_MAX && RoomToBump(s)
    case OtherWake(i, who) => i in s.others && Wakes(s.threads, s.others[i], who)
  }

  /** One step of await() by thread t. */
  function WaitStep(s: State, t: nat): State
    requires t in s.threads
  {
    match s.threads[t]
    case Enter => s.(threads := s.threads[t := if s.cond then Done else Prepare])
    case Prepare => s.(val := FetchAdd(s.val, ADD_WAITER), threads := s.threads[t := Check(Epoch(s.val), s.bumps)])
    case Check(k, b) => s.(threads := s.threads[t := if s.cond then Cancel(k, b) else Load(k, b)])
    case Cancel(_, _) => s.(val := FetchAdd(s.val, SUB_WAITER), threads := s.threads[t := Done])
    case Load(k, b) => s.(threads := s.threads[t := if Epoch(s.val) == k then Futex(k, b) else Leave(k, b)])
    case Futex(k, b) => s.(threads := s.threads[t := if Epoch(s.val) == k then Asleep(k, b) else Load(k, b)])
    case Leave(_, _) => s.(val := FetchAdd(s.val, SUB_WAITER), threads := s.threads[t := Prepare])
    case Asleep(_, _) => s
    case Done => s
  }

  function PostStep(s: State, who: set<nat>): State {
    match s.poster
    case Setting => s.(cond := true, poster := Bumping)
    case Bumping =>
      s.(val := FetchAdd(s.val, ADD_EPOCH), bumps := s.bumps + 1, postedAt := s.bumps + 1,
         poster := if Waiters(s.val) != 0 then Waking else Returned)
    case Waking => s.(threads := Woken(s.threads, who), poster := Returned)
    case Returned => s
  }

  function Apply(s: State, step: Step): State {
    match step
    case Wait(t) => if t in s.threads then WaitStep(s, t) else s
    case Again(t) => s.(threads := s.threads[t := Enter])
    case Spurious(t) => s.(threads := Woken(s.threads, {t}))
    case Post(who) => PostStep(s, who)
    case OtherBump(i, n) =>
      s.(val := FetchAdd(s.val, ADD_EPOCH), bumps := s.bumps + 1,
         others := if Waiters(s.val) != 0 then s.others[i := n] else s.others)
    case OtherWake(i, who) => s.(threads := Woken(s.threads, who), others := s.others - {i})
  }

  /** A fresh EventCount, fewer than 2^32 threads about to call await(), and a poster. */
  ghost predicate Init(s: State) {
    && s.val == 0 && s.poster == Setting && s.others == map[] && s.bumps == 0 && s.postedAt == 0
    && |s.threads| < WORD
    && forall t :: t in s.threads ==> s.threads[t] == Enter
  }

  ghost predicate ValidRun(s: State, steps: seq<Step>)
    decreases |steps|
  {
    steps == [] || (Enabled(s, steps[0]) && ValidRun(Apply(s, steps[0]), steps[1..]))
  }

  function Final(s: State, steps: seq<Step>): State
    decreases |steps|
  {
    if steps == [] then s else Final(Apply(s, steps[0]), steps[1..])
  }

  // ---- The invariant ---------------------------------------------------------------

  predicate Posted(s: State) {
    s.poster == Waking || s.poster == Returned
  }

  /** A registered thread's key is the epoch at its registration, less than 2^32 ago. */
  ghost predicate GoodPc(s: State, pc: Pc) {
    Registered(pc) ==>
      && pc.since <= s.bumps < pc.since + WORD && pc.key == pc.since % WORD
      // wait() is left only after a notification.
      && (pc.Leave? ==> pc.since < s.bumps)
      // Registered after the notification: the condition is seen to be true.
      && (Posted(s) && pc.since >= s.postedAt ==> pc.Check? || pc.Cancel?)
      // Nobody sleeps once notifyAll has returned.
      && (s.poster == Returned && |s.threads| <= INT_MAX ==> !pc.Asleep?)
  }

  ghost predicate Inv(s: State) {
    && |s.threads| < WORD
    && |RegisteredThreads(s.threads)| <= |s.threads|
    && s.val == Packed(s.bumps, |RegisteredThreads(s.threads)|)
    && (s.poster != Setting ==> s.cond)
    && (Posted(s) ==> s.postedAt <= s.bumps)
    && forall t :: t in s.threads ==> GoodPc(s, s.threads[t])
  }

  function Packed(e: nat, w: nat): nat {
    (e % WORD) * WORD + w
  }

  // ---- Counting --------------------------------------------------------------------

  lemma RegisteredIsFew(threads: map<nat, Pc>)
    ensures |RegisteredThreads(threads)| <= |threads|
    ensures |Sleepers(threads)| <= |RegisteredThreads(threads)|
  {
    SubsetSize(RegisteredThreads(threads), threads.Keys);
    SubsetSize(Sleepers(threads), RegisteredThreads(threads));
  }

  /** How one thread's move changes the count of registered threads. */
  lemma CountAfter(threads: map<nat, Pc>, t: nat, pc: Pc)
    requires t in threads
    ensures |threads[t := pc]| == |threads|
    ensures |RegisteredThreads(threads[t := pc])|
            == |RegisteredThreads(threads)|
               + (if Registered(pc) then 1 else 0) - (if Registered(threads[t]) then 1 else 0)
  {
    var r, r' := RegisteredThreads(threads), RegisteredThreads(threads[t := pc]);
    assert threads[t := pc].Keys == threads.Keys;
    assert |threads[t := pc]| == |threads[t := pc].Keys| && |threads| == |threads.Keys|;
    assert t in r <==> Registered(threads[t]);
    assert t in r' <==> Registered(pc);
    assert r - {t} == r' - {t};
    SizeWithout(r, t);
    SizeWithout(r', t);
  }

  lemma CountAfterWaking(threads: map<nat, Pc>, who: set<nat>)
    ensures |Woken(threads, who)| == |threads|
    ensures RegisteredThreads(Woken(threads, who)) == RegisteredThreads(threads)
  {
    assert Woken(threads, who).Keys == threads.Keys;
    assert |Woken(threads, who)| == |Woken(threads, who).Keys|;
    forall t ensures t in RegisteredThreads(Woken(threads, who)) <==> t in RegisteredThreads(threads) {
    }
  }

  /** Adding an epoch leaves the waiters alone, and adding or removing a waiter the epoch:
      with fewer than 2^32 waiters no carry and no borrow crosses the halves. */
  lemma PackedArithmetic(e: nat, w: nat)
    requires w < WORD
    ensures var v := Packed(e, w);
            && Epoch(v) == e % WORD && Waiters(v) == w
            && FetchAdd(v, ADD_EPOCH) == Packed(e + 1, w)
            && (w + 1 < WORD ==> FetchAdd(v, ADD_WAITER) == Packed(e, w + 1))
            && (w > 0 ==> FetchAdd(v, SUB_WAITER) == Packed(e, w - 1))
  {
    var m := e % WORD;
    if m + 1 == WORD {
      assert (e + 1) % WORD == 0;
    } else {
      assert (e + 1) % WORD == m + 1;
    }
  }

  /** The comparison of key and epoch, in wait() and in the kernel, misses a notification since
      the key was taken exactly when their number is a positive multiple of 2^32. */
  lemma EpochTestIsExact(since: nat, bumps: nat)
    requires since <= bumps
    ensures since % WORD == bumps % WORD <==> (bumps - since) % WORD == 0
  {
    var a, b := since / WORD, bumps / WORD;
    assert since == a * WORD + since % WORD && bumps == b * WORD + bumps % WORD;
  }

  // ---- Every step keeps the invariant ----------------------------------------------

  lemma InitInv(s: State)
    requires Init(s)
    ensures Inv(s)
  {
    assert RegisteredThreads(s.threads) == {};
  }

  /** What the epoch tests of thread t can observe in a state that satisfies the invariant. */
  lemma EpochSeen(s: State, t: nat)
    requires Inv(s) && t in s.threads && Registered(s.threads[t])
    ensures Epoch(s.val) == s.threads[t].key <==> s.threads[t].since == s.bumps
    ensures Waiters(s.val) == |RegisteredThreads(s.threads)| > 0
  {
    PackedArithmetic(s.bumps, |RegisteredThreads(s.threads)|);
    EpochTestIsExact(s.threads[t].since, s.bumps);
    assert t in RegisteredThreads(s.threads);
  }

  /** The parts of a step of thread t that are about val_. */
  lemma WaitKeepsCount(s: State, t: nat)
    requires Inv(s) && Enabled(s, Wait(t))
    ensures var s' := Apply(s, Wait(t));
            && |s'.threads| == |s.threads|
            && s'.val == Packed(s'.bumps, |RegisteredThreads(s'.threads)|)
  {
    var s' := Apply(s, Wait(t));
    CountAfter(s.threads, t, s'.threads[t]);
    assert s'.threads == s.threads[t := s'.threads[t]];
    RegisteredIsFew(s'.threads);
    PackedArithmetic(s.bumps, |RegisteredThreads(s.threads)|);
  }

  lemma WaitKeepsInv(s: State, t: nat)
    requires Inv(s) && Enabled(s, Wait(t))
    ensures Inv(Apply(s, Wait(t)))
  {
    hide Packed, RegisteredThreads, FetchAdd;
    var s' := Apply(s, Wait(t));
    WaitKeepsCount(s, t);
    RegisteredIsFew(s'.threads);
    PackedArithmetic(s.bumps, |RegisteredThreads(s.threads)|);
    if Registered(s.threads[t]) {
      EpochSeen(s, t);
    }
    forall u | u in s'.threads ensures GoodPc(s', s'.threads[u]) {
      assert GoodPc(s, s.threads[u]);
    }
  }

  lemma AgainKeepsInv(s: State, t: nat)
    requires Inv(s) && Enabled(s, Again(t))
    ensures Inv(Apply(s, Again(t)))
  {
    hide Packed, RegisteredThreads;
    var s' := Apply(s, Again(t));
    CountAfter(s.threads, t, Enter);
    RegisteredIsFew(s'.threads);
    forall u | u in s'.threads ensures GoodPc(s', s'.threads[u]) {
      assert GoodPc(s, s.threads[u]);
    }
  }

  lemma WakeKeepsInv(s: State, who: set<nat>, others: map<nat, nat>)
    requires Inv(s)
    ensures Inv(s.(threads := Woken(s.threads, who), others := others))
  {
    var s' := s.(threads := Woken(s.threads, who), others := others);
    CountAfterWaking(s.threads, who);
    forall u | u in s'.threads ensures GoodPc(s', s'.threads[u]) {
      assert GoodPc(s, s.threads[u]);
    }
  }

  lemma BumpKeepsInv(s: State, others: map<nat, nat>)
    requires Inv(s) && RoomToBump(s)
    ensures Inv(s.(val := FetchAdd(s.val, ADD_EPOCH), bumps := s.bumps + 1, others := others))
  {
    PackedArithmetic(s.bumps, |RegisteredThreads(s.threads)|);
    forall u | u in s.threads
      ensures GoodPc(s.(val := FetchAdd(s.val, ADD_EPOCH), bumps := s.bumps + 1, others := others), s.threads[u])
    {
      assert GoodPc(s, s.threads[u]);
    }
  }

  /** notifyAll by the poster: skipping the futex call is safe because no thread is registered,
      and the call, when made, leaves no thread asleep. */
  lemma PostKeepsInv(s: State, who: set<nat>)
    requires Inv(s) && Enabled(s, Post(who))
    ensures Inv(Apply(s, Post(who)))
  {
    var s' := Apply(s, Post(who));
    PackedArithmetic(s.bumps, |RegisteredThreads(s.threads)|);
    CountAfterWaking(s.threads, who);
    RegisteredIsFew(s.threads);
    if s.poster == Waking {
      SleepersAfterWaking(s.threads, INT_MAX, who);
    }
    forall u | u in s'.threads ensures GoodPc(s', s'.threads[u]) {
      assert GoodPc(s, s.threads[u]);
      assert u in Sleepers(s'.threads) <==> s'.threads[u].Asleep?;
      assert u in RegisteredThreads(s.threads) <==> Registered(s.threads[u]);
    }
  }

  lemma StepKeepsInv(s: State, step: Step)
    requires Inv(s) && Enabled(s, step)
    ensures Inv(Apply(s, step))
    ensures Apply(s, step).threads.Keys == s.threads.Keys
  {
    hide Inv, RoomToBump, Wakes, FetchAdd;
    match step
    case Wait(t) => WaitKeepsInv(s, t);
    case Again(t) => AgainKeepsInv(s, t);
    case Spurious(t) => WakeKeepsInv(s, {t}, s.others);
    case Post(who) => PostKeepsInv(s, who);
    case OtherBump(i, n) => BumpKeepsInv(s, Apply(s, step).others);
    case OtherWake(i, who) => WakeKeepsInv(s, who, s.others - {i});
  }

  lemma {:induction false} RunKeepsInv(s: State, steps: seq<Step>)
    requires Inv(s) && ValidRun(s, steps)
    ensures Inv(Final(s, steps))
    ensures Final(s, steps).threads.Keys == s.threads.Keys
    decreases |steps|
  {
    hide Inv, Enabled, Apply;
    if steps != [] {
      StepKeepsInv(s, steps[0]);
      RunKeepsInv(Apply(s, steps[0]), steps[1..]);
    }
  }

  // ---- Safety ----------------------------------------------------------------------

  /** No lost wakeup: whatever the interleaving, no thread is asleep once the poster's
      notifyAll has returned. */
  lemma NoLostWakeup(s: State, steps: seq<Step>)
    requires Init(s) && |s.threads| <= INT_MAX && ValidRun(s, steps)
    ensures Final(s, steps).poster == Returned ==> Sleepers(Final(s, steps).threads) == {}
  {
    InitInv(s);
    RunKeepsInv(s, steps);
    var f := Final(s, steps);
    assert f.threads.Keys == s.threads.Keys;
    assert |f.threads| == |f.threads.Keys| == |s.threads.Keys|;
    forall t | t in f.threads ensures f.poster == Returned ==> !f.threads[t].Asleep? {
      assert GoodPc(f, f.threads[t]);
    }
  }

  /** Some run leaves a thread asleep after notifyAll has returned. */
  ghost predicate CanLoseWakeup(s: State) {
    exists steps :: ValidRun(s, steps) && Final(s, steps).poster == Returned
                    && Sleepers(Final(s, steps).threads) != {}
  }

  /** A wakeup can be lost if and only if the condition does not hold from the start and more than
      INT_MAX threads use the event count, which is the most that notifyAll asks to wake. */
  lemma LosesWakeupIff(s: State)
    requires Init(s)
    ensures CanLoseWakeup(s) <==> !s.cond && |s.threads| > INT_MAX
  {
    hide ValidRun, Final;
    if s.cond {
      forall steps | ValidRun(s, steps) ensures Sleepers(Final(s, steps).threads) == {} {
        NobodyWaits(s, steps);
      }
    } else if |s.threads| <= INT_MAX {
      forall steps | ValidRun(s, steps) && Final(s, steps).poster == Returned
        ensures Sleepers(Final(s, steps).threads) == {}
      {
        NoLostWakeup(s, steps);
      }
    } else {
      LostWakeup(s);
    }
  }

  /** With the condition true from the start no thread ever registers. */
  ghost predicate Idle(s: State) {
    s.cond && forall t :: t in s.threads ==> s.threads[t] == Enter || s.threads[t] == Done
  }

  lemma StepStaysIdle(s: State, step: Step)
    requires Idle(s) && Enabled(s, step)
    ensures Idle(Apply(s, step))
  {
    hide RoomToBump, Wakes, FetchAdd;
  }

  lemma {:induction false} NobodyWaits(s: State, steps: seq<Step>)
    requires Idle(s) && ValidRun(s, steps)
    ensures Sleepers(Final(s, steps).threads) == {}
    decreases |steps|
  {
    hide Idle, Enabled, Apply, Sleepers;
    if steps == [] {
      IdleIsAwake(s);
    } else {
      StepStaysIdle(s, steps[0]);
      NobodyWaits(Apply(s, steps[0]), steps[1..]);
    }
  }

  lemma IdleIsAwake(s: State)
    requires Idle(s)
    ensures Sleepers(s.threads) == {}
  {
  }

  // ---- The run that leaves a sleeper ------------------------------------------------

  /** Every thread is either about to call await() or asleep, and nobody has posted. */
  ghost predicate Bedtime(s: State) {
    && Inv(s) && s.bumps == 0 && s.poster == Setting && !s.cond
    && forall t :: t in s.threads ==> s.threads[t] == Enter || s.threads[t] == Asleep(0, 0)
  }

  function Awake(threads: map<nat, Pc>): set<nat> {
    set t | t in threads && threads[t] == Enter
  }

  lemma {:induction false} RunConcat(s: State, xs: seq<Step>, ys: seq<Step>)
    requires ValidRun(s, xs) && ValidRun(Final(s, xs), ys)
    ensures ValidRun(s, xs + ys) && Final(s, xs + ys) == Final(Final(s, xs), ys)
    decreases |xs|
  {
    hide Enabled, Apply;
    if xs == [] {
      assert xs + ys == ys;
    } else {
      assert (xs + ys)[0] == xs[0] && (xs + ys)[1..] == xs[1..] + ys;
      RunConcat(Apply(s, xs[0]), xs[1..], ys);
    }
  }

  /** One thread goes to sleep: it finds the condition false twice and the epoch unchanged twice. */
  lemma FallAsleep(s: State, t: nat) returns (steps: seq<Step>)
    requires Bedtime(s) && t in Awake(s.threads)
    ensures ValidRun(s, steps) && Bedtime(Final(s, steps))
    ensures Final(s, steps).threads == s.threads[t := Asleep(0, 0)]
  {
    hide Packed, RegisteredThreads, FetchAdd, Epoch, RoomToBump, Wakes, GoodPc;
    var w := Wait(t);
    var s1 := Apply(s, w);
    var s2 := Apply(s1, w);
    var s3 := Apply(s2, w);
    var s4 := Apply(s3, w);
    var s5 := Apply(s4, w);
    WaitKeepsInv(s, t);
    WaitKeepsInv(s1, t);
    KeyIsZero(s1);
    WaitKeepsInv(s2, t);
    WaitKeepsInv(s3, t);
    KeyIsZero(s3);
    WaitKeepsInv(s4, t);
    KeyIsZero(s4);
    steps := FiveSteps(s, w);
  }

  lemma KeyIsZero(s: State)
    requires Inv(s) && s.bumps == 0
    ensures Epoch(s.val) == 0
  {
    PackedArithmetic(0, |RegisteredThreads(s.threads)|);
  }

  lemma RunFirst(s: State, step: Step, more: seq<Step>)
    requires Enabled(s, step) && ValidRun(Apply(s, step), more)
    ensures ValidRun(s, [step] + more) && Final(s, [step] + more) == Final(Apply(s, step), more)
  {
    hide Enabled, Apply;
    assert ([step] + more)[0] == step && ([step] + more)[1..] == more;
  }

  lemma RunNothing(s: State)
    ensures ValidRun(s, []) && Final(s, []) == s
  {
  }

  lemma FiveSteps(s: State, w: Step) returns (steps: seq<Step>)
    requires Enabled(s, w)
    requires Enabled(Apply(s, w), w) && Enabled(Apply(Apply(s, w), w), w)
    requires Enabled(Apply(Apply(Apply(s, w), w), w), w) && Enabled(Apply(Apply(Apply(Apply(s, w), w), w), w), w)
    ensures ValidRun(s, steps)
    ensures Final(s, steps) == Apply(Apply(Apply(Apply(Apply(s, w), w), w), w), w)
  {
    hide Enabled, Apply, ValidRun, Final;
    var s1 := Apply(s, w);
    var s2 := Apply(s1, w);
    var s3 := Apply(s2, w);
    var s4 := Apply(s3, w);
    RunNothing(Apply(s4, w));
    RunFirst(s4, w, []);
    RunFirst(s3, w, [w] + []);
    RunFirst(s2, w, [w] + ([w] + []));
    RunFirst(s1, w, [w] + ([w] + ([w] + [])));
    RunFirst(s, w, [w] + ([w] + ([w] + ([w] + []))));
    steps := [w] + ([w] + ([w] + ([w] + ([w] + []))));
  }

  /** Then the others do. */
  lemma {:induction false} AllFallAsleep(s: State) returns (steps: seq<Step>)
    requires Bedtime(s)
    ensures ValidRun(s, steps) && Bedtime(Final(s, steps))
    ensures Final(s, steps).threads.Keys == s.threads.Keys && Awake(Final(s, steps).threads) == {}
    decreases |Awake(s.threads)|
  {
    hide Bedtime, Enabled, Apply;
    if Awake(s.threads) == {} {
      steps := [];
    } else {
      var t :| t in Awake(s.threads);
      var first := FallAsleep(s, t);
      var s1 := Final(s, first);
      assert Awake(s1.threads) == Awake(s.threads) - {t};
      var more := AllFallAsleep(s1);
      RunConcat(s, first, more);
      steps := first + more;
    }
  }

  lemma {:induction false} SubsetOfSize<T>(s: set<T>, n: nat) returns (r: set<T>)
    requires n <= |s|
    ensures r <= s && |r| == n
    decreases |s|
  {
    if |s| == n {
      r := s;
    } else {
      var x :| x in s;
      r := SubsetOfSize(s - {x}, n);
    }
  }

  /** The poster's three steps, when more than INT_MAX threads sleep. */
  lemma PostToMany(s: State) returns (steps: seq<Step>)
    requires Bedtime(s) && Awake(s.threads) == {} && |s.threads| > INT_MAX
    ensures ValidRun(s, steps)
    ensures Final(s, steps).poster == Returned && Sleepers(Final(s, steps).threads) != {}
  {
    EverybodySleeps(s);
    var who := SubsetOfSize(Sleepers(s.threads), INT_MAX);
    SleepersAfterWaking(s.threads, INT_MAX, who);
    steps := PostSteps(s, who);
  }

  lemma EverybodySleeps(s: State)
    requires Bedtime(s) && Awake(s.threads) == {}
    ensures Sleepers(s.threads) == s.threads.Keys && |Sleepers(s.threads)| == |s.threads|
    ensures RegisteredThreads(s.threads) == s.threads.Keys
    ensures |s.threads| > 0 ==> Waiters(s.val) != 0
    ensures RoomToBump(s)
  {
    forall t | t in s.threads ensures s.threads[t] == Asleep(0, 0) {
      assert t !in Awake(s.threads);
    }
    assert Sleepers(s.threads) == s.threads.Keys == RegisteredThreads(s.threads);
    PackedArithmetic(s.bumps, |RegisteredThreads(s.threads)|);
  }

  lemma PostSteps(s: State, who: set<nat>) returns (steps: seq<Step>)
    requires s.poster == Setting && RoomToBump(s) && Waiters(s.val) != 0 && Wakes(s.threads, INT_MAX, who)
    ensures ValidRun(s, steps)
    ensures Final(s, steps).poster == Returned && Final(s, steps).threads == Woken(s.threads, who)
  {
    hide Wakes, FetchAdd, Waiters, Woken, ValidRun, Final;
    var s1 := Apply(s, Post({}));
    var s2 := Apply(s1, Post({}));
    RunNothing(Apply(s2, Post(who)));
    RunFirst(s2, Post(who), []);
    RunFirst(s1, Post({}), [Post(who)] + []);
    RunFirst(s, Post({}), [Post({})] + ([Post(who)] + []));
    steps := [Post({})] + ([Post({})] + ([Post(who)] + []));
  }

  /** With more than INT_MAX threads the run in which all go to sleep before notifyAll leaves one
      asleep. */
  lemma LostWakeup(s: State)
    requires Init(s) && !s.cond && |s.threads| > INT_MAX
    ensures CanLoseWakeup(s)
  {
    hide Bedtime, Enabled, Apply, Awake, Sleepers;
    InitIsBedtime(s);
    var first := AllFallAsleep(s);
    assert |Final(s, first).threads| == |Final(s, first).threads.Keys| == |s.threads.Keys|;
    var more := PostToMany(Final(s, first));
    RunConcat(s, first, more);
  }

  lemma InitIsBedtime(s: State)
    requires Init(s) && !s.cond
    ensures Bedtime(s)
  {
    InitInv(s);
  }

  /** In every reachable state the low half of val_ is the number of registered threads and the
      high half the number of notifications modulo 2^32. */
  lemma CountIsExact(s: State, steps: seq<Step>)
    requires Init(s) && ValidRun(s, steps)
    ensures var f := Final(s, steps);
            && Waiters(f.val) == |RegisteredThreads(f.threads)|
            && Epoch(f.val) == f.bumps % WORD
  {
    InitInv(s);
    RunKeepsInv(s, steps);
    PackedArithmetic(Final(s, steps).bumps, |RegisteredThreads(Final(s, steps).threads)|);
  }

  /** Deregistration never borrows from the epoch: the asserts in cancelWait() and wait() hold. */
  lemma NoBorrow(s: State, steps: seq<Step>, t: nat)
    requires Init(s) && ValidRun(s, steps)
    requires t in Final(s, steps).threads
    requires Final(s, steps).threads[t].Cancel? || Final(s, steps).threads[t].Leave?
    ensures var f := Final(s, steps);
            && Waiters(f.val) != 0
            && Epoch(FetchAdd(f.val, SUB_WAITER)) == Epoch(f.val)
            && Waiters(FetchAdd(f.val, SUB_WAITER)) == Waiters(f.val) - 1
  {
    InitInv(s);
    RunKeepsInv(s, steps);
    var f := Final(s, steps);
    EpochSeen(f, t);
    PackedArithmetic(f.bumps, |RegisteredThreads(f.threads)|);
    PackedArithmetic(f.bumps, |RegisteredThreads(f.threads)| - 1);
  }

  // ---- What await() and notify() promise -------------------------------------------

  /** Whoever is about to return, or has, saw the condition true, and it still is. */
  ghost predicate Satisfied(s: State) {
    forall t :: t in s.threads && (s.threads[t].Done? || s.threads[t].Cancel?) ==> s.cond
  }

  lemma StepKeepsSatisfied(s: State, step: Step)
    requires Satisfied(s) && Enabled(s, step)
    ensures Satisfied(Apply(s, step))
  {
    hide RoomToBump, Wakes, FetchAdd, Epoch, Waiters;
  }

  lemma {:induction false} RunKeepsSatisfied(s: State, steps: seq<Step>)
    requires Satisfied(s) && ValidRun(s, steps)
    ensures Satisfied(Final(s, steps))
    decreases |steps|
  {
    hide Satisfied, Enabled, Apply;
    if steps != [] {
      StepKeepsSatisfied(s, steps[0]);
      RunKeepsSatisfied(Apply(s, steps[0]), steps[1..]);
    }
  }

  /** await() returns only when its condition holds. */
  lemma AwaitMeansCondition(s: State, steps: seq<Step>, t: nat)
    requires Init(s) && ValidRun(s, steps)
    requires t in Final(s, steps).threads && Final(s, steps).threads[t].Done?
    ensures Final(s, steps).cond
  {
    RunKeepsSatisfied(s, steps);
  }

  /** wait(key) returns only after a notification that came later than the key, whatever wakes
      the thread. */
  lemma WaitMeansNotified(s: State, steps: seq<Step>, t: nat)
    requires Init(s) && ValidRun(s, steps)
    requires t in Final(s, steps).threads && Final(s, steps).threads[t].Leave?
    ensures Final(s, steps).threads[t].since < Final(s, steps).bumps
  {
    InitInv(s);
    RunKeepsInv(s, steps);
    assert GoodPc(Final(s, steps), Final(s, steps).threads[t]);
  }

  /** notify(n): no registered thread's key is the epoch any more, so that none of them falls
      asleep or stays in its loop, and if somebody sleeps the futex call is made ... */
  lemma NotifyIsSeen(s: State, steps: seq<Step>, i: nat, n: nat)
    requires Init(s) && ValidRun(s, steps) && Enabled(Final(s, steps), OtherBump(i, n))
    ensures var f := Final(s, steps);
            var g := Apply(f, OtherBump(i, n));
            && (forall t :: t in g.threads && Registered(g.threads[t]) ==> g.threads[t].key != Epoch(g.val))
            && (Sleepers(f.threads) != {} ==> i in g.others && g.others[i] == n)
            && g.threads == f.threads && g.cond == f.cond
  {
    InitInv(s);
    RunKeepsInv(s, steps);
    var f := Final(s, steps);
    var g := Apply(f, OtherBump(i, n));
    BumpKeepsInv(f, g.others);
    RegisteredIsFew(f.threads);
    PackedArithmetic(f.bumps, |RegisteredThreads(f.threads)|);
    forall t | t in g.threads && Registered(g.threads[t]) ensures g.threads[t].key != Epoch(g.val) {
      assert GoodPc(f, f.threads[t]);
      EpochSeen(g, t);
    }
  }

  /** ... and that call wakes min(n, sleepers) of those asleep when it is made. */
  lemma NotifyWakes(s: State, i: nat, who: set<nat>)
    requires Enabled(s, OtherWake(i, who))
    ensures var n, before := s.others[i], |Sleepers(s.threads)|;
            |Sleepers(Apply(s, OtherWake(i, who)).threads)| == if n < before then before - n else 0
  {
    SleepersAfterWaking(s.threads, s.others[i], who);
    assert Sleepers(s.threads) == who + (Sleepers(s.threads) - who);
  }

  // ---- Progress --------------------------------------------------------------------

  /** How many steps thread t still needs once notifyAll has returned. */
  function Rank(pc: Pc): nat {
    match pc
    case Done => 0
    case Enter => 1
    case Cancel(_, _) => 1
    case Check(_, _) => 2
    case Prepare => 3
    case Leave(_, _) => 4
    case Load(_, _) => 5
    case Futex(_, _) => 6
    case Asleep(_, _) => 7
  }

  function StepsOf(steps: seq<Step>, t: nat): nat {
    if steps == [] then 0 else (if steps[0] == Wait(t) then 1 else 0) + StepsOf(steps[1..], t)
  }

  ghost predicate AllNotified(s: State) {
    Inv(s) && s.poster == Returned && |s.threads| <= INT_MAX
  }

  lemma WaitLowersRank(s: State, t: nat)
    requires AllNotified(s) && Enabled(s, Wait(t)) && t in s.threads
    ensures Rank(Apply(s, Wait(t)).threads[t]) < Rank(s.threads[t])
  {
    hide RegisteredThreads, Packed, RoomToBump, Wakes;
    assert GoodPc(s, s.threads[t]);
    if Registered(s.threads[t]) {
      EpochSeen(s, t);
    }
  }

  lemma StepLowersRank(s: State, step: Step, t: nat)
    requires AllNotified(s) && Enabled(s, step) && t in s.threads && step != Again(t)
    ensures AllNotified(Apply(s, step)) && t in Apply(s, step).threads
    ensures Rank(Apply(s, step).threads[t]) + (if step == Wait(t) then 1 else 0) <= Rank(s.threads[t])
  {
    hide Inv, RoomToBump, Wakes, FetchAdd, Epoch, Waiters;
    var s' := Apply(s, step);
    StepKeepsInv(s, step);
    assert |s'.threads| == |s'.threads.Keys| == |s.threads.Keys|;
    NotBlocked(s, t);
    if step == Wait(t) {
      WaitLowersRank(s, t);
    }
  }

  /** After notifyAll every await() returns: a thread is never blocked, no step of another thread
      sets it back, and the call it is in finishes within six steps of its own. */
  lemma {:induction false} EveryWaiterReturns(s: State, steps: seq<Step>, t: nat)
    requires AllNotified(s) && ValidRun(s, steps) && t in s.threads && Again(t) !in steps
    ensures var f := Final(s, steps);
            && t in f.threads && (f.threads[t].Done? || Enabled(f, Wait(t)))
            && (StepsOf(steps, t) >= 6 ==> f.threads[t].Done?)
            && Rank(f.threads[t]) + StepsOf(steps, t) <= Rank(s.threads[t]) <= 6
    decreases |steps|
  {
    hide Inv, Apply;
    NotBlocked(s, t);
    if steps != [] {
      StepLowersRank(s, steps[0], t);
      EveryWaiterReturns(Apply(s, steps[0]), steps[1..], t);
    }
  }

  lemma NotBlocked(s: State, t: nat)
    requires AllNotified(s) && t in s.threads
    ensures s.threads[t].Done? || Enabled(s, Wait(t))
    ensures Rank(s.threads[t]) <= 6
  {
    assert GoodPc(s, s.threads[t]);
  }
}
