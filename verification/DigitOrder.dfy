/** AutoDigitStrCmp (strings/numbers.cc): strings ordered character by character, except that
    runs of digits at corresponding points are ordered by the numbers they denote. */
module DigitOrder {
  import opened Division

  /** Characters are the values of C++ chars. */
  type Text = seq<int>

  const ZERO := 48
  const NINE := 57

  predicate IsDigit(c: int) {
    ZERO <= c <= NINE
  }

  predicate AllDigits(s: Text) {
    forall i :: 0 <= i < |s| ==> IsDigit(s[i])
  }

  /** The length of the longest prefix of digits, and of zeroes. */
  function Run(s: Text): (n: nat)
    ensures n <= |s| && forall i :: 0 <= i < n ==> IsDigit(s[i])
    ensures n < |s| ==> !IsDigit(s[n])
  {
    if s == [] || !IsDigit(s[0]) then 0 else Run(s[1..]) + 1
  }

  function Zeroes(s: Text): (n: nat)
    ensures n <= Run(s) && forall i :: 0 <= i < n ==> s[i] == ZERO
    ensures n < |s| ==> s[n] != ZERO
  {
    if s == [] || s[0] != ZERO then 0 else Zeroes(s[1..]) + 1
  }

  // ---- The order -------------------------------------------------------------------

  /** The number a string of digits denotes. */
  function Value(d: Text): nat
    requires AllDigits(d)
  {
    if d == [] then 0 else 10 * Value(d[..|d| - 1]) + (d[|d| - 1] - ZERO)
  }

  /** A string is a sequence of single non-digits and of numbers, each with its leading zeroes. */
  datatype Token = Char(c: int) | Number(value: nat, zeroes: nat)

  predicate GoodToken(t: Token) {
    t.Char? ==> !IsDigit(t.c)
  }

  predicate GoodTokens(ts: seq<Token>) {
    forall i :: 0 <= i < |ts| ==> GoodToken(ts[i])
  }

  function Tokens(s: Text): (ts: seq<Token>)
    ensures GoodTokens(ts)
    decreases |s|
  {
    if s == [] then []
    else if IsDigit(s[0]) then [Number(Value(s[..Run(s)]), Zeroes(s))] + Tokens(s[Run(s)..])
    else [Char(s[0])] + Tokens(s[1..])
  }

  function Sign(x: int, y: int): int {
    if x < y then -1 else if x > y then 1 else 0
  }

  /** Numbers are ordered by value and, in strict mode, then by leading zeroes: more zeroes come
      first.  A digit is on the same side of a non-digit whichever digit it is. */
  function CompareTokens(x: Token, y: Token, strict: bool): int {
    match (x, y)
    case (Char(c), Char(d)) => Sign(c, d)
    case (Char(c), Number(_, _)) => Sign(c, ZERO)
    case (Number(_, _), Char(d)) => Sign(ZERO, d)
    case (Number(v, m), Number(w, n)) => if v != w then Sign(v, w) else if strict then Sign(n, m) else 0
  }

  function Lexicographic(xs: seq<Token>, ys: seq<Token>, strict: bool): int {
    if xs == [] || ys == [] then Sign(|xs|, |ys|)
    else
      var first := CompareTokens(xs[0], ys[0], strict);
      if first != 0 then first else Lexicographic(xs[1..], ys[1..], strict)
  }

  function Compare(a: Text, b: Text, strict: bool): int {
    Lexicographic(Tokens(a), Tokens(b), strict)
  }

  // ---- Comparing numbers by their digits -------------------------------------------

  lemma {:induction false} ValueConcat(d: Text, e: Text)
    requires AllDigits(d) && AllDigits(e)
    ensures AllDigits(d + e) && Value(d + e) == Value(d) * Power10(|e|) + Value(e)
    decreases |e|
  {
    if e == [] {
      assert d + e == d;
    } else {
      var e' := e[..|e| - 1];
      ValueConcat(d, e');
      ValueOfLast(e);
      ValueOfLast(d + e);
      assert (d + e)[..|d + e| - 1] == d + e';
      hide Value, Power10;
      TenTimes(Value(d), |e'|);
    }
  }

  lemma ValueOfLast(d: Text)
    requires AllDigits(d) && d != []
    ensures Value(d) == 10 * Value(d[..|d| - 1]) + (d[|d| - 1] - ZERO)
  {
  }

  lemma TenTimes(v: nat, n: nat)
    ensures v * Power10(n + 1) == 10 * (v * Power10(n))
  {
    var p := Power10(n);
    assert Power10(n + 1) == 10 * p;
    hide Power10;
    assert v * (10 * p) == 10 * (v * p);
  }

  lemma {:induction false} ValueBound(d: Text)
    requires AllDigits(d)
    ensures Value(d) < Power10(|d|)
    ensures |d| > 0 && d[0] != ZERO ==> Value(d) >= Power10(|d| - 1)
    decreases |d|
  {
    if d != [] {
      ValueBound(d[..|d| - 1]);
    }
  }

  lemma {:induction false} AllZeroes(d: Text)
    requires forall i :: 0 <= i < |d| ==> d[i] == ZERO
    ensures AllDigits(d) && Value(d) == 0 && AllDigits(d[|d|..]) && Value(d[|d|..]) == 0
    decreases |d|
  {
    assert d[|d|..] == [];
    if d != [] {
      AllZeroes(d[..|d| - 1]);
    }
  }

  /** Leading zeroes do not change a number. */
  lemma {:induction false} ValueOfZeroes(d: Text, z: nat)
    requires AllDigits(d) && z <= |d| && forall i :: 0 <= i < z ==> d[i] == ZERO
    ensures AllDigits(d[z..]) && Value(d) == Value(d[z..])
    decreases |d|
  {
    hide Value;
    if d == [] {
    } else if z == |d| {
      AllZeroes(d);
    } else {
      var t := d[..|d| - 1];
      ValueOfZeroes(t, z);
      assert t[z..] == d[z..][..|d[z..]| - 1];
      ValueOfLast(d);
      ValueOfLast(d[z..]);
    }
  }

  /** Without leading zeroes, more digits mean a larger number. */
  lemma LongerIsLarger(d: Text, e: Text)
    requires AllDigits(d) && AllDigits(e) && |d| < |e| && e[0] != ZERO
    ensures Value(d) < Value(e)
  {
    ValueBound(d);
    ValueBound(e);
    PowerGrows(|d|, |e| - 1);
  }

  lemma {:induction false} PowerGrows(m: nat, n: nat)
    requires m <= n
    ensures Power10(m) <= Power10(n)
    decreases n
  {
    if m < n {
      PowerGrows(m, n - 1);
    }
  }

  /** With equally many digits, the first difference decides. */
  lemma FirstDifference(d: Text, e: Text, i: nat)
    requires AllDigits(d) && AllDigits(e) && |d| == |e| && i < |d|
    requires d[..i] == e[..i] && d[i] < e[i]
    ensures Value(d) < Value(e)
  {
    var x, y, u, v := d[..i + 1], e[..i + 1], d[i + 1..], e[i + 1..];
    assert d == x + u && e == y + v;
    ValueOfLast(x);
    ValueOfLast(y);
    assert x[..i] == d[..i] && y[..i] == e[..i];
    hide Value, Power10;
    ValueConcat(x, u);
    ValueConcat(y, v);
    ValueBound(u);
    Scale(Value(x), Value(y), Power10(|u|));
  }

  lemma Scale(x: nat, y: nat, p: nat)
    requires x < y
    ensures x * p + p <= y * p
  {
    assert (x + 1) * p <= y * p;
  }

  // ---- The comparison loop ---------------------------------------------------------

  method SkipZeroes(s: Text, start: nat) returns (i: nat)
    requires start <= |s|
    ensures i == start + Zeroes(s[start..])
  {
    i := start;
    while i < |s| && s[i] == ZERO
      invariant start <= i <= |s| && i - start + Zeroes(s[i..]) == Zeroes(s[start..])
    {
      assert s[i..][1..] == s[i + 1..];
      i := i + 1;
    }
  }

  method SkipDigits(s: Text, start: nat) returns (i: nat)
    requires start <= |s|
    ensures i == start + Run(s[start..])
  {
    i := start;
    while i < |s| && IsDigit(s[i])
      invariant start <= i <= |s| && i - start + Run(s[i..]) == Run(s[start..])
    {
      assert s[i..][1..] == s[i + 1..];
      i := i + 1;
    }
  }

  /** What the two scans of a digit run find: its zeroes, and its significant digits. */
  lemma RunParts(s: Text, z: nat, n: nat)
    requires z == Zeroes(s) && n == z + Run(s[z..])
    ensures Run(s) == n && AllDigits(s[..n]) && AllDigits(s[z..n])
    ensures n > z ==> s[z] != ZERO
    ensures Value(s[..n]) == Value(s[z..n])
  {
    hide Value;
    RunFrom(s, z);
    ValueOfZeroes(s[..n], z);
    assert s[..n][z..] == s[z..n];
  }

  /** The same for the run at index i of a, scanned up to start and then to end. */
  lemma ScannedRun(a: Text, i: nat, start: nat, end: nat)
    requires i <= start <= end <= |a|
    requires start == i + Zeroes(a[i..]) && end == start + Run(a[start..])
    ensures end - i == Run(a[i..]) && AllDigits(a[start..end])
    ensures Value(a[i..][..end - i]) == Value(a[start..end])
    ensures end > start ==> a[start] != ZERO
    ensures a[i..][end - i..] == a[end..]
  {
    hide *;
    SliceOfSuffix(a, i, start - i, end - i);
    SliceOfSuffix(a, i, end - i, end - i);
    RunParts(a[i..], start - i, end - i);
  }

  lemma SliceOfSuffix(a: Text, i: nat, x: nat, y: nat)
    requires i + x <= i + y <= |a|
    ensures a[i..][x..y] == a[i + x..i + y] && a[i..][x..] == a[i + x..]
  {
  }

  lemma ThreeParts(s: Text, x: nat, y: nat)
    requires x <= y <= |s|
    ensures s == s[..x] + s[x..y] + s[y..]
  {
  }

  lemma {:induction false} RunFrom(s: Text, z: nat)
    requires z <= Run(s)
    ensures Run(s) == z + Run(s[z..])
    decreases z
  {
    if z == 0 {
      assert s[0..] == s;
    } else {
      RunFrom(s[1..], z - 1);
      assert s[1..][z - 1..] == s[z..];
    }
  }

  /** The digits x of one number against the digits y of another, by length, then digit by
      digit: the result is the order of the two numbers. */
  method CompareDigits(x: Text, y: Text) returns (r: int)
    requires AllDigits(x) && AllDigits(y)
    requires (x != [] ==> x[0] != ZERO) && (y != [] ==> y[0] != ZERO)
    ensures r == Sign(Value(x), Value(y))
    ensures r == 0 ==> x == y
  {
    if |x| < |y| {
      LongerIsLarger(x, y);
      return -1;
    } else if |x| > |y| {
      LongerIsLarger(y, x);
      return 1;
    }
    for i := 0 to |x|
      invariant x[..i] == y[..i]
    {
      if x[i] < y[i] {
        FirstDifference(x, y, i);
        return -1;
      } else if x[i] > y[i] {
        FirstDifference(y, x, i);
        return 1;
      }
      assert x[..i + 1] == x[..i] + [x[i]] && y[..i + 1] == y[..i] + [y[i]];
    }
    assert x == x[..|x|] && y == y[..|y|];
    r := 0;
  }

  lemma NumberHeads(s: Text, t: Text, strict: bool)
    requires s != [] && t != [] && IsDigit(s[0]) && IsDigit(t[0])
    ensures Compare(s, t, strict) ==
            var c := CompareTokens(Number(Value(s[..Run(s)]), Zeroes(s)), Number(Value(t[..Run(t)]), Zeroes(t)),
                                   strict);
            if c != 0 then c else Compare(s[Run(s)..], t[Run(t)..], strict)
  {
    assert Tokens(s)[1..] == Tokens(s[Run(s)..]) && Tokens(t)[1..] == Tokens(t[Run(t)..]);
  }

  lemma RunStarts(s: Text)
    requires s != [] && IsDigit(s[0])
    ensures Run(s) > 0
  {
  }

  lemma OtherHeads(s: Text, t: Text, strict: bool)
    requires s != [] && t != [] && !(IsDigit(s[0]) && IsDigit(t[0]))
    ensures s[0] != t[0] ==> Compare(s, t, strict) == Sign(s[0], t[0])
    ensures s[0] == t[0] ==> Compare(s, t, strict) == Compare(s[1..], t[1..], strict)
  {
    if s[0] == t[0] {
      assert Tokens(s)[1..] == Tokens(s[1..]) && Tokens(t)[1..] == Tokens(t[1..]);
    }
  }

  lemma EmptyTail(s: Text, t: Text, strict: bool)
    requires s == [] || t == []
    ensures Compare(s, t, strict) == Sign(|s|, |t|)
  {
  }

  /** The body of the loop for two runs of digits. */
  method CompareRuns(a: Text, aindex: nat, b: Text, bindex: nat, strict: bool)
      returns (r: int, aend: nat, bend: nat)
    requires aindex < |a| && IsDigit(a[aindex]) && bindex < |b| && IsDigit(b[bindex])
    ensures aindex < aend <= |a| && bindex < bend <= |b|
    ensures r != 0 ==> r == Compare(a[aindex..], b[bindex..], strict)
    ensures r == 0 ==> Compare(a[aindex..], b[bindex..], strict) == Compare(a[aend..], b[bend..], strict)
  {
    hide Compare, Value, Run, Zeroes;
    NumberHeads(a[aindex..], b[bindex..], strict);
    var astart := SkipZeroes(a, aindex);
    var bstart := SkipZeroes(b, bindex);
    var azeroes, bzeroes := astart - aindex, bstart - bindex;
    aend := SkipDigits(a, astart);
    bend := SkipDigits(b, bstart);
    ScannedRun(a, aindex, astart, aend);
    ScannedRun(b, bindex, bstart, bend);
    RunStarts(a[aindex..]);
    RunStarts(b[bindex..]);
    r := CompareDigits(a[astart..aend], b[bstart..bend]);
    if r == 0 && strict && azeroes != bzeroes {
      r := if azeroes > bzeroes then -1 else 1;
    }
  }

  method AutoDigitStrCmp(a: Text, b: Text, strict: bool) returns (r: int)
    ensures r == Compare(a, b, strict)
  {
    hide Compare;
    var aindex, bindex := 0, 0;
    while aindex < |a| && bindex < |b|
      invariant aindex <= |a| && bindex <= |b|
      invariant Compare(a[aindex..], b[bindex..], strict) == Compare(a, b, strict)
      decreases |a| - aindex
    {
      ghost var s, t := a[aindex..], b[bindex..];
      if IsDigit(a[aindex]) && IsDigit(b[bindex]) {
        var aend, bend;
        r, aend, bend := CompareRuns(a, aindex, b, bindex, strict);
        if r != 0 {
          return;
        }
        aindex, bindex := aend, bend;
      } else {
        OtherHeads(s, t, strict);
        if a[aindex] < b[bindex] {
          return -1;
        } else if a[aindex] > b[bindex] {
          return 1;
        }
        assert s[1..] == a[aindex + 1..] && t[1..] == b[bindex + 1..];
        aindex, bindex := aindex + 1, bindex + 1;
      }
    }
    EmptyTail(a[aindex..], b[bindex..], strict);
    r := if aindex < |a| then 1 else if bindex < |b| then -1 else 0;
  }

  // ---- It is an order --------------------------------------------------------------

  lemma TokenOrder(x: Token, y: Token, z: Token, strict: bool)
    requires GoodToken(x) && GoodToken(y) && GoodToken(z)
    ensures CompareTokens(x, y, strict) == -CompareTokens(y, x, strict)
    ensures var (p, q, r) := (CompareTokens(x, y, strict), CompareTokens(y, z, strict), CompareTokens(x, z, strict));
            p <= 0 && q <= 0 ==> r <= 0 && (r == 0 <==> p == 0 && q == 0)
  {
  }

  lemma {:induction false} LexicographicAntisymmetric(xs: seq<Token>, ys: seq<Token>, strict: bool)
    requires GoodTokens(xs) && GoodTokens(ys)
    ensures Lexicographic(xs, ys, strict) == -Lexicographic(ys, xs, strict)
    decreases |xs|
  {
    if xs != [] && ys != [] {
      TokenOrder(xs[0], ys[0], ys[0], strict);
      LexicographicAntisymmetric(xs[1..], ys[1..], strict);
    }
  }

  lemma {:induction false} LexicographicTransitive(xs: seq<Token>, ys: seq<Token>, zs: seq<Token>, strict: bool)
    requires GoodTokens(xs) && GoodTokens(ys) && GoodTokens(zs)
    requires Lexicographic(xs, ys, strict) <= 0 && Lexicographic(ys, zs, strict) <= 0
    ensures Lexicographic(xs, zs, strict) <= 0
    ensures Lexicographic(xs, zs, strict) == 0 <==>
            Lexicographic(xs, ys, strict) == 0 && Lexicographic(ys, zs, strict) == 0
    decreases |xs|
  {
    if xs != [] && ys != [] && zs != [] {
      TokenOrder(xs[0], ys[0], zs[0], strict);
      TokenOrder(zs[0], xs[0], ys[0], strict);
      TokenOrder(ys[0], zs[0], xs[0], strict);
      hide CompareTokens;
      if CompareTokens(xs[0], ys[0], strict) == 0 && CompareTokens(ys[0], zs[0], strict) == 0 {
        LexicographicTransitive(xs[1..], ys[1..], zs[1..], strict);
      }
    }
  }

  /** In both modes the comparison is a weak order: antisymmetric and transitive, and strings
      that tie are interchangeable. */
  lemma WeakOrder(a: Text, b: Text, c: Text, strict: bool)
    ensures Compare(a, b, strict) == -Compare(b, a, strict)
    ensures Compare(a, b, strict) <= 0 && Compare(b, c, strict) <= 0 ==>
              && Compare(a, c, strict) <= 0
              && (Compare(a, c, strict) == 0 <==> Compare(a, b, strict) == 0 && Compare(b, c, strict) == 0)
  {
    LexicographicAntisymmetric(Tokens(a), Tokens(b), strict);
    if Compare(a, b, strict) <= 0 && Compare(b, c, strict) <= 0 {
      LexicographicTransitive(Tokens(a), Tokens(b), Tokens(c), strict);
    }
  }

  // ---- Which strings tie -----------------------------------------------------------

  /** The decimal digits of a number, none for zero. */
  function Numeral(v: nat): Text {
    if v == 0 then [] else Numeral(v / 10) + [ZERO + v % 10]
  }

  lemma {:induction false} NumeralOfValue(d: Text)
    requires AllDigits(d) && (d != [] ==> d[0] != ZERO)
    ensures Numeral(Value(d)) == d
    decreases |d|
  {
    if d != [] {
      var front, last := d[..|d| - 1], d[|d| - 1] - ZERO;
      NumeralOfValue(front);
      ValueBound(d);
      LastDigit(Value(front), last);
      hide Value, Power10;
      assert d == front + [ZERO + last];
    }
  }

  lemma LastDigit(v: nat, last: nat)
    requires last < 10 && 10 * v + last > 0
    ensures Numeral(10 * v + last) == Numeral(v) + [ZERO + last]
  {
  }

  function Render(ts: seq<Token>): Text {
    if ts == [] then []
    else (match ts[0] case Char(c) => [c] case Number(v, z) => seq(z, _ => ZERO) + Numeral(v)) + Render(ts[1..])
  }

  /** No information is lost in the tokens. */
  lemma {:induction false} RenderTokens(s: Text)
    ensures Render(Tokens(s)) == s
    decreases |s|
  {
    if s != [] {
      if IsDigit(s[0]) {
        NumberText(s);
        hide Value, Numeral, Run, Zeroes;
        RunStarts(s);
        assert Tokens(s)[1..] == Tokens(s[Run(s)..]);
        RenderTokens(s[Run(s)..]);
      } else {
        assert Tokens(s)[1..] == Tokens(s[1..]);
        RenderTokens(s[1..]);
      }
    }
  }

  lemma NumberText(s: Text)
    ensures s == seq(Zeroes(s), _ => ZERO) + Numeral(Value(s[..Run(s)])) + s[Run(s)..]
  {
    hide Value, Numeral, Run, Zeroes;
    var z, n := Zeroes(s), Run(s);
    RunFrom(s, z);
    RunParts(s, z, n);
    NumeralOfValue(s[z..n]);
    ThreeParts(s, z, n);
    assert s[..z] == seq(z, _ => ZERO);
  }

  lemma {:induction false} StrictTie(xs: seq<Token>, ys: seq<Token>)
    requires GoodTokens(xs) && GoodTokens(ys)
    ensures Lexicographic(xs, ys, true) == 0 <==> xs == ys
    decreases |xs|
  {
    if xs != [] && ys != [] {
      StrictTie(xs[1..], ys[1..]);
      assert xs == [xs[0]] + xs[1..] && ys == [ys[0]] + ys[1..];
    }
  }

  /** In strict mode only identical strings compare equal, so the order is total. */
  lemma StrictIsTotal(a: Text, b: Text)
    ensures Compare(a, b, true) == 0 <==> a == b
  {
    StrictTie(Tokens(a), Tokens(b));
    RenderTokens(a);
    RenderTokens(b);
  }

  /** Delete every zero that begins a run of digits and is not alone in it. */
  function DropZeroes(s: Text, inside: bool): Text {
    if s == [] then []
    else if !inside && s[0] == ZERO && |s| > 1 && IsDigit(s[1]) then DropZeroes(s[1..], false)
    else [s[0]] + DropZeroes(s[1..], IsDigit(s[0]))
  }

  function Plain(ts: seq<Token>): (ps: seq<Token>)
    ensures |ps| == |ts|
  {
    if ts == [] then []
    else [if ts[0].Char? then ts[0] else Number(ts[0].value, if ts[0].value == 0 then 1 else 0)] + Plain(ts[1..])
  }

  lemma {:induction false} NonStrictTie(xs: seq<Token>, ys: seq<Token>)
    requires GoodTokens(xs) && GoodTokens(ys)
    ensures Lexicographic(xs, ys, false) == 0 <==> Plain(xs) == Plain(ys)
    decreases |xs|
  {
    if xs != [] && ys != [] {
      NonStrictTie(xs[1..], ys[1..]);
      assert Plain(xs)[1..] == Plain(xs[1..]) && Plain(ys)[1..] == Plain(ys[1..]);
      assert Plain(xs) == [Plain(xs)[0]] + Plain(xs)[1..] && Plain(ys) == [Plain(ys)[0]] + Plain(ys)[1..];
    }
  }

  /** Inside a run, or at its significant digits, nothing is dropped until the run ends. */
  lemma {:induction false} DropInRun(s: Text, n: nat, inside: bool)
    requires n == Run(s) && (n > 0 && !inside ==> s[0] != ZERO)
    ensures DropZeroes(s, inside) == s[..n] + DropZeroes(s[n..], false)
    decreases n
  {
    if n == 0 {
      assert s[0..] == s;
    } else {
      DropInRun(s[1..], n - 1, true);
      assert s[1..][n - 1..] == s[n..] && s[..n] == [s[0]] + s[1..][..n - 1];
    }
  }

  /** The run at the start of s without its leading zeroes, but with at least one digit. */
  function Core(s: Text): (core: Text)
    ensures Run(s) > 0 ==> core != []
  {
    if Zeroes(s) == Run(s) then [ZERO] else s[Zeroes(s)..Run(s)]
  }

  lemma CoreStart(s: Text)
    requires s != [] && IsDigit(s[0])
    ensures Run(s) == Run(s[1..]) + 1 && s[Run(s)..] == s[1..][Run(s[1..])..]
    ensures s[0] != ZERO ==> Core(s) == s[..Run(s)]
  {
    RunCases(s);
    hide Run, Zeroes;
    SliceOfSuffix(s, 1, Run(s) - 1, Run(s) - 1);
  }

  lemma CoreAfterZero(s: Text)
    requires s != [] && s[0] == ZERO
    ensures Core(s) == if Run(s) > 1 then Core(s[1..]) else [ZERO]
  {
    hide Run, Zeroes, Core;
    var t := s[1..];
    RunCases(s);
    CoreIs(s);
    CoreIs(t);
    if Zeroes(t) < Run(t) {
      SliceOfSuffix(s, 1, Zeroes(t), Run(t));
    }
  }

  lemma CoreIs(s: Text)
    ensures Core(s) == if Zeroes(s) == Run(s) then [ZERO] else s[Zeroes(s)..Run(s)]
  {
    hide Run, Zeroes;
  }

  lemma RunCases(s: Text)
    requires s != [] && IsDigit(s[0])
    ensures Run(s) == Run(s[1..]) + 1
    ensures Zeroes(s) == if s[0] == ZERO then Zeroes(s[1..]) + 1 else 0
  {
  }

  lemma RunIsOne(s: Text)
    requires s != [] && IsDigit(s[0])
    ensures Run(s) == 1 <==> |s| == 1 || !IsDigit(s[1])
  {
  }

  lemma {:induction false} DropRun(s: Text)
    requires s != [] && IsDigit(s[0])
    ensures DropZeroes(s, false) == Core(s) + DropZeroes(s[Run(s)..], false)
    decreases |s|
  {
    hide Run, Zeroes, Core;
    CoreStart(s);
    RunIsOne(s);
    if s[0] != ZERO {
      DropInRun(s, Run(s), false);
    } else if |s| > 1 && IsDigit(s[1]) {
      CoreAfterZero(s);
      DropRun(s[1..]);
    } else {
      CoreAfterZero(s);
      DropInRun(s[1..], 0, true);
      assert s[1..][..0] == [] && s[1..][0..] == s[1..];
    }
  }

  lemma {:induction false} RunOfConcat(d: Text, t: Text)
    requires AllDigits(d) && (t != [] ==> !IsDigit(t[0]))
    ensures Run(d + t) == |d|
    decreases |d|
  {
    if d == [] {
      assert d + t == t;
    } else {
      assert (d + t)[1..] == d[1..] + t;
      RunOfConcat(d[1..], t);
    }
  }

  lemma DropHead(s: Text)
    requires s != [] ==> !IsDigit(s[0])
    ensures DropZeroes(s, false) != [] ==> !IsDigit(DropZeroes(s, false)[0])
  {
  }

  lemma TokenOfRun(core: Text, t: Text)
    requires core != [] && AllDigits(core) && (t != [] ==> !IsDigit(t[0]))
    ensures Tokens(core + t) == [Number(Value(core), Zeroes(core + t))] + Tokens(t)
  {
    RunOfConcat(core, t);
    hide Value, Run, Zeroes;
    assert (core + t)[..|core|] == core && (core + t)[|core|..] == t;
  }

  lemma CoreFacts(s: Text)
    requires s != [] && IsDigit(s[0])
    ensures AllDigits(Core(s)) && AllDigits(s[..Run(s)]) && Value(Core(s)) == Value(s[..Run(s)])
    ensures Core(s) == [ZERO] || Core(s)[0] != ZERO
    ensures Core(s) == [ZERO] <==> Value(Core(s)) == 0
  {
    hide Value, Run, Zeroes, Power10;
    var z, n := Zeroes(s), Run(s);
    RunFrom(s, z);
    RunParts(s, z, n);
    ZeroValue();
    if z == n {
      assert s[z..n] == [];
    } else {
      ValueBound(s[z..n]);
    }
  }

  /** Dropping the zeroes of one number. */
  lemma PlainNumber(s: Text)
    requires s != [] && IsDigit(s[0])
    ensures var n := Run(s);
            Tokens(DropZeroes(s, false))
            == Plain([Number(Value(s[..n]), Zeroes(s))]) + Tokens(DropZeroes(s[n..], false))
  {
    hide *;
    var t := DropZeroes(s[Run(s)..], false);
    RunStarts(s);
    DropRun(s);
    DropHead(s[Run(s)..]);
    CoreFacts(s);
    PlainOne(Value(s[..Run(s)]), Zeroes(s));
    TokenOfRun(Core(s), t);
    PlainZeroes(Core(s), t);
  }

  lemma PlainOne(v: nat, z: nat)
    ensures Plain([Number(v, z)]) == [Number(v, if v == 0 then 1 else 0)]
  {
  }

  lemma ZeroValue()
    ensures Value([]) == 0 && Value([ZERO]) == 0
  {
    assert [ZERO][..0] == [];
  }

  lemma PlainZeroes(core: Text, t: Text)
    requires core == [ZERO] || (core != [] && core[0] != ZERO)
    requires t != [] ==> !IsDigit(t[0])
    ensures Zeroes(core + t) == if core == [ZERO] then 1 else 0
  {
    if core == [ZERO] {
      assert (core + t)[1..] == t;
    }
  }

  lemma {:induction false} TokensOfDropped(s: Text)
    ensures Tokens(DropZeroes(s, false)) == Plain(Tokens(s))
    decreases |s|
  {
    hide Value, Numeral;
    if s != [] {
      var ts := Tokens(s);
      if IsDigit(s[0]) {
        PlainNumber(s);
        TokensOfDropped(s[Run(s)..]);
        assert ts[1..] == Tokens(s[Run(s)..]);
      } else {
        var d := DropZeroes(s, false);
        TokensOfDropped(s[1..]);
        assert ts[1..] == Tokens(s[1..]) && d[1..] == DropZeroes(s[1..], false);
      }
    }
  }

  /** In non-strict mode the strings that compare equal are those that are the same up to the
      leading zeroes of their runs of digits. */
  lemma TiesDifferInZeroes(a: Text, b: Text)
    ensures Compare(a, b, false) == 0 <==> DropZeroes(a, false) == DropZeroes(b, false)
  {
    NonStrictTie(Tokens(a), Tokens(b));
    TokensOfDropped(a);
    TokensOfDropped(b);
    RenderTokens(DropZeroes(a, false));
    RenderTokens(DropZeroes(b, false));
  }

  // ---- Which string comes first ----------------------------------------------------

  /** No run of digits reaches from x into y. */
  predicate Apart(x: Text, y: Text) {
    x == [] || y == [] || !IsDigit(x[|x| - 1]) || !IsDigit(y[0])
  }

  lemma {:induction false} ZeroesOfConcat(s: Text, t: Text)
    requires t == [] || t[0] != ZERO || Zeroes(s) < |s|
    ensures Zeroes(s + t) == Zeroes(s)
    decreases |s|
  {
    if s == [] {
      assert s + t == t;
    } else {
      assert (s + t)[1..] == s[1..] + t;
      if s[0] == ZERO {
        ZeroesOfConcat(s[1..], t);
      }
    }
  }

  /** The first run of p is the first run of p + s. */
  lemma RunKept(p: Text, s: Text)
    requires Apart(p, s) && p != [] && IsDigit(p[0])
    ensures var n := Run(p);
            && Run(p + s) == n > 0 && Zeroes(p + s) == Zeroes(p)
            && (p + s)[..n] == p[..n] && (p + s)[n..] == p[n..] + s && Apart(p[n..], s)
  {
    hide Run, Zeroes;
    RunIsPositive(p);
    SplitConcat(p, s, Run(p));
    RunOfBoth(p, s);
    ZeroesOfConcat(p, s);
    hide Apart;
    ApartAfter(p, s, Run(p));
  }

  lemma ApartAfter(p: Text, s: Text, n: nat)
    requires Apart(p, s) && n <= |p|
    ensures Apart(p[n..], s)
  {
  }

  lemma RunOfBoth(p: Text, s: Text)
    requires Apart(p, s) && p != []
    ensures Run(p + s) == Run(p)
  {
    hide Run;
    var n := Run(p);
    SplitConcat(p, s, n);
    AfterRun(p, s, n);
    RunOfConcat(p[..n], p[n..] + s);
  }

  lemma AfterRun(p: Text, s: Text, n: nat)
    requires Apart(p, s) && p != [] && n <= |p| && (n < |p| ==> !IsDigit(p[n]))
    requires forall i :: 0 <= i < n ==> IsDigit(p[i])
    ensures AllDigits(p[..n]) && (p[n..] + s != [] ==> !IsDigit((p[n..] + s)[0]))
  {
    if n < |p| {
      assert (p[n..] + s)[0] == p[n];
    } else {
      assert p[n..] + s == s;
    }
  }

  lemma RunIsPositive(p: Text)
    requires p != [] && IsDigit(p[0])
    ensures Run(p) > 0
  {
  }

  lemma SplitConcat(p: Text, s: Text, n: nat)
    requires n <= |p|
    ensures p + s == p[..n] + (p[n..] + s) && (p + s)[..n] == p[..n] && (p + s)[n..] == p[n..] + s
  {
  }

  lemma {:induction false} TokensConcat(p: Text, s: Text)
    requires Apart(p, s)
    ensures Tokens(p + s) == Tokens(p) + Tokens(s)
    decreases |p|
  {
    hide Run, Zeroes, Value;
    if p == [] {
      assert p + s == s;
    } else if IsDigit(p[0]) {
      RunKept(p, s);
      TokensConcat(p[Run(p)..], s);
    } else {
      assert (p + s)[1..] == p[1..] + s;
      TokensConcat(p[1..], s);
    }
  }

  lemma {:induction false} SameStart(ps: seq<Token>, xs: seq<Token>, ys: seq<Token>, strict: bool)
    ensures Lexicographic(ps + xs, ps + ys, strict) == Lexicographic(xs, ys, strict)
    decreases |ps|
  {
    if ps == [] {
      assert ps + xs == xs && ps + ys == ys;
    } else {
      assert (ps + xs)[1..] == ps[1..] + xs && (ps + ys)[1..] == ps[1..] + ys;
      SameStart(ps[1..], xs, ys, strict);
    }
  }

  lemma CompareAfter(p: Text, a: Text, b: Text, strict: bool)
    requires Apart(p, a) && Apart(p, b)
    ensures Compare(p + a, p + b, strict) == Compare(a, b, strict)
  {
    TokensConcat(p, a);
    TokensConcat(p, b);
    SameStart(Tokens(p), Tokens(a), Tokens(b), strict);
  }

  lemma {:induction false} NumeralFacts(v: nat)
    ensures AllDigits(Numeral(v)) && Value(Numeral(v)) == v
    ensures v > 0 ==> Numeral(v) != [] && Numeral(v)[0] != ZERO
    decreases v
  {
    if v > 0 {
      var d := Numeral(v);
      NumeralFacts(v / 10);
      assert d[..|d| - 1] == Numeral(v / 10);
      if v < 10 {
        assert Numeral(0) == [] && d == [ZERO + v];
      }
    }
  }

  /** A number written with any number of zeroes in front. */
  function Decimal(v: nat, zeroes: nat): Text {
    seq(zeroes, _ => ZERO) + Numeral(v)
  }

  lemma DecimalValue(v: nat, zeroes: nat)
    ensures AllDigits(Decimal(v, zeroes)) && Value(Decimal(v, zeroes)) == v
  {
    var d := Decimal(v, zeroes);
    NumeralFacts(v);
    hide Numeral, Value;
    forall i | 0 <= i < |d| ensures IsDigit(d[i]) {
      assert i >= zeroes ==> d[i] == Numeral(v)[i - zeroes];
    }
    assert d[zeroes..] == Numeral(v);
    ValueOfZeroes(d, zeroes);
  }

  lemma {:induction false} DecimalZeroes(v: nat, zeroes: nat, t: Text)
    requires t != [] ==> !IsDigit(t[0])
    ensures Zeroes(Decimal(v, zeroes) + t) == zeroes
    decreases zeroes
  {
    hide Numeral, Value, Zeroes, Decimal;
    var s := Decimal(v, zeroes) + t;
    if zeroes == 0 {
      DecimalStart(v, t);
    } else {
      DecimalStep(v, zeroes, t);
      DecimalZeroes(v, zeroes - 1, t);
    }
    ZeroesCases(s);
  }

  lemma DecimalStart(v: nat, t: Text)
    requires t != [] ==> !IsDigit(t[0])
    ensures var s := Decimal(v, 0) + t; s == [] || s[0] != ZERO
  {
    NumeralFacts(v);
    NumeralOfZero();
    hide Numeral, Value;
    assert Decimal(v, 0) == Numeral(v);
    assert v > 0 ==> (Numeral(v) + t)[0] == Numeral(v)[0];
    assert [] + t == t;
  }

  lemma DecimalStep(v: nat, zeroes: nat, t: Text)
    requires zeroes > 0
    ensures var s := Decimal(v, zeroes) + t;
            s != [] && s[0] == ZERO && s[1..] == Decimal(v, zeroes - 1) + t
  {
    hide Numeral;
  }

  lemma ZeroesCases(s: Text)
    ensures Zeroes(s) == if s == [] || s[0] != ZERO then 0 else Zeroes(s[1..]) + 1
  {
  }

  lemma NumeralOfZero()
    ensures Numeral(0) == []
  {
  }

  lemma TokenOfDecimal(v: nat, zeroes: nat, t: Text)
    requires v > 0 || zeroes > 0
    requires t != [] ==> !IsDigit(t[0])
    ensures Decimal(v, zeroes) != [] && IsDigit(Decimal(v, zeroes)[0])
    ensures Tokens(Decimal(v, zeroes) + t) == [Number(v, zeroes)] + Tokens(t)
  {
    NumeralFacts(v);
    hide Numeral, Value, Run, Zeroes;
    assert Decimal(v, zeroes) != [];
    DecimalValue(v, zeroes);
    DecimalZeroes(v, zeroes, t);
    TokenOfRun(Decimal(v, zeroes), t);
  }

  /** The smaller number comes first, whatever stands before and after it and however many zeroes
      are in front; in strict mode more zeroes in front of the same number come first. */
  lemma SmallerNumberFirst(p: Text, v: nat, m: nat, x: Text, w: nat, n: nat, y: Text, strict: bool)
    requires (v > 0 || m > 0) && (w > 0 || n > 0) && (p != [] ==> !IsDigit(p[|p| - 1]))
    requires (x != [] ==> !IsDigit(x[0])) && (y != [] ==> !IsDigit(y[0]))
    ensures v < w ==> Compare(p + (Decimal(v, m) + x), p + (Decimal(w, n) + y), strict) == -1
    ensures v == w && m > n ==> Compare(p + (Decimal(v, m) + x), p + (Decimal(w, n) + y), true) == -1
  {
    hide Decimal;
    TokenOfDecimal(v, m, x);
    TokenOfDecimal(w, n, y);
    CompareAfter(p, Decimal(v, m) + x, Decimal(w, n) + y, strict);
    CompareAfter(p, Decimal(v, m) + x, Decimal(w, n) + y, true);
  }

  /** Where two strings first differ, and not within a number, their characters decide. */
  lemma CharactersDecide(p: Text, c: int, x: Text, d: int, y: Text, strict: bool)
    requires c != d && !(IsDigit(c) && IsDigit(d)) && Apart(p, [c] + x) && Apart(p, [d] + y)
    ensures Compare(p + ([c] + x), p + ([d] + y), strict) == if c < d then -1 else 1
  {
    hide Value, Run, Zeroes;
    CompareAfter(p, [c] + x, [d] + y, strict);
  }

  /** A string comes before what it begins, unless a number goes on. */
  lemma PrefixFirst(p: Text, x: Text, strict: bool)
    requires x != [] && Apart(p, x)
    ensures Compare(p, p + x, strict) == -1
  {
    CompareAfter(p, [], x, strict);
    assert p + [] == p;
    assert Tokens(x) != [];
  }
}
