/** The alternatives of a usage message as a number system.

    Every argp whose args_doc has several lines owns one byte of a vector, in
    preorder. Printing a usage line advances the vector like an odometer whose
    digits are ordered in postorder, the children before their parent. */
module UsageCount {
  import opened Wrappers
  import opened ArgpTree
  import opened Arithmetic

  // ---- args_doc lines ----

  /** __strchrnul for a newline: its first position at or after from, or the
      end of the string. */
  function NextNl(s: string, from: nat): (n: nat)
    requires from <= |s|
    ensures from <= n <= |s| && (n < |s| ==> s[n] == '\n')
    ensures '\n' !in s[from..n]
    decreases |s| - from
  {
    if from == |s| || s[from] == '\n' then from else NextNl(s, from + 1)
  }

  function LinesFrom(s: string, from: nat): (r: seq<string>)
    requires from <= |s|
    ensures |r| >= 1
    decreases |s| - from
  {
    var n := NextNl(s, from);
    [s[from..n]] + if n == |s| then [] else LinesFrom(s, n + 1)
  }

  /** The lines, with the newlines between them. */
  function Joined(ls: seq<string>): string {
    if ls == [] then ""
    else if |ls| == 1 then ls[0]
    else ls[0] + "\n" + Joined(ls[1..])
  }

  /** The lines are the parts of the text between its newlines. */
  lemma {:induction false} LinesJoin(s: string, from: nat)
    requires from <= |s|
    ensures Joined(LinesFrom(s, from)) == s[from..]
    decreases |s| - from
  {
    hide NextNl, Joined;
    var n := NextNl(s, from);
    if n < |s| {
      LinesJoin(s, n + 1);
      JoinedMore(s[from..n], LinesFrom(s, n + 1));
      hide LinesFrom;
      CutAt(s, from, n);
    } else {
      JoinedOne(s[from..n]);
      assert LinesFrom(s, from) == [s[from..n]];
      assert s[from..n] == s[from..];
    }
  }

  lemma {:induction false} LinesAreWhole(s: string, from: nat)
    requires from <= |s|
    ensures forall i :: 0 <= i < |LinesFrom(s, from)| ==> '\n' !in LinesFrom(s, from)[i]
    decreases |s| - from
  {
    hide NextNl;
    var n := NextNl(s, from);
    if n < |s| {
      LinesAreWhole(s, n + 1);
    }
  }

  lemma CutAt(s: string, from: nat, n: nat)
    requires from <= n < |s| && s[n] == '\n'
    ensures s[from..] == s[from..n] + "\n" + s[n + 1..]
  {}

  lemma JoinedOne(l: string)
    ensures Joined([l]) == l
  {}

  lemma JoinedMore(l: string, ls: seq<string>)
    requires |ls| >= 1
    ensures Joined([l] + ls) == l + "\n" + Joined(ls)
  {
    assert ([l] + ls)[1..] == ls;
  }

  /** The alternatives an argp offers; one that prints nothing without a doc. */
  function Lines(a: Argp): (r: seq<string>)
    ensures |r| >= 1
  {
    if a.argsDoc.Some? then LinesFrom(a.argsDoc.value, 0) else [""]
  }

  predicate Multiple(a: Argp) {
    a.argsDoc.Some? && '\n' in a.argsDoc.value
  }

  lemma MultipleMeansLines(a: Argp)
    ensures Multiple(a) <==> |Lines(a)| > 1
  {
    if a.argsDoc.Some? {
      var s := a.argsDoc.value;
      var n := NextNl(s, 0);
      assert n == |s| ==> s[0..n] == s;
    }
  }

  // ---- slots ----

  /** argp_args_levels. */
  function Slots(a: Argp): nat
    decreases a, 1
  {
    (if Multiple(a) then 1 else 0) + SlotsKids(a.children)
  }

  function SlotsKids(cs: seq<Child>): nat
    decreases cs, 0
  {
    if cs == [] then 0 else Slots(First(cs)) + SlotsKids(cs[1..])
  }

  /** The slots are of type char, signed and eight bits wide. */
  const CHAR_MAX := 127

  function ToChar(l: int): int {
    if l > CHAR_MAX then l - 2 * (CHAR_MAX + 1) else l
  }

  /** What is stored in a slot is the only number of eight bits that is the same
      modulo 256. */
  lemma CharIs(l: int, r: int)
    requires -128 <= l <= 128
    ensures ToChar(l) == r <==> -128 <= r <= 127 && (r - l) % 256 == 0
  {}

  /** The alternative a level selects: as many lines are skipped as it says. */
  function Shown(l: int): nat {
    if l < 0 then 0 else l
  }

  function Own(a: Argp): nat {
    if Multiple(a) then 1 else 0
  }

  predicate IsLevel(l: int) {
    -CHAR_MAX - 1 <= l <= CHAR_MAX
  }

  /** A slice of the vector that fits an argp: chars that select lines. */
  predicate Fits(a: Argp, v: seq<int>)
    decreases a, 1
  {
    && |v| == Slots(a)
    && (Multiple(a) ==> IsLevel(v[0]) && Shown(v[0]) < |Lines(a)|)
    && FitsKids(a.children, v[Own(a)..])
  }

  predicate FitsKids(cs: seq<Child>, v: seq<int>)
    decreases cs, 0
  {
    && |v| == SlotsKids(cs)
    && (cs != [] ==> Fits(First(cs), v[..Slots(First(cs))]) && FitsKids(cs[1..], v[Slots(First(cs))..]))
  }

  /** What one usage line shows: the selected line of every argp that has a
      doc, in preorder. */
  function Pick(a: Argp, v: seq<int>): seq<string>
    requires Fits(a, v)
    decreases a, 1
  {
    (if a.argsDoc.None? then [] else if Multiple(a) then [Lines(a)[Shown(v[0])]] else [Lines(a)[0]])
    + PickKids(a.children, v[Own(a)..])
  }

  function PickKids(cs: seq<Child>, v: seq<int>): seq<string>
    requires FitsKids(cs, v)
    decreases cs, 0
  {
    if cs == [] then []
    else
      var n := Slots(First(cs));
      Pick(First(cs), v[..n]) + PickKids(cs[1..], v[n..])
  }

  /** The new slot values, and whether the advance is passed on. */
  datatype Turn = Turn(levels: seq<int>, advance: bool)

  function Step(a: Argp, v: seq<int>, advance: bool): (t: Turn)
    requires Fits(a, v)
    ensures |t.levels| == |v|
    decreases a, 1
  {
    var kids := StepKids(a.children, v[Own(a)..], advance);
    if !Multiple(a) then kids
    else if !kids.advance then Turn([v[0]] + kids.levels, false)
    else if Shown(v[0]) < |Lines(a)| - 1 then Turn([ToChar(v[0] + 1)] + kids.levels, false)
    else Turn([if v[0] > 0 then 0 else v[0]] + kids.levels, true)
  }

  function StepKids(cs: seq<Child>, v: seq<int>, advance: bool): (t: Turn)
    requires FitsKids(cs, v)
    ensures |t.levels| == |v|
    decreases cs, 0
  {
    if cs == [] then Turn([], advance)
    else
      var n := Slots(First(cs));
      var head := Step(First(cs), v[..n], advance);
      var tail := StepKids(cs[1..], v[n..], head.advance);
      Turn(head.levels + tail.levels, tail.advance)
  }

  // ---- arithmetic of two digits ----

  function Times(c: nat, d: nat): nat {
    c * d
  }

  /** A number written with a low digit x in base c and a high digit y. */
  function Mixed(x: nat, c: nat, y: nat): nat {
    x + c * y
  }

  function Low(v: nat, c: nat): nat
    requires c >= 1
  {
    v % c
  }

  function High(v: nat, c: nat): nat
    requires c >= 1
  {
    v / c
  }

  lemma TimesPositive(x: nat, y: nat)
    requires x >= 1 && y >= 1
    ensures Times(x, y) >= 1
  {}

  lemma MulMonotone(c: nat, y: nat, z: nat)
    requires y <= z
    ensures c * y <= c * z && (y < z ==> c * y + c <= c * z)
  {
    if y < z {
      MulStep(y, z, c);
      assert c * y == y * c && c * z == z * c;
    }
  }

  lemma MixedBound(x: nat, c: nat, y: nat, d: nat)
    requires x < c && y < d
    ensures Mixed(x, c, y) < Times(c, d)
    ensures x + 1 < c || y + 1 < d ==> Mixed(x, c, y) + 1 < Times(c, d)
    ensures x + 1 == c && y + 1 == d ==> Mixed(x, c, y) + 1 == Times(c, d)
  {
    MulMonotone(c, y, d);
    if y + 1 < d {
      MulMonotone(c, y + 1, d);
      assert c * (y + 1) == c * y + c;
    } else {
      assert c * d == c * y + c;
    }
  }

  lemma MixedUnique(x: nat, c: nat, y: nat, x': nat, y': nat)
    requires x < c && x' < c && Mixed(x, c, y) == Mixed(x', c, y')
    ensures x == x' && y == y'
  {
    if y < y' {
      MulMonotone(c, y, y');
    } else if y' < y {
      MulMonotone(c, y', y);
    }
  }

  lemma MixedSplit(v: nat, c: nat, d: nat)
    requires c >= 1 && v < Times(c, d)
    ensures Low(v, c) < c && High(v, c) < d && Mixed(Low(v, c), c, High(v, c)) == v
  {
    if d <= v / c {
      MulMonotone(c, d, v / c);
    }
  }

  lemma MixedZero(c: nat)
    ensures Mixed(0, c, 0) == 0
  {}

  // ---- the value of a vector ----

  function Combos(a: Argp): (c: nat)
    ensures c >= 1
    decreases a, 1
  {
    TimesPositive(CombosKids(a.children), |Lines(a)|);
    Times(CombosKids(a.children), |Lines(a)|)
  }

  function CombosKids(cs: seq<Child>): (c: nat)
    ensures c >= 1
    decreases cs, 0
  {
    if cs == [] then 1
    else
      TimesPositive(Combos(First(cs)), CombosKids(cs[1..]));
      Times(Combos(First(cs)), CombosKids(cs[1..]))
  }

  function Digit(a: Argp, v: seq<int>): nat
    requires Fits(a, v)
  {
    if Multiple(a) then Shown(v[0]) else 0
  }

  /** No slot is negative. */
  predicate Proper(v: seq<int>) {
    forall i :: 0 <= i < |v| ==> v[i] >= 0
  }

  function Val(a: Argp, v: seq<int>): nat
    requires Fits(a, v)
    decreases a, 1
  {
    Mixed(ValKids(a.children, v[Own(a)..]), CombosKids(a.children), Digit(a, v))
  }

  function ValKids(cs: seq<Child>, v: seq<int>): nat
    requires FitsKids(cs, v)
    decreases cs, 0
  {
    if cs == [] then 0
    else
      var n := Slots(First(cs));
      Mixed(Val(First(cs), v[..n]), Combos(First(cs)), ValKids(cs[1..], v[n..]))
  }

  // ---- the odometer ----

  /** Every argp has at most as many alternatives as a char has values from 0. */
  predicate SmallDocs(a: Argp)
    decreases a, 1
  {
    |Lines(a)| <= CHAR_MAX + 1 && SmallDocsKids(a.children)
  }

  predicate SmallDocsKids(cs: seq<Child>)
    decreases cs, 0
  {
    cs == [] || (SmallDocs(First(cs)) && SmallDocsKids(cs[1..]))
  }

  lemma {:induction false} ValBound(a: Argp, v: seq<int>)
    requires Fits(a, v) && Proper(v)
    ensures Val(a, v) < Combos(a)
    decreases a, 1
  {
    hide Times, Mixed, Low, High;
    ValBoundKids(a.children, v[Own(a)..]);
    MixedBound(ValKids(a.children, v[Own(a)..]), CombosKids(a.children), Digit(a, v), |Lines(a)|);
  }

  lemma {:induction false} ValBoundKids(cs: seq<Child>, v: seq<int>)
    requires FitsKids(cs, v) && Proper(v)
    ensures ValKids(cs, v) < CombosKids(cs)
    decreases cs, 0
  {
    hide Times, Mixed, Low, High;
    if cs != [] {
      var n := Slots(First(cs));
      ValBound(First(cs), v[..n]);
      ValBoundKids(cs[1..], v[n..]);
      MixedBound(Val(First(cs), v[..n]), Combos(First(cs)), ValKids(cs[1..], v[n..]), CombosKids(cs[1..]));
    }
  }

  /** A pass that is not to advance changes nothing. */
  lemma {:induction false} StepIdle(a: Argp, v: seq<int>)
    requires Fits(a, v)
    ensures Step(a, v, false) == Turn(v, false)
    decreases a, 1
  {
    StepIdleKids(a.children, v[Own(a)..]);
    assert Multiple(a) ==> [v[0]] + v[1..] == v;
    assert v[0..] == v;
  }

  lemma {:induction false} StepIdleKids(cs: seq<Child>, v: seq<int>)
    requires FitsKids(cs, v)
    ensures StepKids(cs, v, false) == Turn(v, false)
    decreases cs, 0
  {
    if cs != [] {
      var n := Slots(First(cs));
      StepIdle(First(cs), v[..n]);
      StepIdleKids(cs[1..], v[n..]);
      assert v[..n] + v[n..] == v;
    }
  }

  /** An advancing pass leaves a vector that fits again. */
  lemma {:induction false} StepFits(a: Argp, v: seq<int>, advance: bool)
    requires Fits(a, v)
    ensures Fits(a, Step(a, v, advance).levels)
    decreases a, 1
  {
    StepFitsKids(a.children, v[Own(a)..], advance);
    var kids := StepKids(a.children, v[Own(a)..], advance);
    var t := Step(a, v, advance);
    assert t.levels[Own(a)..] == kids.levels;
  }

  lemma {:induction false} StepFitsKids(cs: seq<Child>, v: seq<int>, advance: bool)
    requires FitsKids(cs, v)
    ensures FitsKids(cs, StepKids(cs, v, advance).levels)
    decreases cs, 0
  {
    if cs != [] {
      var n := Slots(First(cs));
      var head := Step(First(cs), v[..n], advance);
      StepFits(First(cs), v[..n], advance);
      StepFitsKids(cs[1..], v[n..], head.advance);
      var t := StepKids(cs, v, advance);
      assert t.levels[..n] == head.levels;
      assert t.levels[n..] == StepKids(cs[1..], v[n..], head.advance).levels;
    }
  }

  ghost predicate Counts(before: nat, after: nat, combos: nat, carry: bool) {
    if before + 1 < combos then after == before + 1 && !carry else after == 0 && carry
  }

  lemma {:induction false} StepCounts(a: Argp, v: seq<int>)
    requires Fits(a, v) && Proper(v) && SmallDocs(a)
    ensures var t := Step(a, v, true);
            Fits(a, t.levels) && Proper(t.levels) && Counts(Val(a, v), Val(a, t.levels), Combos(a), t.advance)
    decreases a, 1
  {
    hide Times, Mixed, Low, High;
    StepFits(a, v, true);
    StepCountsKids(a.children, v[Own(a)..]);
    ValBoundKids(a.children, v[Own(a)..]);
    var k, t := StepKids(a.children, v[Own(a)..], true), Step(a, v, true);
    assert t.levels[Own(a)..] == k.levels;
    var ck, n, x, d := CombosKids(a.children), |Lines(a)|, ValKids(a.children, v[Own(a)..]), Digit(a, v);
    MixedBound(x, ck, d, n);
    MultipleMeansLines(a);
    CountsTwo(x, ValKids(a.children, k.levels), ck, k.advance, d, Digit(a, t.levels), n, t.advance);
  }

  /** A low digit group that counts and a high one that moves when the low one
      overflows count together. */
  lemma CountsTwo(x: nat, x': nat, c: nat, carry: bool, y: nat, y': nat, d: nat, carry': bool)
    requires x < c && y < d && Counts(x, x', c, carry)
    requires if carry then Counts(y, y', d, carry') else y' == y && !carry'
    ensures Counts(Mixed(x, c, y), Mixed(x', c, y'), Times(c, d), carry')
  {
    MixedBound(x, c, y, d);
    assert c * (y + 1) == c * y + c;
    assert c * 0 == 0;
  }

  lemma {:induction false} StepCountsKids(cs: seq<Child>, v: seq<int>)
    requires FitsKids(cs, v) && Proper(v) && SmallDocsKids(cs)
    ensures var t := StepKids(cs, v, true);
            FitsKids(cs, t.levels) && Proper(t.levels)
            && Counts(ValKids(cs, v), ValKids(cs, t.levels), CombosKids(cs), t.advance)
    decreases cs, 0
  {
    hide Times, Mixed, Low, High;
    StepFitsKids(cs, v, true);
    if cs != [] {
      var n := Slots(First(cs));
      var head, t := Step(First(cs), v[..n], true), StepKids(cs, v, true);
      var tail := StepKids(cs[1..], v[n..], head.advance);
      assert t.levels[..n] == head.levels && t.levels[n..] == tail.levels;
      StepCounts(First(cs), v[..n]);
      ValBound(First(cs), v[..n]);
      ValBoundKids(cs[1..], v[n..]);
      if head.advance {
        StepCountsKids(cs[1..], v[n..]);
      } else {
        StepIdleKids(cs[1..], v[n..]);
      }
      CountsTwo(Val(First(cs), v[..n]), Val(First(cs), head.levels), Combos(First(cs)), head.advance,
                ValKids(cs[1..], v[n..]), ValKids(cs[1..], tail.levels), CombosKids(cs[1..]), tail.advance);
    }
  }

  // ---- vectors and numbers correspond ----

  function Digits(a: Argp, x: nat): (v: seq<int>)
    requires x < Combos(a)
    ensures |v| == Slots(a)
    decreases a, 1
  {
    var c := CombosKids(a.children);
    MixedSplit(x, c, |Lines(a)|);
    (if Multiple(a) then [High(x, c)] else []) + DigitsKids(a.children, Low(x, c))
  }

  function DigitsKids(cs: seq<Child>, x: nat): (v: seq<int>)
    requires x < CombosKids(cs)
    ensures |v| == SlotsKids(cs)
    decreases cs, 0
  {
    if cs == [] then []
    else
      var c := Combos(First(cs));
      MixedSplit(x, c, CombosKids(cs[1..]));
      Digits(First(cs), Low(x, c)) + DigitsKids(cs[1..], High(x, c))
  }

  lemma {:induction false} DigitsValue(a: Argp, x: nat)
    requires x < Combos(a) && SmallDocs(a)
    ensures Fits(a, Digits(a, x)) && Proper(Digits(a, x)) && Val(a, Digits(a, x)) == x
    decreases a, 1
  {
    hide Times, Mixed, Low, High;
    var c, v := CombosKids(a.children), Digits(a, x);
    var lo, hi := Low(x, c), High(x, c);
    MixedSplit(x, c, |Lines(a)|);
    DigitsValueKids(a.children, lo);
    assert v[Own(a)..] == DigitsKids(a.children, lo);
    MultipleMeansLines(a);
    assert Multiple(a) ==> v[0] == hi;
    assert Digit(a, v) == hi;
  }

  lemma {:induction false} DigitsValueKids(cs: seq<Child>, x: nat)
    requires x < CombosKids(cs) && SmallDocsKids(cs)
    ensures FitsKids(cs, DigitsKids(cs, x)) && Proper(DigitsKids(cs, x)) && ValKids(cs, DigitsKids(cs, x)) == x
    decreases cs, 0
  {
    hide Times, Mixed, Low, High;
    if cs != [] {
      var c, n, v := Combos(First(cs)), Slots(First(cs)), DigitsKids(cs, x);
      var lo, hi := Low(x, c), High(x, c);
      MixedSplit(x, c, CombosKids(cs[1..]));
      DigitsValue(First(cs), lo);
      DigitsValueKids(cs[1..], hi);
      assert v == Digits(First(cs), lo) + DigitsKids(cs[1..], hi);
      assert v[..n] == Digits(First(cs), lo) && v[n..] == DigitsKids(cs[1..], hi);
    }
  }

  lemma {:induction false} ValInjective(a: Argp, v: seq<int>, w: seq<int>)
    requires Fits(a, v) && Proper(v) && Fits(a, w) && Proper(w) && Val(a, v) == Val(a, w)
    ensures v == w
    decreases a, 1
  {
    hide Times, Mixed, Low, High;
    var k := Own(a);
    ValBoundKids(a.children, v[k..]);
    ValBoundKids(a.children, w[k..]);
    MixedUnique(ValKids(a.children, v[k..]), CombosKids(a.children), Digit(a, v),
                ValKids(a.children, w[k..]), Digit(a, w));
    ValInjectiveKids(a.children, v[k..], w[k..]);
    assert v[..k] == w[..k];
    SameParts(v, w, k);
  }

  lemma {:induction false} ValInjectiveKids(cs: seq<Child>, v: seq<int>, w: seq<int>)
    requires FitsKids(cs, v) && Proper(v) && FitsKids(cs, w) && Proper(w) && ValKids(cs, v) == ValKids(cs, w)
    ensures v == w
    decreases cs, 0
  {
    hide Times, Mixed, Low, High, Val, Fits, Combos, Slots;
    if cs != [] {
      var n := Slots(First(cs));
      ValBound(First(cs), v[..n]);
      ValBound(First(cs), w[..n]);
      MixedUnique(Val(First(cs), v[..n]), Combos(First(cs)), ValKids(cs[1..], v[n..]),
                  Val(First(cs), w[..n]), ValKids(cs[1..], w[n..]));
      ValInjective(First(cs), v[..n], w[..n]);
      ValInjectiveKids(cs[1..], v[n..], w[n..]);
      SameParts(v, w, n);
    }
  }

  lemma SameParts(v: seq<int>, w: seq<int>, k: nat)
    requires k <= |v| && k <= |w| && v[..k] == w[..k] && v[k..] == w[k..]
    ensures v == w
  {
    assert v == v[..k] + v[k..] && w == w[..k] + w[k..];
  }

  // ---- docs with more alternatives than a char can count ----

  lemma {:induction false} BigNeverPasses(a: Argp, v: seq<int>, advance: bool)
    requires Fits(a, v) && !SmallDocs(a)
    ensures !Step(a, v, advance).advance
    decreases a, 1
  {
    MultipleMeansLines(a);
    if |Lines(a)| <= CHAR_MAX + 1 {
      BigNeverPassesKids(a.children, v[Own(a)..], advance);
    }
  }

  lemma {:induction false} BigNeverPassesKids(cs: seq<Child>, v: seq<int>, advance: bool)
    requires FitsKids(cs, v) && !SmallDocsKids(cs)
    ensures !StepKids(cs, v, advance).advance
    decreases cs, 0
  {
    var n := Slots(First(cs));
    if SmallDocs(First(cs)) {
      BigNeverPassesKids(cs[1..], v[n..], Step(First(cs), v[..n], advance).advance);
    } else {
      BigNeverPasses(First(cs), v[..n], advance);
      StepIdleKids(cs[1..], v[n..]);
    }
  }

  function Zeros(n: nat): (v: seq<int>)
    ensures |v| == n && forall i :: 0 <= i < n ==> v[i] == 0
  {
    seq(n, _ => 0)
  }

  lemma {:induction false} ZerosFit(a: Argp)
    ensures Fits(a, Zeros(Slots(a))) && Val(a, Zeros(Slots(a))) == 0
    decreases a, 1
  {
    hide Times, Mixed, Low, High;
    ZerosFitKids(a.children);
    MixedZero(CombosKids(a.children));
    assert Zeros(Slots(a))[Own(a)..] == Zeros(SlotsKids(a.children));
  }

  lemma {:induction false} ZerosFitKids(cs: seq<Child>)
    ensures FitsKids(cs, Zeros(SlotsKids(cs))) && ValKids(cs, Zeros(SlotsKids(cs))) == 0
    decreases cs, 0
  {
    hide Times, Mixed, Low, High;
    if cs != [] {
      var n := Slots(First(cs));
      ZerosFit(First(cs));
      ZerosFitKids(cs[1..]);
      MixedZero(Combos(First(cs)));
      assert Zeros(SlotsKids(cs))[..n] == Zeros(n);
      assert Zeros(SlotsKids(cs))[n..] == Zeros(SlotsKids(cs[1..]));
    }
  }

  /** The vector before pass m, counting from 0. */
  function After(a: Argp, m: nat): (v: seq<int>)
    ensures Fits(a, v)
  {
    ZerosFit(a);
    if m == 0 then Zeros(Slots(a))
    else
      StepFits(a, After(a, m - 1), true);
      Step(a, After(a, m - 1), true).levels
  }

  lemma {:induction false} AfterIsDigits(a: Argp, m: nat)
    requires SmallDocs(a) && m < Combos(a)
    ensures After(a, m) == Digits(a, m)
  {
    hide Step, Digits, Val, Fits, Combos, SmallDocs, Zeros;
    var v := After(a, m);
    DigitsValue(a, m);
    if m == 0 {
      ZerosFit(a);
    } else {
      AfterIsDigits(a, m - 1);
      DigitsValue(a, m - 1);
      StepCounts(a, After(a, m - 1));
    }
    assert Val(a, v) == m && Proper(v);
    ValInjective(a, v, Digits(a, m));
  }

  /** The last pass is the first one that passes the advance on. */
  ghost predicate LastPass(a: Argp, m: nat) {
    Step(a, After(a, m), true).advance
  }

  /** The usage loop ends if and only if no argp has more alternatives than its
      char can count; it then makes one pass for each combination. */
  lemma LoopEndsIffSmall(a: Argp)
    ensures SmallDocs(a) <==> exists m :: LastPass(a, m)
    ensures SmallDocs(a) ==> forall m :: 0 <= m < Combos(a) ==> (LastPass(a, m) <==> m == Combos(a) - 1)
  {
    if SmallDocs(a) {
      forall m | 0 <= m < Combos(a)
        ensures LastPass(a, m) <==> m == Combos(a) - 1
      {
        AfterIsDigits(a, m);
        DigitsValue(a, m);
        StepCounts(a, After(a, m));
      }
      assert LastPass(a, Combos(a) - 1);
    } else {
      forall m: nat
        ensures !LastPass(a, m)
      {
        BigNeverPasses(a, After(a, m), true);
      }
    }
  }

  /** A doc of 129 empty lines, for which the loop does not end. */
  lemma LongDocNeverEnds() returns (a: Argp)
    ensures |Lines(a)| == 129 && !exists m :: LastPass(a, m)
  {
    var doc: string := seq(128, _ => '\n');
    a := Argp(None, false, Some(doc), []);
    EmptyLines(doc, 0);
    LoopEndsIffSmall(a);
  }

  lemma {:induction false} EmptyLines(s: string, from: nat)
    requires from <= |s| && forall i :: 0 <= i < |s| ==> s[i] == '\n'
    ensures |LinesFrom(s, from)| == |s| - from + 1
    decreases |s| - from
  {
    if from < |s| {
      EmptyLines(s, from + 1);
    }
  }

  /** Every combination of alternatives is the vector of exactly one pass. */
  lemma EveryCombinationOnce(a: Argp, v: seq<int>)
    requires SmallDocs(a) && Fits(a, v) && Proper(v)
    ensures Val(a, v) < Combos(a) && After(a, Val(a, v)) == v
    ensures forall m :: 0 <= m < Combos(a) && After(a, m) == v ==> m == Val(a, v)
  {
    ValBound(a, v);
    AfterIsDigits(a, Val(a, v));
    DigitsValue(a, Val(a, v));
    ValInjective(a, v, Digits(a, Val(a, v)));
    forall m | 0 <= m < Combos(a) && After(a, m) == v
      ensures m == Val(a, v)
    {
      AfterIsDigits(a, m);
      DigitsValue(a, m);
    }
  }
}
