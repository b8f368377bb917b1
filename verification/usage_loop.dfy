/** argp_args_usage and the usage loop of _help, on a byte vector updated in
    place. */
module UsageLoop {
  import opened Wrappers
  import opened ArgpTree
  import opened UsageCount

  method StrChrNul(s: string, from: nat) returns (n: nat)
    requires from <= |s|
    ensures n == NextNl(s, from)
  {
    n := from;
    while n < |s| && s[n] != '\n'
      invariant from <= n <= |s| && NextNl(s, from) == NextNl(s, n)
    {
      n := n + 1;
    }
  }

  /** Skip as many lines of the doc as the level says. */
  method SelectLine(doc: string, nl0: nat, level: int) returns (cp: nat, nl: nat)
    requires nl0 == NextNl(doc, 0)
    requires Shown(level) < |LinesFrom(doc, 0)|
    ensures cp <= nl <= |doc|
    ensures doc[cp..nl] == LinesFrom(doc, 0)[Shown(level)]
    ensures nl < |doc| <==> Shown(level) < |LinesFrom(doc, 0)| - 1
  {
    hide LinesFrom, NextNl;
    ghost var lines := LinesFrom(doc, 0);
    cp, nl := 0, nl0;
    var i := 0;
    while i < level
      invariant i <= Shown(level) && cp <= |doc|
      invariant nl == NextNl(doc, cp)
      invariant i < |lines| && LinesFrom(doc, cp) == lines[i..]
    {
      LineAt(doc, lines, cp, i);
      cp := nl + 1;
      nl := StrChrNul(doc, cp);
      i := i + 1;
    }
    LineAt(doc, lines, cp, i);
  }

  lemma LineAt(doc: string, lines: seq<string>, cp: nat, i: nat)
    requires cp <= |doc| && i < |lines| && LinesFrom(doc, cp) == lines[i..]
    ensures var nl := NextNl(doc, cp);
            && lines[i] == doc[cp..nl] && (nl < |doc| <==> i + 1 < |lines|)
            && (nl < |doc| ==> LinesFrom(doc, nl + 1) == lines[i + 1..])
  {
    var nl := NextNl(doc, cp);
    assert lines[i..][0] == lines[i];
    assert nl < |doc| ==> LinesFrom(doc, cp)[1..] == LinesFrom(doc, nl + 1);
    assert lines[i..][1..] == lines[i + 1..];
  }

  /** argp_args_usage without filter and translation. The slots from pos on
      belong to this argp and its descendants; OUT is what it prints. */
  method ArgsUsage(a: Argp, levels: array<int>, pos: nat, advance: bool)
      returns (pos': nat, more: bool, out: seq<string>)
    requires pos + Slots(a) <= levels.Length && Fits(a, levels[pos..pos + Slots(a)])
    modifies levels
    ensures pos' == pos + Slots(a)
    ensures var v := old(levels[pos..pos + Slots(a)]);
            && levels[pos..pos + Slots(a)] == Step(a, v, advance).levels
            && more == !Step(a, v, advance).advance
            && out == Pick(a, v)
    ensures levels[..pos] == old(levels[..pos]) && levels[pos + Slots(a)..] == old(levels[pos + Slots(a)..])
    decreases a, 1
  {
    hide Step, StepKids, Pick, PickKids, Slots, SlotsKids, FitsKids, Fits, LinesFrom;
    ghost var all, end := levels[..], pos + Slots(a);
    ghost var v := all[pos..end];
    assert v == levels[pos..end];
    NodeUnfold(a, v, advance);
    var last, multiple, text := OwnLine(a, levels, pos);
    var start := if multiple then pos + 1 else pos;
    assert levels[start..start + SlotsKids(a.children)] == v[Own(a)..];
    var adv, rest := KidsUsage(a, levels, start, advance);
    ghost var kids, mid := levels[start..end], levels[..];
    assert mid[..start] == all[..start] && mid[start..end] == kids && mid[end..] == all[end..];
    ghost var own := v[..Own(a)];
    assert multiple ==> mid[pos] == mid[..start][pos] == all[pos] == v[0];
    if adv && multiple {
      own := [Advanced(v[0], last)];
      adv := AdvanceOwn(levels, pos, last);
    }
    pos', out, more := start + SlotsKids(a.children), text + rest, !adv;
    OwnAndKids(all, mid, levels[..], pos, start, end, own, kids);
    assert levels[pos..end] == levels[..][pos..end] && levels[..pos] == levels[..][..pos];
    assert levels[end..] == levels[..][end..];
  }

  /** The new value of a slot whose children have passed the advance on. */
  function Advanced(l: int, last: bool): int {
    if !last then ToChar(l + 1) else if l > 0 then 0 else l
  }

  method AdvanceOwn(levels: array<int>, pos: nat, last: bool) returns (adv: bool)
    requires pos < levels.Length
    modifies levels
    ensures levels[..] == old(levels[..])[pos := Advanced(old(levels[pos]), last)] && adv == last
  {
    adv := true;
    if !last {
      levels[pos] := ToChar(levels[pos] + 1);
      adv := false;
    } else if levels[pos] > 0 {
      levels[pos] := 0;
    }
  }

  /** A vector whose part from start to end has become KIDS and whose part from
      pos to start then becomes OWN. */
  lemma OwnAndKids(s0: seq<int>, s1: seq<int>, s2: seq<int>, pos: nat, start: nat, end: nat, own: seq<int>,
                   kids: seq<int>)
    requires pos <= start <= end <= |s0| == |s1| == |s2| && |own| == start - pos
    requires s1[..start] == s0[..start] && s1[start..end] == kids && s1[end..] == s0[end..]
    requires forall i :: 0 <= i < |s2| ==> s2[i] == if pos <= i < start then own[i - pos] else s1[i]
    ensures s2[..pos] == s0[..pos] && s2[pos..end] == own + kids && s2[end..] == s0[end..]
  {
    assert forall i :: 0 <= i < start ==> s1[i] == s1[..start][i] == s0[i];
    assert forall i :: end <= i < |s1| ==> s1[i] == s1[end..][i - end] == s0[i];
    assert s2[start..end] == s1[start..end];
    assert s2[pos..end] == s2[pos..start] + s2[start..end];
  }

  /** What one argp contributes to a pass, apart from its children. */
  lemma NodeUnfold(a: Argp, v: seq<int>, advance: bool)
    requires Fits(a, v)
    ensures |v| == Slots(a) == Own(a) + SlotsKids(a.children) && FitsKids(a.children, v[Own(a)..])
    ensures Multiple(a) ==> Shown(v[0]) < |Lines(a)|
    ensures var kids := StepKids(a.children, v[Own(a)..], advance);
            Step(a, v, advance)
            == if !Multiple(a) || !kids.advance then Turn(v[..Own(a)] + kids.levels, kids.advance)
               else if Shown(v[0]) < |Lines(a)| - 1 then Turn([ToChar(v[0] + 1)] + kids.levels, false)
               else Turn([if v[0] > 0 then 0 else v[0]] + kids.levels, true)
    ensures Pick(a, v)
            == (if a.argsDoc.None? then [] else if Multiple(a) then [Lines(a)[Shown(v[0])]] else [Lines(a)[0]])
               + PickKids(a.children, v[Own(a)..])
  {
    assert Multiple(a) ==> v[..1] == [v[0]];
  }

  /** The line of the argp's own doc, and whether it is the last one. */
  method OwnLine(a: Argp, levels: array<int>, pos: nat) returns (last: bool, multiple: bool, text: seq<string>)
    requires Multiple(a) ==> pos < levels.Length && Shown(levels[pos]) < |Lines(a)|
    ensures multiple == Multiple(a)
    ensures multiple ==> (last <==> Shown(levels[pos]) == |Lines(a)| - 1)
    ensures text == if a.argsDoc.None? then []
                    else if multiple then [Lines(a)[Shown(levels[pos])]] else [Lines(a)[0]]
  {
    last, multiple, text := true, false, [];
    if a.argsDoc.Some? {
      var doc := a.argsDoc.value;
      var cp := 0;
      var nl := StrChrNul(doc, 0);
      HasNl(doc);
      if nl < |doc| {
        multiple := true;
        cp, nl := SelectLine(doc, nl, levels[pos]);
        last := nl == |doc|;
      }
      text := [doc[cp..nl]];
    }
  }

  lemma HasNl(doc: string)
    ensures NextNl(doc, 0) < |doc| <==> '\n' in doc
    ensures NextNl(doc, 0) == |doc| ==> LinesFrom(doc, 0) == [doc]
  {
    var n := NextNl(doc, 0);
    assert n == |doc| ==> doc[0..n] == doc;
  }

  /** The state of the children's loop before child i: W is what is left of the
      children's slots V, DONE are the new values of those before it. */
  ghost predicate Going(cs: seq<Child>, v: seq<int>, advance: bool, i: nat,
                        w: seq<int>, done: seq<int>, adv: bool, out: seq<string>)
  {
    && i <= |cs| && FitsKids(cs, v) && FitsKids(cs[i..], w)
    && |done| + |w| == |v|
    && StepKids(cs, v, advance) == Turn(done + StepKids(cs[i..], w, adv).levels, StepKids(cs[i..], w, adv).advance)
    && PickKids(cs, v) == out + PickKids(cs[i..], w)
  }

  lemma GoingStarts(cs: seq<Child>, v: seq<int>, advance: bool)
    requires FitsKids(cs, v)
    ensures Going(cs, v, advance, 0, v, [], advance, [])
  {
    assert cs[0..] == cs;
  }

  lemma GoingStep(cs: seq<Child>, v: seq<int>, advance: bool, i: nat,
                  w: seq<int>, done: seq<int>, adv: bool, out: seq<string>)
    requires Going(cs, v, advance, i, w, done, adv, out) && i < |cs|
    ensures Slots(cs[i].argp) <= |w| && Fits(cs[i].argp, w[..Slots(cs[i].argp)])
    ensures var head := Step(cs[i].argp, w[..Slots(cs[i].argp)], adv);
            Going(cs, v, advance, i + 1, w[Slots(cs[i].argp)..], done + head.levels, head.advance,
                  out + Pick(cs[i].argp, w[..Slots(cs[i].argp)]))
  {
    assert cs[i..][0] == cs[i] && cs[i..][1..] == cs[i + 1..];
  }

  lemma GoingEnds(cs: seq<Child>, v: seq<int>, advance: bool, i: nat,
                  w: seq<int>, done: seq<int>, adv: bool, out: seq<string>)
    requires Going(cs, v, advance, i, w, done, adv, out) && i == |cs|
    ensures w == [] && StepKids(cs, v, advance) == Turn(done, adv) && PickKids(cs, v) == out
  {}

  /** The loop over the children, each passing the advance to the next. */
  method KidsUsage(a: Argp, levels: array<int>, pos: nat, advance: bool) returns (adv: bool, out: seq<string>)
    requires pos + SlotsKids(a.children) <= levels.Length
    requires FitsKids(a.children, levels[pos..pos + SlotsKids(a.children)])
    modifies levels
    ensures var n := SlotsKids(a.children);
            var v := old(levels[pos..pos + n]);
            && levels[pos..pos + n] == StepKids(a.children, v, advance).levels
            && adv == StepKids(a.children, v, advance).advance
            && out == PickKids(a.children, v)
            && levels[..pos] == old(levels[..pos]) && levels[pos + n..] == old(levels[pos + n..])
    decreases a, 0
  {
    hide Fits, FitsKids, Step, StepKids, Pick, PickKids, Slots, SlotsKids, Going, Passed;
    ghost var n := SlotsKids(a.children);
    ghost var v, all, end := levels[pos..pos + n], levels[..], pos + n;
    var p := pos;
    adv, out := advance, [];
    ghost var done, w := [], v;
    GoingStarts(a.children, v, advance);
    PassedNone(all, pos, end);
    for i := 0 to |a.children|
      invariant p <= end
      invariant Passed(levels[..], all, pos, p, end, done, w)
      invariant Going(a.children, v, advance, i, w, done, adv, out)
    {
      var kid := a.children[i].argp;
      ghost var k, now := Slots(kid), levels[..];
      GoingStep(a.children, v, advance, i, w, done, adv, out);
      PassedAhead(now, all, pos, p, end, done, w, k);
      ghost var head := Step(kid, w[..k], adv);
      assert a decreases to kid by { assert a decreases to a.children[i]; }
      assert levels[p..p + k] == now[p..p + k];
      var p', more, o := ArgsUsage(kid, levels, p, adv);
      assert levels[p..p'] == levels[..][p..p'];
      PassedStep(now, levels[..], all, pos, p, end, done, w, p', head.levels);
      adv, out, p, done, w := !more, out + o, p', done + head.levels, w[k..];
    }
    GoingEnds(a.children, v, advance, |a.children|, w, done, adv, out);
    PassedAll(levels[..], all, pos, p, end, done, w);
    assert levels[pos..end] == levels[..][pos..end] && levels[..pos] == levels[..][..pos];
    assert levels[end..] == levels[..][end..];
  }

  /** Between pos and end the vector ALL has become DONE up to p, with W still
      to do; elsewhere it is unchanged. */
  ghost predicate Passed(s: seq<int>, all: seq<int>, pos: nat, p: nat, end: nat, done: seq<int>, w: seq<int>) {
    && pos <= p <= end <= |s| == |all|
    && s[..pos] == all[..pos] && s[pos..p] == done && s[p..end] == w && s[end..] == all[end..]
  }

  lemma PassedNone(all: seq<int>, pos: nat, end: nat)
    requires pos <= end <= |all|
    ensures Passed(all, all, pos, pos, end, [], all[pos..end])
  {}

  lemma PassedAhead(s: seq<int>, all: seq<int>, pos: nat, p: nat, end: nat, done: seq<int>, w: seq<int>, k: nat)
    requires Passed(s, all, pos, p, end, done, w) && k <= |w|
    ensures p + k <= end && s[p..p + k] == w[..k]
  {}

  lemma PassedStep(s: seq<int>, t: seq<int>, all: seq<int>, pos: nat, p: nat, end: nat,
                   done: seq<int>, w: seq<int>, q: nat, head: seq<int>)
    requires Passed(s, all, pos, p, end, done, w)
    requires p <= q <= end && |t| == |s| && t[..p] == s[..p] && t[p..q] == head && t[q..] == s[q..]
    ensures Passed(t, all, pos, q, end, done + head, w[q - p..])
  {
    assert forall i :: 0 <= i < p ==> t[i] == t[..p][i] == s[i];
    assert forall i :: q <= i < |t| ==> t[i] == t[q..][i - q] == s[i];
    assert t[pos..q] == t[pos..p] + t[p..q];
    assert t[pos..p] == s[pos..p];
  }

  lemma PassedAll(s: seq<int>, all: seq<int>, pos: nat, p: nat, end: nat, done: seq<int>, w: seq<int>)
    requires Passed(s, all, pos, p, end, done, w) && w == []
    ensures p == end <= |s| == |all| && s[..pos] == all[..pos] && s[pos..end] == done && s[end..] == all[end..]
  {}

  /** The do-while of _help: from a zeroed vector, one usage line per pass until
      a pass reports no more patterns. */
  method PrintUsage(a: Argp) returns (lines: seq<seq<string>>, levels: array<int>)
    requires SmallDocs(a)
    ensures |lines| == Combos(a)
    ensures forall m :: 0 <= m < |lines| ==> lines[m] == Pick(a, After(a, m))
    ensures levels[..] == Zeros(Slots(a))
  {
    hide After, Step, Pick, Fits, Combos, Slots, SmallDocs;
    levels := new int[Slots(a)](_ => 0);
    lines := [];
    AfterNone(a);
    assert levels[..] == Zeros(Slots(a));
    var more := true;
    while more
      invariant levels.Length == Slots(a)
      invariant more ==> |lines| < Combos(a) && levels[..] == After(a, |lines|)
      invariant !more ==> |lines| == Combos(a) && levels[..] == Zeros(Slots(a))
      invariant forall m :: 0 <= m < |lines| ==> lines[m] == Pick(a, After(a, m))
      decreases Combos(a) - |lines|, more
    {
      ghost var m := |lines|;
      assert levels[0..Slots(a)] == levels[..];
      AfterStep(a, m);
      var pos, again, out := ArgsUsage(a, levels, 0, true);
      assert levels[..] == Step(a, After(a, m), true).levels;
      lines, more := lines + [out], again;
    }
  }

  lemma AfterNone(a: Argp)
    ensures After(a, 0) == Zeros(Slots(a)) && Combos(a) >= 1
  {}

  lemma AfterStep(a: Argp, m: nat)
    requires SmallDocs(a) && m < Combos(a)
    ensures |After(a, m)| == Slots(a)
    ensures var t := Step(a, After(a, m), true);
            if m + 1 == Combos(a) then t.advance && t.levels == Zeros(Slots(a))
            else !t.advance && t.levels == After(a, m + 1)
  {
    AfterIsDigits(a, m);
    DigitsValue(a, m);
    StepCounts(a, After(a, m));
    ZerosFit(a);
    if m + 1 == Combos(a) {
      ValInjective(a, Step(a, After(a, m), true).levels, Zeros(Slots(a)));
    }
  }
}
