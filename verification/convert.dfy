/** Compiling an option tree into the parser's tables in place: calc_sizes,
    parser_convert and convert_options. */
module Convert {
  import opened Wrappers
  import opened ArgpTree
  import opened Tables
  import Preorder
  import opened Sequences

  /** A struct group as convert_options fills it in; inputs is the offset of its
      child_inputs slice and kids the slice's length. */
  datatype Group = Group(
    hasParser: bool,
    owner: nat,
    shortEnd: nat,
    parent: Option<nat>,
    parentIndex: nat,
    inputs: nat,
    kids: nat)

  class ParserSizes {
    var shortLen: nat
    var longLen: nat
    var numGroups: nat
    var numChildInputs: nat

    constructor (noArgs: bool)
      ensures shortLen == (if noArgs then 0 else 1) && longLen == numGroups == numChildInputs == 0
    {
      shortLen := if noArgs then 0 else 1;
      longLen, numGroups, numChildInputs := 0, 0, 0;
    }
  }

  method CalcSizes(a: Argp, szs: ParserSizes)
    modifies szs
    ensures szs.shortLen == old(szs.shortLen) + 3 * NumOpts(a)
    ensures szs.longLen == old(szs.longLen) + NumOpts(a)
    ensures szs.numGroups == old(szs.numGroups) + NumGroups(a)
    ensures szs.numChildInputs == old(szs.numChildInputs) + NumInputs(a)
    decreases a
  {
    if a.Grouped() {
      szs.numGroups := szs.numGroups + 1;
      if a.options.Some? {
        var numOpts := |a.options.value|;
        szs.shortLen := szs.shortLen + numOpts * 3;
        szs.longLen := szs.longLen + numOpts;
      }
    }
    assert a.children[0..] == a.children;
    for i := 0 to |a.children|
      invariant szs.shortLen + 3 * NumOptsKids(a.children[i..]) == old(szs.shortLen) + 3 * NumOpts(a)
      invariant szs.longLen + NumOptsKids(a.children[i..]) == old(szs.longLen) + NumOpts(a)
      invariant szs.numGroups + NumGroupsKids(a.children[i..]) == old(szs.numGroups) + NumGroups(a)
      invariant szs.numChildInputs + NumInputsKids(a.children[i..]) == old(szs.numChildInputs) + NumInputs(a)
    {
      assert a.children[i..][0] == a.children[i] && a.children[i..][1..] == a.children[i + 1..];
      assert a decreases to a.children[i].argp by { assert a decreases to a.children[i]; }
      CalcSizes(a.children[i].argp, szs);
      szs.numChildInputs := szs.numChildInputs + 1;
    }
  }

  // ---- what the tables hold after some groups ----

  function GroupRow(prefix: seq<int>, nodes: seq<Node>, k: nat): Group
    requires k < |nodes|
  {
    var node := nodes[k];
    Group(node.hasParser, node.owner, ShortEnd(prefix, nodes, k), node.parent, node.parentIndex,
          InputSum(nodes[..k]), node.kids)
  }

  ghost predicate RowsHold(rows: seq<Group>, prefix: seq<int>, nodes: seq<Node>) {
    |nodes| <= |rows| && forall k :: 0 <= k < |nodes| ==> rows[k] == GroupRow(prefix, nodes, k)
  }

  lemma RowsSnoc(rows: seq<Group>, prefix: seq<int>, nodes: seq<Node>, node: Node)
    requires |nodes| < |rows| && (forall k :: 0 <= k < |nodes| ==> rows[k] == GroupRow(prefix, nodes, k))
    requires rows[|nodes|] == Group(node.hasParser, node.owner,
                                    |prefix| + |ShortString(nodes) + ShortTo(node.opts, |node.opts|)|,
                                    node.parent, node.parentIndex, InputSum(nodes), node.kids)
    ensures RowsHold(rows, prefix, nodes + [node])
  {
    hide GroupRow;
    forall k | 0 <= k <= |nodes|
      ensures rows[k] == GroupRow(prefix, nodes + [node], k)
    {
      if k < |nodes| {
        OldRow(prefix, nodes, node, k);
      } else {
        NewRow(prefix, nodes, node);
      }
    }
  }

  lemma OldRow(prefix: seq<int>, nodes: seq<Node>, node: Node, k: nat)
    requires k < |nodes|
    ensures GroupRow(prefix, nodes + [node], k) == GroupRow(prefix, nodes, k)
  {
    hide ShortString, InputSum;
    var all := nodes + [node];
    assert all[k] == nodes[k] && all[..k + 1] == nodes[..k + 1] && all[..k] == nodes[..k];
  }

  lemma NewRow(prefix: seq<int>, nodes: seq<Node>, node: Node)
    ensures GroupRow(prefix, nodes + [node], |nodes|)
            == Group(node.hasParser, node.owner, |prefix| + |ShortString(nodes) + ShortTo(node.opts, |node.opts|)|,
                     node.parent, node.parentIndex, InputSum(nodes), node.kids)
  {
    var all := nodes + [node];
    ShortSnoc(nodes, node);
    hide ShortString, InputSum, ShortTo;
    assert all[..|nodes| + 1] == all && all[..|nodes|] == nodes;
  }

  lemma ShortSnoc(nodes: seq<Node>, node: Node)
    ensures ShortString(nodes + [node]) == ShortString(nodes) + ShortTo(node.opts, |node.opts|)
    ensures AllCands(nodes + [node]) == AllCands(nodes) + LongCands(node.opts, |node.opts|, |nodes|)
    ensures InputSum(nodes + [node]) == InputSum(nodes) + node.kids
  {
    assert (nodes + [node])[..|nodes|] == nodes;
  }

  lemma FirstNamesSnoc(cands: seq<LongOpt>, x: LongOpt)
    ensures FirstNames(cands + [x])
            == FirstNames(cands) + if HasName(FirstNames(cands), x.name) then [] else [x]
  {
    assert (cands + [x])[..|cands|] == cands;
    FirstNamesNames(cands, x.name);
  }

  lemma NoOptionYet(text: seq<int>, cands: seq<LongOpt>, os: seq<Opt>, k: nat)
    ensures text + ShortTo(os, 0) == text && cands + LongCands(os, 0, k) == cands
  {}

  lemma ShortToNone(os: seq<Opt>)
    ensures |ShortTo(os, 0)| == 0
  {}

  /** There is room for one more option as long as there is for all. */
  lemma OptionLength(os: seq<Opt>, i: nat)
    requires i < |os|
    ensures |ShortTo(os, i + 1)| == |ShortTo(os, i)| + |ShortText(os[i], RealAt(os, i))| <= |ShortTo(os, |os|)|
  {
    ShortToGrows(os, i + 1, |os|);
  }

  lemma RealStep(os: seq<Opt>, i: nat)
    requires i < |os|
    ensures RealAt(os, i) == if i == 0 || !os[i].alias then os[i] else RealAt(os, i - 1)
  {}

  lemma OptionStep(text: seq<int>, cands: seq<LongOpt>, os: seq<Opt>, i: nat, k: nat)
    requires i < |os|
    ensures text + ShortTo(os, i) + ShortText(os[i], RealAt(os, i)) == text + ShortTo(os, i + 1)
    ensures var base := RealAt(os, i);
            cands + LongCands(os, i, k) + (if !base.doc && os[i].name.Some? then [LongOf(os[i], base, k)] else [])
            == cands + LongCands(os, i + 1, k)
  {}

  const END_OF_LONG := LongOpt(None, NoArgument, 0)

  /** find_long_option: the offset of the entry called NAME, or -1. */
  method FindLongOption(longOpts: array<LongOpt>, end: nat, name: CString) returns (at: int)
    requires end < longOpts.Length && longOpts[end].name.None?
    requires forall j :: 0 <= j < end ==> longOpts[j].name.Some?
    ensures at < 0 <==> !HasName(longOpts[..end], Some(name))
    ensures at >= 0 ==> at < end && longOpts[at].name == Some(name)
  {
    var l := 0;
    while longOpts[l].name.Some?
      invariant l <= end && !HasName(longOpts[..l], Some(name))
      decreases end - l
    {
      if longOpts[l].name.value == name {
        assert longOpts[..end][l].name == Some(name);
        return l;
      }
      l := l + 1;
    }
    return -1;
  }

  class Conversion {
    const shortOpts: array<int>
    const longOpts: array<LongOpt>
    const groups: array<Group>
    /** The number of child input slots. */
    const numChildInputs: nat
    var shortEnd: nat
    var longEnd: nat
    var childInputsEnd: nat
    /** The leading character of the short string, and the groups so far. */
    ghost const prefix: seq<int>
    ghost var nodes: seq<Node>

    ghost predicate ShortHolds(text: seq<int>)
      reads this, shortOpts
    {
      shortEnd < shortOpts.Length && shortOpts[..shortEnd] == prefix + text && shortOpts[shortEnd] == 0
    }

    ghost predicate LongHolds(cands: seq<LongOpt>)
      reads this, longOpts
    {
      && longEnd < longOpts.Length && longOpts[..longEnd] == FirstNames(cands)
      && longOpts[longEnd].name.None? && |cands| < longOpts.Length
      && forall e :: e in cands ==> e.name.Some?
    }

    ghost predicate Valid()
      reads this, shortOpts, longOpts, groups
    {
      && ShortHolds(ShortString(nodes)) && LongHolds(AllCands(nodes))
      && RowsHold(groups[..], prefix, nodes)
      && childInputsEnd == InputSum(nodes) <= numChildInputs
    }

    /** The storage parser_init reserves, and the start of parser_convert. */
    constructor (szs: ParserSizes, inOrder: bool, noArgs: bool)
      requires |Prefix(inOrder, noArgs)| <= szs.shortLen
      ensures Valid() && nodes == [] && fresh(shortOpts) && fresh(longOpts) && fresh(groups)
      ensures prefix == Prefix(inOrder, noArgs) && shortEnd == |prefix|
      ensures shortOpts.Length == szs.shortLen + 1 && longOpts.Length == szs.longLen + 1
      ensures groups.Length == szs.numGroups + 1 && numChildInputs == szs.numChildInputs
    {
      shortOpts := new int[szs.shortLen + 1];
      longOpts := new LongOpt[szs.longLen + 1](_ => END_OF_LONG);
      groups := new Group[szs.numGroups + 1](_ => Group(false, 0, 0, None, 0, 0, 0));
      numChildInputs := szs.numChildInputs;
      prefix := Prefix(inOrder, noArgs);
      shortEnd, longEnd, childInputsEnd, nodes := 0, 0, 0, [];
      new;
      if inOrder {
        shortOpts[0] := '-' as int;
        shortEnd := 1;
      } else if noArgs {
        shortOpts[0] := '+' as int;
        shortEnd := 1;
      }
      shortOpts[shortEnd] := 0;
      longOpts[longEnd] := END_OF_LONG;
    }

    method PutShort(c: int)
      requires shortEnd + 1 < shortOpts.Length
      modifies this`shortEnd, shortOpts
      ensures shortEnd == old(shortEnd) + 1
      ensures shortOpts[..shortEnd] == old(shortOpts[..shortEnd]) + [c]
    {
      shortOpts[shortEnd] := c;
      shortEnd := shortEnd + 1;
    }

    method AddShort(o: Opt, base: Opt, ghost text: seq<int>)
      requires ShortHolds(text) && shortEnd + |ShortText(o, base)| < shortOpts.Length
      modifies this`shortEnd, shortOpts
      ensures ShortHolds(text + ShortText(o, base)) && shortEnd == old(shortEnd) + |ShortText(o, base)|
    {
      if !base.doc {
        if IsShort(o) {
          PutShort(o.key);
          if base.arg.Some? {
            PutShort(':' as int);
            if base.argOptional {
              PutShort(':' as int);
            }
          }
          shortOpts[shortEnd] := 0;
        }
      }
    }

    method AddLong(o: Opt, base: Opt, k: nat, ghost cands: seq<LongOpt>)
      requires LongHolds(cands) && |cands| + 1 < longOpts.Length
      modifies this`longEnd, longOpts
      ensures LongHolds(cands + if !base.doc && o.name.Some? then [LongOf(o, base, k)] else [])
    {
      if !base.doc && o.name.Some? {
        ghost var x := LongOf(o, base, k);
        FirstNamesSnoc(cands, x);
        assert forall j :: 0 <= j < longEnd ==> longOpts[j] == FirstNames(cands)[j];
        var at := FindLongOption(longOpts, longEnd, o.name.value);
        if at < 0 {
          longOpts[longEnd] := LongOf(o, base, k);
          longEnd := longEnd + 1;
          longOpts[longEnd] := END_OF_LONG;
          assert longOpts[..longEnd] == FirstNames(cands) + [x];
        }
      } else {
        assert cands + [] == cands;
      }
    }

    /** The loop over one argp's options; base is the most recent option that is
        not an alias. */
    method AddOptions(os: seq<Opt>, group: nat, ghost text: seq<int>, ghost cands: seq<LongOpt>)
      requires ShortHolds(text) && LongHolds(cands)
      requires shortEnd + |ShortTo(os, |os|)| < shortOpts.Length && |cands| + |os| < longOpts.Length
      modifies this`shortEnd, this`longEnd, shortOpts, longOpts
      ensures ShortHolds(text + ShortTo(os, |os|)) && LongHolds(cands + LongCands(os, |os|, group))
    {
      NoOptionYet(text, cands, os, group);
      ShortToNone(os);
      hide ShortTo, LongCands, FirstNames, RealAt;
      ghost var start := shortEnd;
      if os != [] {
        var base := os[0];
        for i := 0 to |os|
          invariant base == if i == 0 then os[0] else RealAt(os, i - 1)
          invariant ShortHolds(text + ShortTo(os, i)) && LongHolds(cands + LongCands(os, i, group))
          invariant shortEnd == start + |ShortTo(os, i)|
        {
          RealStep(os, i);
          OptionLength(os, i);
          if !os[i].alias {
            base := os[i];
          }
          AddOption(os, i, base, group, text, cands);
        }
      }
    }

    method AddOption(os: seq<Opt>, i: nat, base: Opt, group: nat, ghost text: seq<int>, ghost cands: seq<LongOpt>)
      requires i < |os| && base == RealAt(os, i)
      requires ShortHolds(text + ShortTo(os, i)) && LongHolds(cands + LongCands(os, i, group))
      requires shortEnd + |ShortText(os[i], base)| < shortOpts.Length
      requires |cands + LongCands(os, i, group)| + 1 < longOpts.Length
      modifies this`shortEnd, this`longEnd, shortOpts, longOpts
      ensures ShortHolds(text + ShortTo(os, i + 1)) && LongHolds(cands + LongCands(os, i + 1, group))
      ensures shortEnd == old(shortEnd) + |ShortText(os[i], base)|
    {
      ghost var shorts, longs := text + ShortTo(os, i), cands + LongCands(os, i, group);
      OptionStep(text, cands, os, i, group);
      hide ShortTo, LongCands, FirstNames, ShortText, LongOf, RealAt;
      AddShort(os[i], base, shorts);
      AddLong(os[i], base, group, longs);
    }

    /** The part of convert_options that handles one argp with a group. */
    method AddGroup(a: Argp, at: nat, parent: Option<nat>, index: nat, group: nat)
      requires Valid() && a.Grouped() && group == |nodes|
      requires shortEnd + |ShortTo(a.Opts(), |a.Opts()|)| < shortOpts.Length
              && |AllCands(nodes)| + |a.Opts()| < longOpts.Length
      requires |nodes| < groups.Length && childInputsEnd + |a.children| <= numChildInputs
      modifies this, shortOpts, longOpts, groups
      ensures Valid()
      ensures nodes == old(nodes) + [Node(at, a.Opts(), a.hasParser, parent, index, |a.children|)]
      ensures childInputsEnd == old(childInputsEnd) + |a.children|
      ensures shortEnd == old(shortEnd) + |ShortTo(a.Opts(), |a.Opts()|)|
      ensures |AllCands(nodes)| <= |AllCands(old(nodes))| + |a.Opts()|
    {
      hide ShortString, AllCands, FirstNames, ShortTo, LongCands, InputSum, GroupRow;
      var os := a.Opts();
      ghost var node := Node(at, os, a.hasParser, parent, index, |a.children|);
      AddOptions(os, group, ShortString(nodes), AllCands(nodes));
      groups[group] := Group(a.hasParser, at, shortEnd, parent, index, childInputsEnd, |a.children|);
      childInputsEnd := childInputsEnd + |a.children|;
      ShortSnoc(nodes, node);
      RowsSnoc(groups[..], prefix, nodes, node);
      nodes := nodes + [node];
    }
  }

  /** There is room for more groups, options and child inputs. */
  ghost predicate Room(c: Conversion, groups: nat, opts: nat, shorts: nat, inputs: nat)
    reads c, c.shortOpts, c.longOpts, c.groups
  {
    && c.Valid()
    && c.shortEnd + shorts < c.shortOpts.Length
    && |AllCands(c.nodes)| + opts < c.longOpts.Length
    && |c.nodes| + groups < c.groups.Length
    && c.childInputsEnd + inputs <= c.numChildInputs
  }

  /** convert_options: enter the groups of a tree behind those entered before,
      and return the next unused group. MOREGROUPS, MOREOPTS, MORESHORTS and
      MOREINPUTS stand for what is to be entered later. */
  method ConvertOptions(c: Conversion, a: Argp, at: nat, parent: Option<nat>, index: nat, group: nat,
                        ghost moreGroups: nat, ghost moreOpts: nat, ghost moreShorts: nat, ghost moreInputs: nat)
      returns (next: nat)
    requires group == |c.nodes|
    requires Room(c, NumGroups(a) + moreGroups, NumOpts(a) + moreOpts, ShortLen(a) + moreShorts,
                  NumInputs(a) + moreInputs)
    modifies c, c.shortOpts, c.longOpts, c.groups
    ensures Room(c, moreGroups, moreOpts, moreShorts, moreInputs)
    ensures c.nodes == old(c.nodes) + GroupsOf(a, at, parent, index, group) && next == |c.nodes|
    decreases a, 1
  {
    hide GroupsOf, GroupsOfKids, NumGroups, NumGroupsKids, NumOpts, NumOptsKids, NumInputs, NumInputsKids, AllCands;
    hide ShortLen, ShortLenKids, ShortTo, ShortString, FirstNames, GroupRow, InputSum;
    TreeStart(a, at, parent, index, group);
    next := group;
    var up: Option<nat> := None;
    if a.Grouped() {
      c.AddGroup(a, at, parent, index, group);
      up, next := Some(group), group + 1;
    }
    next := ConvertChildren(c, a, at + 1, up, next, moreGroups, moreOpts, moreShorts, moreInputs);
  }

  lemma TreeStart(a: Argp, at: nat, parent: Option<nat>, index: nat, base: nat)
    ensures NumGroups(a) == (if a.Grouped() then 1 else 0) + NumGroupsKids(a.children)
    ensures NumOpts(a) == |a.Opts()| + NumOptsKids(a.children)
    ensures NumInputs(a) == NumInputsKids(a.children) >= |a.children|
    ensures ShortLen(a) == |ShortTo(a.Opts(), |a.Opts()|)| + ShortLenKids(a.children)
    ensures !a.Grouped() ==> a.Opts() == []
    ensures GroupsOf(a, at, parent, index, base)
            == if a.Grouped() then
                 [Node(at, a.Opts(), a.hasParser, parent, index, |a.children|)]
                 + GroupsOfKids(a.children, at + 1, Some(base), 0, base + 1)
               else
                 GroupsOfKids(a.children, at + 1, None, 0, base)
  {
    InputsAtLeast(a.children);
  }

  lemma {:induction false} InputsAtLeast(cs: seq<Child>)
    ensures NumInputsKids(cs) >= |cs|
  {
    if cs != [] {
      InputsAtLeast(cs[1..]);
    }
  }

  lemma KidsStep(cs: seq<Child>, i: nat, at: nat, up: Option<nat>, base: nat)
    requires i < |cs|
    ensures NumGroupsKids(cs[i..]) == NumGroups(cs[i].argp) + NumGroupsKids(cs[i + 1..])
    ensures NumOptsKids(cs[i..]) == NumOpts(cs[i].argp) + NumOptsKids(cs[i + 1..])
    ensures ShortLenKids(cs[i..]) == ShortLen(cs[i].argp) + ShortLenKids(cs[i + 1..])
    ensures NumInputsKids(cs[i..]) == NumInputs(cs[i].argp) + 1 + NumInputsKids(cs[i + 1..])
    ensures var head := GroupsOf(cs[i].argp, at, up, i, base);
            GroupsOfKids(cs[i..], at, up, i, base)
            == head + GroupsOfKids(cs[i + 1..], at + Size(cs[i].argp), up, i + 1, base + |head|)
  {
    hide NumGroups, NumOpts, NumInputs, GroupsOf, ShortLen;
    assert cs[i..][0] == cs[i] && cs[i..][1..] == cs[i + 1..];
  }

  lemma KidsEnd(cs: seq<Child>, at: nat, up: Option<nat>, base: nat)
    ensures NumGroupsKids(cs[|cs|..]) == NumOptsKids(cs[|cs|..]) == NumInputsKids(cs[|cs|..])
            == ShortLenKids(cs[|cs|..]) == 0
    ensures GroupsOfKids(cs[|cs|..], at, up, |cs|, base) == []
  {}

  /** The children of one argp, whose group is UP if it has one. The inputs for
      the children themselves are in that group's slice already. */
  method ConvertChildren(c: Conversion, a: Argp, at: nat, up: Option<nat>, group: nat,
                         ghost moreGroups: nat, ghost moreOpts: nat, ghost moreShorts: nat, ghost moreInputs: nat)
      returns (next: nat)
    requires group == |c.nodes| && NumInputsKids(a.children) >= |a.children|
    requires Room(c, NumGroupsKids(a.children) + moreGroups, NumOptsKids(a.children) + moreOpts,
                  ShortLenKids(a.children) + moreShorts, NumInputsKids(a.children) - |a.children| + moreInputs)
    modifies c, c.shortOpts, c.longOpts, c.groups
    ensures Room(c, moreGroups, moreOpts, moreShorts, moreInputs)
    ensures c.nodes == old(c.nodes) + GroupsOfKids(a.children, at, up, 0, group) && next == |c.nodes|
    decreases a, 0
  {
    hide GroupsOf, GroupsOfKids, NumGroups, NumGroupsKids, NumOpts, NumOptsKids, NumInputs, NumInputsKids, AllCands;
    hide ShortLen, ShortLenKids, ShortTo, ShortString, FirstNames, GroupRow, InputSum;
    var cs := a.children;
    ghost var goal := c.nodes + GroupsOfKids(cs, at, up, 0, group);
    next := group;
    var i: nat, kidAt: nat := 0, at;
    assert cs[0..] == cs;
    while i < |cs|
      invariant i <= |cs| && next == |c.nodes| && NumInputsKids(cs[i..]) >= |cs[i..]|
      invariant Room(c, NumGroupsKids(cs[i..]) + moreGroups, NumOptsKids(cs[i..]) + moreOpts,
                     ShortLenKids(cs[i..]) + moreShorts, NumInputsKids(cs[i..]) - |cs[i..]| + moreInputs)
      invariant c.nodes + GroupsOfKids(cs[i..], kidAt, up, i, next) == goal
    {
      var kid := cs[i].argp;
      ghost var before := c.nodes;
      KidsStep(cs, i, kidAt, up, next);
      InputsAtLeast(cs[i + 1..]);
      assert a decreases to kid by { assert a decreases to a.children[i]; }
      ghost var head := GroupsOf(kid, kidAt, up, i, next);
      next := ConvertOptions(c, kid, kidAt, up, i, next, NumGroupsKids(cs[i + 1..]) + moreGroups,
                             NumOptsKids(cs[i + 1..]) + moreOpts, ShortLenKids(cs[i + 1..]) + moreShorts,
                             NumInputsKids(cs[i + 1..]) - |cs[i + 1..]| + moreInputs);
      ConcatAssoc(before, head, GroupsOfKids(cs[i + 1..], kidAt + Size(kid), up, i + 1, next));
      i, kidAt := i + 1, kidAt + Size(kid);
    }
    KidsEnd(cs, kidAt, up, next);
  }

  /** The short string, its prefix and its NUL fit the storage that parser_init
      reserves for it. */
  ghost predicate StringFits(a: Argp, inOrder: bool, noArgs: bool) {
    |Prefix(inOrder, noArgs)| + |ShortString(GroupsOf(a, 0, None, 0, 0))| <= (if noArgs then 0 else 1) + 3 * NumOpts(a)
  }

  /** They always do without ARGP_NO_ARGS. With it nothing is reserved for the
      prefix, so they do if and only if some option needs less than the three
      characters counted for it. */
  lemma StringFitsIff(a: Argp, inOrder: bool, noArgs: bool)
    ensures StringFits(a, inOrder, noArgs) <==> !noArgs || !AllFull(a)
  {
    ShortLenIs(a, 0, None, 0, 0);
    ShortLenBound(a);
  }

  /** So with ARGP_NO_ARGS a parser without options writes one character too
      many. */
  lemma NoOptionsDoNotFit(inOrder: bool)
    ensures !StringFits(Argp(None, true, None, []), inOrder, true)
  {
    StringFitsIff(Argp(None, true, None, []), inOrder, true);
  }

  lemma PrefixIs(inOrder: bool, noArgs: bool)
    ensures Prefix(inOrder, noArgs) == if inOrder then ['-' as int] else if noArgs then ['+' as int] else []
  {}

  /** The part of parser_init that sizes and fills the tables, if the short
      string fits. Every write fits the sizes calc_sizes has computed; the number
      of groups is met exactly. */
  method ConvertTree(a: Argp, inOrder: bool, noArgs: bool) returns (c: Conversion, egroup: nat)
    requires StringFits(a, inOrder, noArgs)
    ensures fresh(c) && c.Valid() && c.nodes == GroupsOf(a, 0, None, 0, 0)
    ensures c.prefix == Prefix(inOrder, noArgs)
            == (if inOrder then ['-' as int] else if noArgs then ['+' as int] else [])
    // The groups are those of the argps with options or a parser, in preorder.
    ensures Preorder.AllOf(c.nodes, Preorder.All(a), 0)
    ensures egroup == |c.nodes| == NumGroups(a) && c.groups.Length == egroup + 1
    ensures c.shortOpts.Length == (if noArgs then 0 else 1) + 3 * NumOpts(a) + 1 && c.longOpts.Length == NumOpts(a) + 1
    ensures c.numChildInputs == NumInputs(a)
  {
    hide GroupsOf, NumGroups, NumOpts, NumInputs, AllCands, ShortString, FirstNames, GroupRow, InputSum, ShortLen;
    hide StringFits, Prefix, RowsHold, Preorder.All, Preorder.Owners, Preorder.Of;
    PrefixIs(inOrder, noArgs);
    Preorder.GroupsAreOwners(a);
    FitsMeans(a, inOrder, noArgs);
    var szs := new ParserSizes(noArgs);
    CalcSizes(a, szs);
    c := new Conversion(szs, inOrder, noArgs);
    NothingYet();
    egroup := ConvertOptions(c, a, 0, None, 0, 0, 0, 0, 0, 0);
    EmptyFront(GroupsOf(a, 0, None, 0, 0));
    GroupCount(a, 0, None, 0, 0);
  }

  lemma FitsMeans(a: Argp, inOrder: bool, noArgs: bool)
    requires StringFits(a, inOrder, noArgs)
    ensures |Prefix(inOrder, noArgs)| + ShortLen(a) <= (if noArgs then 0 else 1) + 3 * NumOpts(a)
  {
    ShortLenIs(a, 0, None, 0, 0);
  }

  lemma EmptyFront<T>(s: seq<T>)
    ensures [] + s == s
  {}

  lemma NothingYet()
    ensures AllCands([]) == [] && InputSum([]) == 0 && ShortString([]) == []
  {}

  /** strchr: the first place of CH in the short string, or -1. */
  method StrChr(buf: array<int>, end: nat, ch: int) returns (x: int)
    requires end < buf.Length && buf[end] == 0 && 0 !in buf[..end] && ch != 0
    ensures x < 0 <==> ch !in buf[..end]
    ensures x >= 0 ==> x < end && buf[x] == ch && ch !in buf[..x]
  {
    var p := 0;
    while buf[p] != 0
      invariant p <= end && ch !in buf[..p]
      decreases end - p
    {
      if buf[p] == ch {
        assert buf[..end][p] == ch;
        return p;
      }
      assert p < end ==> buf[..end][p] == buf[p];
      p := p + 1;
    }
    return -1;
  }

  /** The first part of parser_parse_opt for a short option: the group whose
      part of the string holds the option's first occurrence. */
  method ShortGroup(c: Conversion, egroup: nat, opt: int) returns (group: Option<nat>)
    requires c.Valid() && egroup == |c.nodes|
    requires opt != 0 && 0 !in c.prefix && |c.prefix| <= 1
    ensures group == ScannedGroup(c.prefix, c.nodes, opt)
  {
    hide ShortString, HasChar;
    ghost var text := ShortString(c.nodes);
    NoNulInShort(c.nodes);
    var x := StrChr(c.shortOpts, c.shortEnd, opt);
    ShortStringChars(c.nodes, opt);
    if x < 0 {
      return None;
    }
    var g := 0;
    while g < egroup && c.groups[g].shortEnd <= x
      invariant g <= egroup
      invariant forall j :: 0 <= j < g ==> ShortEnd(c.prefix, c.nodes, j) <= x
    {
      assert c.groups[..][g] == GroupRow(c.prefix, c.nodes, g);
      g := g + 1;
    }
    assert g < egroup ==> c.groups[..][g] == GroupRow(c.prefix, c.nodes, g);
    assert (c.prefix + text)[..x] == c.shortOpts[..x];
    ScanEnds(c.prefix, c.nodes, opt, x, g);
    return if g < egroup then Some(g) else None;
  }

  lemma FirstPlace(s: seq<int>, c: int, x: nat)
    requires x < |s| && c !in s[..x]
    ensures forall y :: 0 <= y < x ==> s[y] != c
  {
    forall y | 0 <= y < x
      ensures s[y] != c
    {
      assert s[y] in s[..x];
    }
  }

  /** Where a scan for the first place x of C has stopped. */
  lemma ScanEnds(prefix: seq<int>, nodes: seq<Node>, c: int, x: nat, g: nat)
    requires |prefix| <= 1 && g <= |nodes|
    requires var s := prefix + ShortString(nodes); x < |s| && s[x] == c && c !in s[..x]
    requires forall j :: 0 <= j < g ==> ShortEnd(prefix, nodes, j) <= x
    requires g < |nodes| ==> x < ShortEnd(prefix, nodes, g)
    ensures ScannedGroup(prefix, nodes, c) == if g < |nodes| then Some(g) else None
  {
    hide ShortString, HasChar;
    var s := prefix + ShortString(nodes);
    if c in prefix {
      FirstPlace(s, c, x);
      assert s[0] == c;
      assert nodes != [] ==> ShortEnd(prefix, nodes, 0) >= 1;
    } else {
      assert c in ShortString(nodes);
      ShortStringChars(nodes, c);
      var k := FirstHolder(nodes, c, 0).value;
      FirstHolderFound(prefix, nodes, c, k, x);
    }
  }

  lemma {:induction false} NoNulInShort(nodes: seq<Node>)
    ensures 0 !in ShortString(nodes)
  {
    ShortStringMembers(nodes, 0);
  }
}
