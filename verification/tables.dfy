/** The getopt tables that argp-parse.c compiles an option tree into, described
    on the list of the tree's parsing groups. */
module Tables {
  import opened Wrappers
  import opened ArgpTree
  import opened Arithmetic
  import opened Sequences

  /** One argp that gets a group: its own options, the group of its parent argp
      if that has one, its place among the parent's children, and the number of
      its own children. */
  datatype Node = Node(
    owner: nat,
    opts: seq<Opt>,
    hasParser: bool,
    parent: Option<nat>,
    parentIndex: nat,
    kids: nat)

  /** The groups of a tree in preorder; base is the number of the first one. */
  function GroupsOf(a: Argp, at: nat, parent: Option<nat>, index: nat, base: nat): seq<Node>
    decreases a, 1
  {
    if a.Grouped() then
      [Node(at, a.Opts(), a.hasParser, parent, index, |a.children|)]
      + GroupsOfKids(a.children, at + 1, Some(base), 0, base + 1)
    else
      GroupsOfKids(a.children, at + 1, None, 0, base)
  }

  function GroupsOfKids(cs: seq<Child>, at: nat, parent: Option<nat>, index: nat, base: nat): seq<Node>
    decreases cs, 0
  {
    if cs == [] then []
    else
      var head := GroupsOf(First(cs), at, parent, index, base);
      head + GroupsOfKids(cs[1..], at + Size(First(cs)), parent, index + 1, base + |head|)
  }

  // ---- calc_sizes ----

  function NumGroups(a: Argp): nat
    decreases a, 1
  {
    (if a.Grouped() then 1 else 0) + NumGroupsKids(a.children)
  }

  function NumGroupsKids(cs: seq<Child>): nat
    decreases cs, 0
  {
    if cs == [] then 0 else NumGroups(First(cs)) + NumGroupsKids(cs[1..])
  }

  function NumOpts(a: Argp): nat
    decreases a, 1
  {
    |a.Opts()| + NumOptsKids(a.children)
  }

  function NumOptsKids(cs: seq<Child>): nat
    decreases cs, 0
  {
    if cs == [] then 0 else NumOpts(First(cs)) + NumOptsKids(cs[1..])
  }

  function NumInputs(a: Argp): nat
    decreases a, 1
  {
    NumInputsKids(a.children)
  }

  function NumInputsKids(cs: seq<Child>): nat
    decreases cs, 0
  {
    if cs == [] then 0 else NumInputs(First(cs)) + 1 + NumInputsKids(cs[1..])
  }

  lemma {:induction false} GroupCount(a: Argp, at: nat, parent: Option<nat>, index: nat, base: nat)
    ensures |GroupsOf(a, at, parent, index, base)| == NumGroups(a)
    decreases a, 1
  {
    if a.Grouped() {
      GroupCountKids(a.children, at + 1, Some(base), 0, base + 1);
    } else {
      GroupCountKids(a.children, at + 1, None, 0, base);
    }
  }

  lemma {:induction false} GroupCountKids(cs: seq<Child>, at: nat, parent: Option<nat>, index: nat, base: nat)
    ensures |GroupsOfKids(cs, at, parent, index, base)| == NumGroupsKids(cs)
    decreases cs, 0
  {
    if cs != [] {
      GroupCount(First(cs), at, parent, index, base);
      GroupCountKids(cs[1..], at + Size(First(cs)), parent, index + 1, base + NumGroups(First(cs)));
    }
  }

  // ---- layout ----

  /** Node j of a piece of the list that starts at group base belongs where it
      claims: its parent is an earlier node of the piece that has room for it, or
      the piece's own parent at a place from index on. */
  ghost predicate Placed(nodes: seq<Node>, base: nat, parent: Option<nat>, index: nat, j: nat)
    requires j < |nodes|
  {
    match nodes[j].parent
    case None => true
    case Some(p) =>
      if base <= p then p < base + j && nodes[j].parentIndex < nodes[p - base].kids
      else parent == Some(p) && nodes[j].parentIndex >= index
  }

  /** The piece's direct children have places in [index, end). */
  ghost predicate Layout(nodes: seq<Node>, base: nat, parent: Option<nat>, index: nat, end: nat) {
    && (parent.Some? ==> parent.value < base)
    && (forall j :: 0 <= j < |nodes| ==> Placed(nodes, base, parent, index, j))
    && (forall j :: 0 <= j < |nodes| && parent.Some? && nodes[j].parent == parent ==> nodes[j].parentIndex < end)
    && (forall i, j :: 0 <= i < j < |nodes| && nodes[i].parent.Some? && nodes[i].parent == nodes[j].parent
                       ==> nodes[i].parentIndex != nodes[j].parentIndex)
  }

  lemma {:induction false} GroupsLayout(a: Argp, at: nat, parent: Option<nat>, index: nat, base: nat)
    requires parent.Some? ==> parent.value < base
    ensures Layout(GroupsOf(a, at, parent, index, base), base, parent, index, index + 1)
    decreases a, 1
  {
    hide Layout;
    if a.Grouped() {
      var node := Node(at, a.Opts(), a.hasParser, parent, index, |a.children|);
      GroupsLayoutKids(a.children, at + 1, Some(base), 0, base + 1);
      LayoutUnder(node, GroupsOfKids(a.children, at + 1, Some(base), 0, base + 1), base, parent, index);
    } else {
      GroupsLayoutKids(a.children, at + 1, None, 0, base);
      LayoutAlone(GroupsOfKids(a.children, at + 1, None, 0, base), base, parent, index, |a.children|);
    }
  }

  /** A group and its children's pieces. */
  lemma LayoutUnder(node: Node, kids: seq<Node>, base: nat, parent: Option<nat>, index: nat)
    requires (parent.Some? ==> parent.value < base) && node.parent == parent && node.parentIndex == index
    requires Layout(kids, base + 1, Some(base), 0, node.kids)
    ensures Layout([node] + kids, base, parent, index, index + 1)
  {
    var nodes := [node] + kids;
    forall j | 0 <= j < |nodes|
      ensures Placed(nodes, base, parent, index, j)
      ensures j > 0 && nodes[j].parent.Some? ==> nodes[j].parent.value >= base
    {
      if j > 0 {
        assert nodes[j] == kids[j - 1] && Placed(kids, base + 1, Some(base), 0, j - 1);
      }
    }
    forall i, j | 0 <= i < j < |nodes| && nodes[i].parent.Some? && nodes[i].parent == nodes[j].parent
      ensures nodes[i].parentIndex != nodes[j].parentIndex
    {
      assert i > 0 && nodes[i] == kids[i - 1] && nodes[j] == kids[j - 1];
    }
  }

  /** The pieces of an argp without a group hang on nothing. */
  lemma LayoutAlone(nodes: seq<Node>, base: nat, parent: Option<nat>, index: nat, end: nat)
    requires (parent.Some? ==> parent.value < base) && Layout(nodes, base, None, 0, end)
    ensures Layout(nodes, base, parent, index, index + 1)
  {
    forall j | 0 <= j < |nodes|
      ensures Placed(nodes, base, parent, index, j)
      ensures nodes[j].parent.Some? ==> nodes[j].parent.value >= base
    {
      assert Placed(nodes, base, None, 0, j);
    }
  }

  lemma {:induction false} GroupsLayoutKids(cs: seq<Child>, at: nat, parent: Option<nat>, index: nat, base: nat)
    requires parent.Some? ==> parent.value < base
    ensures Layout(GroupsOfKids(cs, at, parent, index, base), base, parent, index, index + |cs|)
    decreases cs, 0
  {
    if cs != [] {
      var head := GroupsOf(First(cs), at, parent, index, base);
      var tail := GroupsOfKids(cs[1..], at + Size(First(cs)), parent, index + 1, base + |head|);
      GroupsLayout(First(cs), at, parent, index, base);
      GroupsLayoutKids(cs[1..], at + Size(First(cs)), parent, index + 1, base + |head|);
      LayoutJoin(head, tail, base, parent, index, index + |cs|);
    }
  }

  lemma LayoutJoin(head: seq<Node>, tail: seq<Node>, base: nat, parent: Option<nat>, index: nat, end: nat)
    requires index < end
    requires Layout(head, base, parent, index, index + 1)
    requires Layout(tail, base + |head|, parent, index + 1, end)
    ensures Layout(head + tail, base, parent, index, end)
  {
    var nodes, mid := head + tail, base + |head|;
    forall j | 0 <= j < |nodes|
      ensures Placed(nodes, base, parent, index, j)
      ensures parent.Some? && nodes[j].parent == parent ==> nodes[j].parentIndex < end
      ensures nodes[j].parent.Some? && nodes[j].parent != parent ==>
                if j < |head| then base <= nodes[j].parent.value < mid else mid <= nodes[j].parent.value
      ensures parent.Some? && nodes[j].parent == parent ==>
                if j < |head| then nodes[j].parentIndex == index else nodes[j].parentIndex > index
    {
      if j < |head| {
        assert Placed(head, base, parent, index, j);
      } else {
        assert nodes[j] == tail[j - |head|] && Placed(tail, mid, parent, index + 1, j - |head|);
      }
    }
    forall i, j | 0 <= i < j < |nodes| && nodes[i].parent.Some? && nodes[i].parent == nodes[j].parent
      ensures nodes[i].parentIndex != nodes[j].parentIndex
    {
      assert i < |head| ==> nodes[i] == head[i];
      assert j < |head| ==> nodes[j] == head[j];
      assert i >= |head| ==> nodes[i] == tail[i - |head|];
      assert j >= |head| ==> nodes[j] == tail[j - |head|];
    }
  }

  /** The layout of a whole tree: every parent precedes its children, a child's
      place is among its parent's, and no two children share a place. */
  lemma GroupsAreLaidOut(a: Argp, j: nat)
    requires j < |GroupsOf(a, 0, None, 0, 0)|
    ensures var nodes := GroupsOf(a, 0, None, 0, 0);
            && (nodes[j].parent.Some? ==>
                  nodes[j].parent.value < j && nodes[j].parentIndex < nodes[nodes[j].parent.value].kids)
            && forall i :: 0 <= i < j && nodes[i].parent.Some? && nodes[i].parent == nodes[j].parent ==>
                 nodes[i].parentIndex != nodes[j].parentIndex
  {
    var nodes := GroupsOf(a, 0, None, 0, 0);
    GroupsLayout(a, 0, None, 0, 0);
    assert Placed(nodes, 0, None, 0, j);
  }

  // ---- the short options string ----

  /** What one option adds to the string: its key, and a colon or two for an
      argument. */
  function ShortText(o: Opt, base: Opt): (r: seq<int>)
    ensures |r| <= 3
  {
    if base.doc || !IsShort(o) then []
    else if base.arg.None? then [o.key]
    else if base.argOptional then [o.key, ':' as int, ':' as int]
    else [o.key, ':' as int]
  }

  function ShortTo(os: seq<Opt>, n: nat): (r: seq<int>)
    requires n <= |os|
    ensures |r| <= 3 * n
  {
    if n == 0 then [] else ShortTo(os, n - 1) + ShortText(os[n - 1], RealAt(os, n - 1))
  }

  function ShortString(nodes: seq<Node>): seq<int> {
    if nodes == [] then []
    else
      var node := nodes[|nodes| - 1];
      ShortString(nodes[..|nodes| - 1]) + ShortTo(node.opts, |node.opts|)
  }

  /** The length of the short options string of a tree, without its prefix. */
  function ShortLen(a: Argp): nat
    decreases a, 1
  {
    |ShortTo(a.Opts(), |a.Opts()|)| + ShortLenKids(a.children)
  }

  function ShortLenKids(cs: seq<Child>): nat
    decreases cs, 0
  {
    if cs == [] then 0 else ShortLen(First(cs)) + ShortLenKids(cs[1..])
  }

  lemma {:induction false} ShortStringConcat(a: seq<Node>, b: seq<Node>)
    ensures ShortString(a + b) == ShortString(a) + ShortString(b)
  {
    hide ShortTo;
    if b == [] {
      ConcatEmpty(a);
      ConcatEmpty(ShortString(a));
    } else {
      var n := |b| - 1;
      ShortStringConcat(a, b[..n]);
      ConcatLast(a, b);
      ConcatAssoc(ShortString(a), ShortString(b[..n]), ShortTo(b[n].opts, |b[n].opts|));
    }
  }

  lemma {:induction false} ShortLenIs(a: Argp, at: nat, parent: Option<nat>, index: nat, base: nat)
    ensures |ShortString(GroupsOf(a, at, parent, index, base))| == ShortLen(a)
    decreases a, 1
  {
    if a.Grouped() {
      var node := Node(at, a.Opts(), a.hasParser, parent, index, |a.children|);
      var kids := GroupsOfKids(a.children, at + 1, Some(base), 0, base + 1);
      ShortLenKidsIs(a.children, at + 1, Some(base), 0, base + 1);
      ShortStringConcat([node], kids);
      ShortStringOne(node);
    } else {
      ShortLenKidsIs(a.children, at + 1, None, 0, base);
    }
  }

  lemma NoShorts()
    ensures ShortString([]) == []
  {}

  lemma ShortStringOne(node: Node)
    ensures ShortString([node]) == ShortTo(node.opts, |node.opts|)
  {
    assert [node][..0] == [];
  }

  lemma {:induction false} ShortLenKidsIs(cs: seq<Child>, at: nat, parent: Option<nat>, index: nat, base: nat)
    ensures |ShortString(GroupsOfKids(cs, at, parent, index, base))| == ShortLenKids(cs)
    decreases cs, 0
  {
    hide GroupsOf, ShortLen, ShortString, ShortTo;
    if cs == [] {
      NoShorts();
    } else {
      var head := GroupsOf(First(cs), at, parent, index, base);
      var tail := GroupsOfKids(cs[1..], at + Size(First(cs)), parent, index + 1, base + |head|);
      ShortLenIs(First(cs), at, parent, index, base);
      ShortLenKidsIs(cs[1..], at + Size(First(cs)), parent, index + 1, base + |head|);
      ShortStringConcat(head, tail);
    }
  }

  /** Option i takes all three characters that calc_sizes counts for it: it is a
      short option with an optional argument. */
  predicate Full(os: seq<Opt>, i: nat)
    requires i < |os|
  {
    var base := RealAt(os, i);
    IsShort(os[i]) && !base.doc && base.arg.Some? && base.argOptional
  }

  predicate AllFull(a: Argp)
    decreases a, 1
  {
    (forall i :: 0 <= i < |a.Opts()| ==> Full(a.Opts(), i)) && AllFullKids(a.children)
  }

  predicate AllFullKids(cs: seq<Child>)
    decreases cs, 0
  {
    cs == [] || (AllFull(First(cs)) && AllFullKids(cs[1..]))
  }

  lemma {:induction false} ShortToBound(os: seq<Opt>, n: nat)
    requires n <= |os|
    ensures |ShortTo(os, n)| <= 3 * n && (|ShortTo(os, n)| == 3 * n <==> forall i :: 0 <= i < n ==> Full(os, i))
  {
    if n > 0 {
      ShortToBound(os, n - 1);
      assert |ShortText(os[n - 1], RealAt(os, n - 1))| == 3 <==> Full(os, n - 1);
      assert |ShortTo(os, n)| == 3 * n ==> Full(os, n - 1);
    }
  }

  lemma {:induction false} ShortToGrows(os: seq<Opt>, m: nat, n: nat)
    requires m <= n <= |os|
    ensures |ShortTo(os, m)| <= |ShortTo(os, n)|
  {
    if m < n {
      ShortToGrows(os, m, n - 1);
    }
  }

  /** The string has the length calc_sizes counts if and only if every option
      takes all of its three characters, and is shorter otherwise. */
  lemma {:induction false} ShortLenBound(a: Argp)
    ensures ShortLen(a) <= 3 * NumOpts(a) && (ShortLen(a) == 3 * NumOpts(a) <==> AllFull(a))
    decreases a, 1
  {
    ShortToBound(a.Opts(), |a.Opts()|);
    ShortLenKidsBound(a.children);
  }

  lemma {:induction false} ShortLenKidsBound(cs: seq<Child>)
    ensures ShortLenKids(cs) <= 3 * NumOptsKids(cs) && (ShortLenKids(cs) == 3 * NumOptsKids(cs) <==> AllFullKids(cs))
    decreases cs, 0
  {
    if cs != [] {
      ShortLenBound(First(cs));
      ShortLenKidsBound(cs[1..]);
    }
  }

  /** Option i of the node can be used as short option C. */
  predicate DeclaresAt(node: Node, i: nat, c: int)
    requires i < |node.opts|
  {
    IsShort(node.opts[i]) && !RealAt(node.opts, i).doc && node.opts[i].key == c
  }

  predicate Declares(node: Node, c: int) {
    exists i :: 0 <= i < |node.opts| && DeclaresAt(node, i, c)
  }

  lemma {:induction false} ShortToMembers(node: Node, n: nat, c: int)
    requires n <= |node.opts| && c != ':' as int
    ensures c in ShortTo(node.opts, n) <==> exists i :: 0 <= i < n && DeclaresAt(node, i, c)
  {
    if n > 0 {
      ShortToMembers(node, n - 1, c);
      assert c in ShortText(node.opts[n - 1], RealAt(node.opts, n - 1)) <==> DeclaresAt(node, n - 1, c);
    }
  }

  lemma NodeMembers(node: Node, c: int)
    requires c != ':' as int
    ensures c in ShortTo(node.opts, |node.opts|) <==> Declares(node, c)
  {
    ShortToMembers(node, |node.opts|, c);
  }

  /** The group's part of the string contains C. */
  predicate HasChar(node: Node, c: int) {
    c in ShortTo(node.opts, |node.opts|)
  }

  lemma StringHasChar(nodes: seq<Node>, c: int)
    requires nodes != []
    ensures var n := |nodes| - 1; c in ShortString(nodes) <==> c in ShortString(nodes[..n]) || HasChar(nodes[n], c)
  {
    hide ShortTo;
    var n := |nodes| - 1;
    assert ShortString(nodes) == ShortString(nodes[..n]) + ShortTo(nodes[n].opts, |nodes[n].opts|);
  }

  lemma {:induction false} HolderOfChar(nodes: seq<Node>, c: int) returns (k: nat)
    requires c in ShortString(nodes)
    ensures k < |nodes| && HasChar(nodes[k], c)
  {
    hide HasChar;
    k := |nodes| - 1;
    StringHasChar(nodes, c);
    if !HasChar(nodes[k], c) {
      k := HolderOfChar(nodes[..k], c);
    }
  }

  lemma {:induction false} CharOfHolder(nodes: seq<Node>, c: int, k: nat)
    requires k < |nodes| && HasChar(nodes[k], c)
    ensures c in ShortString(nodes)
  {
    hide HasChar;
    var n := |nodes| - 1;
    StringHasChar(nodes, c);
    if k < n {
      CharOfHolder(nodes[..n], c, k);
    }
  }

  lemma ShortStringChars(nodes: seq<Node>, c: int)
    ensures c in ShortString(nodes) <==> exists k :: 0 <= k < |nodes| && HasChar(nodes[k], c)
  {
    hide ShortString, HasChar;
    if c in ShortString(nodes) {
      var k := HolderOfChar(nodes, c);
    }
    if k :| 0 <= k < |nodes| && HasChar(nodes[k], c) {
      CharOfHolder(nodes, c, k);
    }
  }

  lemma ShortStringMembers(nodes: seq<Node>, c: int)
    requires c != ':' as int
    ensures c in ShortString(nodes) <==> exists k :: 0 <= k < |nodes| && Declares(nodes[k], c)
  {
    hide ShortString, Declares;
    ShortStringChars(nodes, c);
    forall k | 0 <= k < |nodes|
      ensures HasChar(nodes[k], c) <==> Declares(nodes[k], c)
    {
      NodeMembers(nodes[k], c);
    }
  }

  lemma {:induction false} ShortStringPrefix(nodes: seq<Node>, k: nat)
    requires k <= |nodes|
    ensures ShortString(nodes[..k]) <= ShortString(nodes)
    decreases |nodes|
  {
    if k < |nodes| {
      var n := |nodes| - 1;
      ShortStringPrefix(nodes[..n], k);
      assert nodes[..n][..k] == nodes[..k];
    } else {
      assert nodes[..k] == nodes;
    }
  }

  /** Where the part of the string that belongs to group k ends. */
  function ShortEnd(prefix: seq<int>, nodes: seq<Node>, k: nat): nat
    requires k < |nodes|
  {
    |prefix| + |ShortString(nodes[..k + 1])|
  }

  /** The scan over short_end picks the first group whose part contains C: for
      the first place x of C in the string, every earlier group ends at or before
      x, and that group ends after it. */
  lemma FirstHolderFound(prefix: seq<int>, nodes: seq<Node>, c: int, k: nat, x: nat)
    requires c !in prefix
    requires k < |nodes| && HasChar(nodes[k], c) && forall j :: 0 <= j < k ==> !HasChar(nodes[j], c)
    requires var s := prefix + ShortString(nodes); x < |s| && s[x] == c && c !in s[..x]
    ensures x < ShortEnd(prefix, nodes, k)
    ensures forall j :: 0 <= j < k ==> ShortEnd(prefix, nodes, j) <= x
  {
    hide ShortString, HasChar;
    var s, before, upto := prefix + ShortString(nodes), ShortString(nodes[..k]), ShortString(nodes[..k + 1]);
    assert before <= ShortString(nodes) by { ShortStringPrefix(nodes, k); }
    assert upto <= ShortString(nodes) by { ShortStringPrefix(nodes, k + 1); }
    assert c !in before by {
      ShortStringChars(nodes[..k], c);
    }
    assert c in upto by {
      ShortStringChars(nodes[..k + 1], c);
      assert nodes[..k + 1][k] == nodes[k];
    }
    FirstInConcat(prefix, before, upto, ShortString(nodes), c, x);
    forall j | 0 <= j < k
      ensures ShortEnd(prefix, nodes, j) <= x
    {
      ShortStringPrefix(nodes[..k], j + 1);
      assert nodes[..k][..j + 1] == nodes[..j + 1];
    }
  }

  /** That is the first group that declares it, unless C is a colon. */
  lemma FirstDeclarerFound(prefix: seq<int>, nodes: seq<Node>, c: int, k: nat, x: nat)
    requires c != ':' as int && c !in prefix
    requires k < |nodes| && Declares(nodes[k], c) && forall j :: 0 <= j < k ==> !Declares(nodes[j], c)
    requires var s := prefix + ShortString(nodes); x < |s| && s[x] == c && c !in s[..x]
    ensures x < ShortEnd(prefix, nodes, k)
    ensures forall j :: 0 <= j < k ==> ShortEnd(prefix, nodes, j) <= x
  {
    hide ShortString, Declares;
    forall j | 0 <= j < |nodes|
      ensures HasChar(nodes[j], c) <==> Declares(nodes[j], c)
    {
      NodeMembers(nodes[j], c);
    }
    FirstHolderFound(prefix, nodes, c, k, x);
  }

  lemma FirstInConcat(prefix: seq<int>, before: seq<int>, upto: seq<int>, text: seq<int>, c: int, x: nat)
    requires before <= text && upto <= text && c !in prefix && c !in before && c in upto
    requires var s := prefix + text; x < |s| && s[x] == c && c !in s[..x]
    ensures |prefix| + |before| <= x < |prefix| + |upto|
  {
    var s := prefix + text;
    var y :| 0 <= y < |upto| && upto[y] == c;
    assert s[|prefix| + y] == c;
    assert forall z :: 0 <= z < x ==> s[z] == s[..x][z];
    assert forall z :: 0 <= z < |prefix| + |before| ==> s[z] == (prefix + before)[z] != c;
  }

  /** The first group from k on that declares short option C. */
  function FirstGroup(nodes: seq<Node>, c: int, k: nat): (g: Option<nat>)
    requires k <= |nodes|
    ensures g.Some? ==> k <= g.value < |nodes| && Declares(nodes[g.value], c)
                        && forall j :: k <= j < g.value ==> !Declares(nodes[j], c)
    ensures g.None? ==> forall j :: k <= j < |nodes| ==> !Declares(nodes[j], c)
    decreases |nodes| - k
  {
    if k == |nodes| then None else if Declares(nodes[k], c) then Some(k) else FirstGroup(nodes, c, k + 1)
  }

  /** The first group from k on whose part of the string contains C. */
  function FirstHolder(nodes: seq<Node>, c: int, k: nat): (g: Option<nat>)
    requires k <= |nodes|
    ensures g.Some? ==> k <= g.value < |nodes| && HasChar(nodes[g.value], c)
                        && forall j :: k <= j < g.value ==> !HasChar(nodes[j], c)
    ensures g.None? ==> forall j :: k <= j < |nodes| ==> !HasChar(nodes[j], c)
    decreases |nodes| - k
  {
    hide HasChar;
    if k == |nodes| then None else if HasChar(nodes[k], c) then Some(k) else FirstHolder(nodes, c, k + 1)
  }

  lemma {:induction false} HolderDeclares(nodes: seq<Node>, c: int, k: nat)
    requires k <= |nodes| && c != ':' as int
    ensures FirstHolder(nodes, c, k) == FirstGroup(nodes, c, k)
    decreases |nodes| - k
  {
    if k < |nodes| {
      NodeMembers(nodes[k], c);
      HolderDeclares(nodes, c, k + 1);
    }
  }

  /** The group that the scan finds for character C of the string. The leading
      character belongs to the first group, as every part behind it does. */
  function ScannedGroup(prefix: seq<int>, nodes: seq<Node>, c: int): (g: Option<nat>)
    ensures g.Some? ==> g.value < |nodes|
  {
    if c !in prefix then FirstHolder(nodes, c, 0) else if nodes == [] then None else Some(0)
  }

  /** The first character of the short string, for ARGP_IN_ORDER and
      ARGP_NO_ARGS. */
  function Prefix(inOrder: bool, noArgs: bool): seq<int> {
    if inOrder then ['-' as int] else if noArgs then ['+' as int] else []
  }

  // ---- child inputs ----

  /** Where the child_inputs slice of the next group starts. */
  function InputSum(nodes: seq<Node>): nat {
    if nodes == [] then 0 else InputSum(nodes[..|nodes| - 1]) + nodes[|nodes| - 1].kids
  }

  /** The slices of different groups do not overlap. */
  lemma {:induction false} SlicesInOrder(nodes: seq<Node>, i: nat, j: nat)
    requires i < j <= |nodes|
    ensures InputSum(nodes[..i]) + nodes[i].kids <= InputSum(nodes[..j])
  {
    assert nodes[..j][..j - 1] == nodes[..j - 1];
    if i < j - 1 {
      SlicesInOrder(nodes, i, j - 1);
    }
  }

  // ---- packed values of long options ----

  /** GROUP_BITS and USER_BITS for a 32-bit int. */
  const USER_RANGE := 0x100_0000
  const USER_HALF := 0x80_0000
  const INT_MAX := 0x7fff_ffff
  const INT_RANGE := 0x1_0000_0000

  /** The conversion of a longer integer to an int. */
  function Wrap(x: int): (v: int)
    ensures -INT_MAX - 1 <= v <= INT_MAX
  {
    (x + INT_MAX + 1) % INT_RANGE - INT_MAX - 1
  }

  /** (key & USER_MASK) + ((k + 1) << USER_BITS), a pointer difference having
      64 bits, stored in an int. */
  function Pack(k: nat, key: int): int {
    Wrap(key % USER_RANGE + (k + 1) * USER_RANGE)
  }

  /** opt >> USER_BITS. */
  function GroupKeyOf(opt: int): int {
    opt / USER_RANGE
  }

  /** The user's key in the low bits, its sign restored. */
  function UserKeyOf(opt: int): int {
    var low := opt % USER_RANGE;
    if low >= USER_HALF then low - USER_RANGE else low
  }

  /** Decoding returns the key exactly when it fits the 24 bits left to the user,
      and the group exactly for the first 127 groups: only eight bits are left for
      its number, one of them the sign. For those groups a packed value never
      looks like a short option or a special value. */
  lemma PackRoundTrip(k: nat, key: int)
    ensures UserKeyOf(Pack(k, key)) == key <==> -USER_HALF <= key < USER_HALF
    ensures GroupKeyOf(Pack(k, key)) == (k + 1 + 128) % 256 - 128
    ensures GroupKeyOf(Pack(k, key)) == k + 1 <==> k < 127
    ensures k < 127 ==> USER_RANGE <= Pack(k, key) <= INT_MAX
  {
    var low, q := key % USER_RANGE, k + 1 + 128;
    var byte := q % 256;
    assert low + (k + 1) * USER_RANGE + INT_MAX + 1 == (low + byte * USER_RANGE) + (q / 256) * INT_RANGE;
    DivMod(q / 256, low + byte * USER_RANGE, INT_RANGE);
    assert Pack(k, key) == low + (byte - 128) * USER_RANGE;
    if -USER_HALF <= key < 0 {
      assert key + USER_RANGE == low;
    }
  }

  /** So the 128th group's options are taken for those of a group before the
      first, and the 256th group's for short options. */
  lemma GroupNumbersWrap(key: int)
    ensures GroupKeyOf(Pack(127, key)) == -128 && GroupKeyOf(Pack(255, key)) == 0
  {
    PackRoundTrip(127, key);
    PackRoundTrip(255, key);
  }

  // ---- the table of long options ----

  datatype HasArg = NoArgument | RequiredArgument | OptionalArgument

  datatype LongOpt = LongOpt(name: Option<CString>, hasArg: HasArg, val: int)

  function LongOf(o: Opt, base: Opt, k: nat): LongOpt {
    LongOpt(o.name,
            if base.arg.None? then NoArgument else if base.argOptional then OptionalArgument else RequiredArgument,
            Pack(k, if o.key != 0 then o.key else base.key))
  }

  /** The long options that group k declares among its first n options, before
      any conflict is resolved. */
  function LongCands(os: seq<Opt>, n: nat, k: nat): (r: seq<LongOpt>)
    requires n <= |os|
    ensures |r| <= n && forall e :: e in r ==> e.name.Some?
  {
    if n == 0 then []
    else
      LongCands(os, n - 1, k)
      + if !RealAt(os, n - 1).doc && os[n - 1].name.Some? then [LongOf(os[n - 1], RealAt(os, n - 1), k)] else []
  }

  function AllCands(nodes: seq<Node>): (r: seq<LongOpt>)
    ensures forall e :: e in r ==> e.name.Some?
  {
    if nodes == [] then []
    else
      var k := |nodes| - 1;
      AllCands(nodes[..k]) + LongCands(nodes[k].opts, |nodes[k].opts|, k)
  }

  /** Every entry is a packed value of a group that exists. */
  lemma {:induction false} CandsArePacked(nodes: seq<Node>, e: LongOpt) returns (k: nat, key: int)
    requires e in AllCands(nodes)
    ensures k < |nodes| && e.val == Pack(k, key)
  {
    k := |nodes| - 1;
    if e in LongCands(nodes[k].opts, |nodes[k].opts|, k) {
      key := CandIsPacked(nodes[k].opts, |nodes[k].opts|, k, e);
    } else {
      k, key := CandsArePacked(nodes[..k], e);
    }
  }

  lemma {:induction false} CandIsPacked(os: seq<Opt>, n: nat, k: nat, e: LongOpt) returns (key: int)
    requires n <= |os| && e in LongCands(os, n, k)
    ensures e.val == Pack(k, key)
  {
    if e in LongCands(os, n - 1, k) {
      key := CandIsPacked(os, n - 1, k, e);
    } else {
      key := if os[n - 1].key != 0 then os[n - 1].key else RealAt(os, n - 1).key;
    }
  }

  predicate HasName(table: seq<LongOpt>, name: Option<CString>) {
    exists j :: 0 <= j < |table| && table[j].name == name
  }

  /** The candidates without those whose name has come before. */
  function FirstNames(cands: seq<LongOpt>): (r: seq<LongOpt>)
    ensures |r| <= |cands|
    ensures forall j :: 0 <= j < |r| ==> r[j] in cands
  {
    if cands == [] then []
    else
      var n := |cands| - 1;
      FirstNames(cands[..n]) + if HasName(cands[..n], cands[n].name) then [] else [cands[n]]
  }

  lemma {:induction false} FirstNamesNames(cands: seq<LongOpt>, name: Option<CString>)
    ensures HasName(FirstNames(cands), name) <==> HasName(cands, name)
  {
    if cands != [] {
      var n := |cands| - 1;
      var front, last := FirstNames(cands[..n]), cands[n];
      FirstNamesNames(cands[..n], name);
      if HasName(cands, name) && !HasName(cands[..n], name) {
        assert last.name == name;
        assert FirstNames(cands)[|front|] == last;
      }
      if HasName(cands[..n], name) {
        var j :| 0 <= j < |front| && front[j].name == name;
        assert FirstNames(cands)[j].name == name;
        var i :| 0 <= i < n && cands[..n][i].name == name;
        assert cands[i].name == name;
      }
    }
  }

  /** Conflicts go to the first declaration: the table's entry for a name is the
      first candidate of that name, and names occur once. */
  lemma {:induction false} FirstNamesFirst(cands: seq<LongOpt>, j: nat, i: nat)
    requires j < |FirstNames(cands)| && i < |cands|
    requires cands[i].name == FirstNames(cands)[j].name
    requires forall m :: 0 <= m < i ==> cands[m].name != cands[i].name
    ensures FirstNames(cands)[j] == cands[i]
    ensures forall l :: 0 <= l < j ==> FirstNames(cands)[l].name != FirstNames(cands)[j].name
  {
    var n := |cands| - 1;
    var front, e := FirstNames(cands[..n]), FirstNames(cands)[j];
    if j < |front| {
      assert front[j] == e && e in cands[..n];
      var m :| 0 <= m < n && cands[..n][m] == e;
      assert i <= m;
      FirstNamesFirst(cands[..n], j, i);
      assert forall l :: 0 <= l < j ==> FirstNames(cands)[l] == front[l];
    } else {
      assert e == cands[n];
      FirstNamesNames(cands[..n], e.name);
      assert forall l :: 0 <= l < j ==> FirstNames(cands)[l] == front[l];
    }
  }
}
