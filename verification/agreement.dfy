/** The help output and the parser read the same option tree by different
    means. Here they are compared: under which argp the help lists a short
    option, and which argp's parser is called for it. */
module Agreement {
  import opened Wrappers
  import opened FirstOccurrence
  import opened ArgpTree
  import opened HolCode
  import opened HolSpec
  import opened Tables
  import opened GetoptShort
  import opened Sequences

  /** The declarations of some groups, group after group. */
  function NodesOccs(nodes: seq<Node>): seq<Occ> {
    if nodes == [] then []
    else NodeOccs(nodes[0].opts, nodes[0].owner) + NodesOccs(nodes[1..])
  }

  lemma {:induction false} NodesOccsConcat(a: seq<Node>, b: seq<Node>)
    ensures NodesOccs(a + b) == NodesOccs(a) + NodesOccs(b)
  {
    hide NodeOccs;
    if a == [] {
      ConcatEmpty(b);
      ConcatEmpty(NodesOccs(b));
    } else {
      NodesOccsConcat(a[1..], b);
      ConcatFirst(a, b);
      ConcatAssoc(NodeOccs(a[0].opts, a[0].owner), NodesOccs(a[1..]), NodesOccs(b));
    }
  }

  /** The groups declare what the tree declares: an argp without a group has no
      options. */
  lemma {:induction false} GroupsOccs(a: Argp, at: nat, parent: Option<nat>, index: nat, base: nat)
    ensures NodesOccs(GroupsOf(a, at, parent, index, base)) == TreeOccs(a, at)
    decreases a, 1
  {
    if a.Grouped() {
      var node := Node(at, a.Opts(), a.hasParser, parent, index, |a.children|);
      var kids := GroupsOfKids(a.children, at + 1, Some(base), 0, base + 1);
      GroupsKidsOccs(a.children, at + 1, Some(base), 0, base + 1);
      assert ([node] + kids)[1..] == kids;
    } else {
      GroupsKidsOccs(a.children, at + 1, None, 0, base);
      assert NodeOccs(a.Opts(), at) == [];
    }
  }

  lemma {:induction false} GroupsKidsOccs(cs: seq<Child>, at: nat, parent: Option<nat>, index: nat, base: nat)
    ensures NodesOccs(GroupsOfKids(cs, at, parent, index, base)) == KidOccs(cs, at)
    decreases cs, 0
  {
    if cs != [] {
      var head := GroupsOf(First(cs), at, parent, index, base);
      var tail := GroupsOfKids(cs[1..], at + Size(First(cs)), parent, index + 1, base + |head|);
      GroupsOccs(First(cs), at, parent, index, base);
      GroupsKidsOccs(cs[1..], at + Size(First(cs)), parent, index + 1, base + |head|);
      NodesOccsConcat(head, tail);
    }
  }

  ghost predicate OwnersWithin(xs: seq<Occ>, lo: nat, hi: nat) {
    && (forall i :: 0 <= i < |xs| ==> lo <= xs[i].owner < hi)
    && (forall i, j :: 0 <= i < j < |xs| ==> xs[i].owner <= xs[j].owner)
  }

  lemma NoOwners(lo: nat, hi: nat)
    ensures OwnersWithin([], lo, hi)
  {}

  lemma OwnersJoin(xs: seq<Occ>, ys: seq<Occ>, lo: nat, mid: nat, hi: nat)
    requires OwnersWithin(xs, lo, mid) && OwnersWithin(ys, mid, hi) && lo <= mid <= hi
    ensures OwnersWithin(xs + ys, lo, hi)
  {}

  /** Owners appear in preorder. */
  lemma {:induction false} OwnersAscend(a: Argp, at: nat)
    ensures OwnersWithin(TreeOccs(a, at), at, at + Size(a))
    decreases a, 1
  {
    OwnersAscendKids(a.children, at + 1);
  }

  lemma {:induction false} OwnersAscendKids(cs: seq<Child>, at: nat)
    ensures OwnersWithin(KidOccs(cs, at), at, at + SizeKids(cs))
    decreases cs, 0
  {
    hide OwnersWithin;
    if cs == [] {
      NoOwners(at, at);
    } else {
      var n := Size(First(cs));
      OwnersAscend(First(cs), at);
      OwnersAscendKids(cs[1..], at + n);
      OwnersJoin(TreeOccs(First(cs), at), KidOccs(cs[1..], at + n), at, at + n, at + SizeKids(cs));
    }
  }

  /** A declaration that the help shows under key C, and one that the parser
      accepts under it. */
  predicate Shows(x: Occ, c: int) {
    IsShort(x.opt) && x.opt.key == c
  }

  predicate Accepts(x: Occ, c: int) {
    Shows(x, c) && !x.base.doc
  }

  /** The first declaration the parser accepts belongs to the first group that
      declares the key. */
  lemma {:induction false} FirstAccepted(nodes: seq<Node>, c: int, k: nat) returns (y: nat)
    requires k < |nodes| && Declares(nodes[k], c) && forall j :: 0 <= j < k ==> !Declares(nodes[j], c)
    ensures var xs := NodesOccs(nodes);
            && y < |xs| && Accepts(xs[y], c) && xs[y].owner == nodes[k].owner
            && forall z :: 0 <= z < y ==> !Accepts(xs[z], c)
  {
    var own := NodeOccs(nodes[0].opts, nodes[0].owner);
    if k == 0 {
      y := FirstDeclared(nodes[0], c);
      assert forall z :: 0 <= z <= y ==> (Accepts(own[z], c) <==> DeclaresAt(nodes[0], z, c));
    } else {
      y := FirstAccepted(nodes[1..], c, k - 1);
      assert forall z :: 0 <= z < |own| ==> (Accepts(own[z], c) <==> DeclaresAt(nodes[0], z, c));
      y := y + |own|;
    }
  }

  lemma FirstDeclared(node: Node, c: int) returns (y: nat)
    requires Declares(node, c)
    ensures y < |node.opts| && DeclaresAt(node, y, c) && forall z :: 0 <= z < y ==> !DeclaresAt(node, z, c)
  {
    y := 0;
    while !DeclaresAt(node, y, c)
      invariant y < |node.opts| && forall z :: 0 <= z < y ==> !DeclaresAt(node, z, c)
      invariant exists z :: y <= z < |node.opts| && DeclaresAt(node, z, c)
      decreases |node.opts| - y
    {
      y := y + 1;
    }
  }

  /** The group of an accepted declaration declares the key. */
  lemma {:induction false} GroupOfAccepted(nodes: seq<Node>, c: int, z: nat) returns (n: nat)
    requires z < |NodesOccs(nodes)| && Accepts(NodesOccs(nodes)[z], c)
    ensures n < |nodes| && Declares(nodes[n], c) && nodes[n].owner == NodesOccs(nodes)[z].owner
  {
    var own := NodeOccs(nodes[0].opts, nodes[0].owner);
    if z < |own| {
      assert DeclaresAt(nodes[0], z, c);
      n := 0;
    } else {
      n := GroupOfAccepted(nodes[1..], c, z - |own|);
      n := n + 1;
    }
  }

  /** A group that declares a key has an accepted declaration of it. */
  lemma {:induction false} AcceptedInGroup(nodes: seq<Node>, c: int, n: nat) returns (z: nat)
    requires n < |nodes| && Declares(nodes[n], c)
    ensures z < |NodesOccs(nodes)| && Accepts(NodesOccs(nodes)[z], c) && NodesOccs(nodes)[z].owner == nodes[n].owner
  {
    var own := NodeOccs(nodes[0].opts, nodes[0].owner);
    if n == 0 {
      z := FirstDeclared(nodes[0], c);
      assert Accepts(own[z], c);
    } else {
      z := AcceptedInGroup(nodes[1..], c, n - 1);
      z := z + |own|;
    }
  }

  /** The entry that owns a short option stands for the first declaration of its
      key in the tree. */
  lemma OwnerIsFirst(a: Argp, es: seq<Entry>, str: seq<int>, i: nat, j: nat) returns (x: nat)
    requires HeadedTree(a) && SameButGroups(Items(es), TreeItems(a, 0, None)) && Coded(es, str)
    requires i < |es| && j < |es[i].item.opts| && Owns(es[i].item.opts, str, es[i].so, j)
    ensures var xs, c := TreeOccs(a, 0), es[i].item.opts[j].key;
            && x < |xs| && Shows(xs[x], c) && xs[x].owner == es[i].item.owner
            && forall z :: 0 <= z < x ==> !Shows(xs[z], c)
  {
    hide TreeItems, TreeOccs, OptsOf, ListOccs, Dedup, HeadedTree;
    var items, xs, c := Items(es), TreeOccs(a, 0), es[i].item.opts[j].key;
    TreeItemsOccs(a, 0, None);
    GroupsDoNotDeclare(items, TreeItems(a, 0, None));
    OptsAreOccs(items);
    DecodeInvertsEncode(es, str, i, j);
    x := |OptsOf(items[..i])| + j;
    ItemOwner(items, i, j);
    var keys := Keys(OptsOf(items));
    forall z | 0 <= z < x
      ensures !Shows(xs[z], c)
    {
      assert keys[z] == ShortKey(xs[z].opt) && keys[..x][z] == keys[z];
    }
  }

  lemma ItemOwner(items: seq<Item>, i: nat, j: nat)
    requires i < |items| && j < |items[i].opts|
    ensures var x, xs := |OptsOf(items[..i])| + j, ListOccs(items);
            x < |xs| && xs[x].owner == items[i].owner && xs[x].opt == items[i].opts[j]
  {
    OptsAreOccs(items[..i]);
    ListOccsConcat(items[..i], items[i..]);
    assert items[..i] + items[i..] == items;
    assert ListOccs(items[i..])[j] == ItemOccs(items[i])[j];
  }

  /** When an entry of the help owns short option C, its argp is that of the
      first group that declares C if and only if the argp itself has a declaration
      of C that is not an alias of a documentation option. */
  lemma FirstIffAccepted(a: Argp, es: seq<Entry>, str: seq<int>, i: nat, j: nat)
    requires HeadedTree(a) && SameButGroups(Items(es), TreeItems(a, 0, None)) && Coded(es, str)
    requires i < |es| && j < |es[i].item.opts| && Owns(es[i].item.opts, str, es[i].so, j)
    ensures var nodes, c := GroupsOf(a, 0, None, 0, 0), es[i].item.opts[j].key;
            var k := FirstGroup(nodes, c, 0);
            k.Some? && nodes[k.value].owner == es[i].item.owner <==> OwnerDeclares(nodes, c, es[i].item.owner)
  {
    var nodes, xs, c := GroupsOf(a, 0, None, 0, 0), TreeOccs(a, 0), es[i].item.opts[j].key;
    var k := FirstGroup(nodes, c, 0);
    if n :| 0 <= n < |nodes| && Declares(nodes[n], c) && nodes[n].owner == es[i].item.owner {
      GroupsOccs(a, 0, None, 0, 0);
      OwnersAscend(a, 0);
      var x := OwnerIsFirst(a, es, str, i, j);
      var y := FirstAccepted(nodes, c, k.value);
      var z := AcceptedInGroup(nodes, c, n);
      assert x <= y <= z;
    }
  }

  /** The argp has a declaration of C that is no alias of documentation. */
  ghost predicate OwnerDeclares(nodes: seq<Node>, c: int, owner: nat) {
    exists n :: 0 <= n < |nodes| && Declares(nodes[n], c) && nodes[n].owner == owner
  }

  /** The option letter C reaches a group of this argp. */
  predicate Reaches(prefix: seq<int>, nodes: seq<Node>, c: int, owner: nat) {
    var g := CalledGroup(prefix, nodes, c);
    g.Some? && nodes[g.value].owner == owner
  }

  /** Help and parser agree on the argp of a short option if and only if getopt
      returns the option and the argp under which the help lists it has a
      declaration of it that is no alias of a documentation option; or, for a
      '-' or '+' that ARGP_IN_ORDER or ARGP_NO_ARGS has put in front of the string,
      if that argp is the one with the first group. Otherwise the parser calls
      another argp, or none at all. */
  lemma AgreeIffAccepted(a: Argp, es: seq<Entry>, str: seq<int>, i: nat, j: nat, inOrder: bool, noArgs: bool)
    requires HeadedTree(a) && SameButGroups(Items(es), TreeItems(a, 0, None)) && Coded(es, str)
    requires i < |es| && j < |es[i].item.opts| && Owns(es[i].item.opts, str, es[i].so, j)
    ensures var prefix, nodes, c := Prefix(inOrder, noArgs), GroupsOf(a, 0, None, 0, 0), es[i].item.opts[j].key;
            Reaches(prefix, nodes, c, es[i].item.owner)
            <==> && Returns(OptString(prefix, nodes), c)
                 && if c in prefix then nodes != [] && nodes[0].owner == es[i].item.owner
                    else OwnerDeclares(nodes, c, es[i].item.owner)
  {
    hide Returns, OwnerDeclares, GroupsOf;
    var prefix, nodes, c := Prefix(inOrder, noArgs), GroupsOf(a, 0, None, 0, 0), es[i].item.opts[j].key;
    if Returns(OptString(prefix, nodes), c) && c !in prefix {
      CalledIsFirst(prefix, nodes, c);
      FirstIffAccepted(a, es, str, i, j);
    }
  }

  /** No short key of the tree has a meaning of its own for getopt. */
  ghost predicate Ordinary(a: Argp) {
    forall z :: 0 <= z < |TreeOccs(a, 0)| && IsShort(TreeOccs(a, 0)[z].opt) ==> !Special(TreeOccs(a, 0)[z].opt.key)
  }

  /** No short option of the tree is an alias of a documentation option. */
  ghost predicate NoDocAlias(a: Argp) {
    forall z :: 0 <= z < |TreeOccs(a, 0)| && IsShort(TreeOccs(a, 0)[z].opt) ==> !TreeOccs(a, 0)[z].base.doc
  }

  /** So they agree on every short option of a tree in which no short option is
      an alias of a documentation option, in particular when aliases have the
      documentation flag of their real option, and no short key is one of the
      characters ':', ';', '-' and '+'. */
  lemma HelpAndParserAgree(a: Argp, es: seq<Entry>, str: seq<int>, i: nat, j: nat, inOrder: bool, noArgs: bool)
      returns (k: nat)
    requires HeadedTree(a) && SameButGroups(Items(es), TreeItems(a, 0, None)) && Coded(es, str)
    requires i < |es| && j < |es[i].item.opts| && Owns(es[i].item.opts, str, es[i].so, j)
    requires NoDocAlias(a) && Ordinary(a)
    ensures var nodes, c := GroupsOf(a, 0, None, 0, 0), es[i].item.opts[j].key;
            && k < |nodes| && Declares(nodes[k], c) && (forall m :: 0 <= m < k ==> !Declares(nodes[m], c))
            && CalledGroup(Prefix(inOrder, noArgs), nodes, c) == Some(k) && nodes[k].owner == es[i].item.owner
  {
    hide GroupsOf, TreeOccs, Declares, Returns, ScannedGroup;
    var nodes, xs, c := GroupsOf(a, 0, None, 0, 0), TreeOccs(a, 0), es[i].item.opts[j].key;
    GroupsOccs(a, 0, None, 0, 0);
    var x := OwnerIsFirst(a, es, str, i, j);
    assert Accepts(xs[x], c);
    var n := GroupOfAccepted(nodes, c, x);
    FirstIffAccepted(a, es, str, i, j);
    k := FirstGroup(nodes, c, 0).value;
    forall m, y | 0 <= m < |nodes| && Special(y)
      ensures !Declares(nodes[m], y)
    {
      if Declares(nodes[m], y) {
        var z := AcceptedInGroup(nodes, y, m);
      }
    }
    OrdinaryIsReturned(Prefix(inOrder, noArgs), nodes, c);
  }

  /** They do not when an argp gives short option a as an alias of documentation.
      The help lists it there; the parser calls the child that declares it as an
      option, or nobody if there is no such child. */
  lemma DocAliasDisagrees(child: bool, inOrder: bool, noArgs: bool) returns (a: Argp, es: seq<Entry>, str: seq<int>)
    ensures HeadedTree(a) && Items(es) == TreeItems(a, 0, None) && Coded(es, str)
    ensures es != [] && |es[0].item.opts| == 2 && Owns(es[0].item.opts, str, es[0].so, 1) && es[0].item.owner == 0
    ensures var nodes, c := GroupsOf(a, 0, None, 0, 0), es[0].item.opts[1].key;
            var g := CalledGroup(Prefix(inOrder, noArgs), nodes, c);
            if child then g == Some(1) && nodes[1].owner == 1 else g == None
  {
    var doc := Opt(Some("x"), 0, None, false, false, false, true, false, 0);
    var alias := Opt(None, 'a' as int, None, false, false, true, false, false, 0);
    var plain := alias.(alias := false);
    var leaf := Argp(Some([plain]), true, None, []);
    var kids := if child then [Child(leaf, None, 0)] else [];
    a := Argp(Some([doc, alias]), true, None, kids);
    assert HeadedTree(leaf) && HeadedKids([]);
    assert child ==> First(kids) == leaf && kids[1..] == [];
    assert HeadedKids(kids);
    DocAliasTree(a, doc, alias, kids);
    DocAliasGroups(a, doc, alias, plain, Prefix(inOrder, noArgs));
    var items := TreeItems(a, 0, None);
    es, str := Encode(items), Dedup(Keys(OptsOf(items)));
    EncodeIsCoded(items);
    assert es[0].item == Items(es)[0];
    DocAliasOwns(es, str, doc, alias);
  }

  lemma DocAliasTree(a: Argp, doc: Opt, alias: Opt, kids: seq<Child>)
    requires a == Argp(Some([doc, alias]), true, None, kids) && HeadedKids(kids)
    requires !doc.alias && alias.alias && doc.group == 0 && doc.name.Some?
    ensures HeadedTree(a) && TreeItems(a, 0, None) != [] && TreeItems(a, 0, None)[0] == Item([doc, alias], 0, None, 0)
  {
    DocAliasItem(doc, alias, 0, None, 0);
  }

  lemma DocAliasOwns(es: seq<Entry>, str: seq<int>, doc: Opt, alias: Opt)
    requires Coded(es, str) && es != [] && es[0].item.opts == [doc, alias] && doc.doc && IsShort(alias)
    ensures Owns(es[0].item.opts, str, es[0].so, 1)
  {
    var items := Items(es);
    var keys := Keys(OptsOf(items));
    DecodeInvertsEncode(es, str, 0, 0);
    DecodeInvertsEncode(es, str, 0, 1);
    assert items[..0] == [] && OptsOf([]) == [];
    assert keys[0] == None && keys[1] == Some(alias.key);
    assert keys[..1] == [None];
  }

  lemma DocAliasItem(doc: Opt, alias: Opt, cur: int, cluster: Option<Cluster>, owner: nat)
    requires !doc.alias && alias.alias && doc.group == 0 && doc.name.Some?
    ensures NodeItems([doc, alias], cur, cluster, owner) == [Item([doc, alias], cur, cluster, owner)]
  {
    assert [doc, alias][1..] == [alias] && [alias][1..] == [] && [doc, alias][..2] == [doc, alias];
    assert AliasRun([alias]) == 1;
    assert [doc, alias][2..] == [] && NodeItems([], cur, cluster, owner) == [];
  }

  lemma DocAliasGroups(a: Argp, doc: Opt, alias: Opt, plain: Opt, prefix: seq<int>)
    requires a.options == Some([doc, alias]) && doc.doc && !doc.alias && alias.alias && plain == alias.(alias := false)
    requires IsShort(alias) && alias.key == 'a' as int
    requires a.children == [] || a.children == [Child(Argp(Some([plain]), true, None, []), None, 0)]
    requires |prefix| <= 1 && (prefix != [] ==> prefix[0] == '-' as int || prefix[0] == '+' as int)
    ensures var nodes := GroupsOf(a, 0, None, 0, 0);
            if a.children == [] then CalledGroup(prefix, nodes, alias.key) == None
            else CalledGroup(prefix, nodes, alias.key) == Some(1) && nodes[1].owner == 1
  {
    var leaf := Argp(Some([plain]), true, None, []);
    var nodes := GroupsOf(a, 0, None, 0, 0);
    var node := Node(0, [doc, alias], a.hasParser, None, 0, |a.children|);
    assert nodes == [node] + GroupsOfKids(a.children, 1, Some(0), 0, 1);
    assert RealAt([doc, alias], 1) == doc == RealAt([doc, alias], 0);
    assert forall x :: !Declares(node, x);
    if a.children != [] {
      var kid := Node(1, [plain], true, Some(0), 0, 0);
      assert First(a.children) == leaf && a.children[1..] == [] && Size(leaf) == 1;
      assert GroupsOf(leaf, 1, Some(0), 0, 1) == [kid] + GroupsOfKids([], 2, Some(1), 0, 2) == [kid];
      assert GroupsOfKids(a.children, 1, Some(0), 0, 1) == [kid] + GroupsOfKids([], 2, Some(0), 1, 2) == [kid];
      assert DeclaresAt(kid, 0, alias.key);
      assert forall x :: Declares(kid, x) ==> x == alias.key;
      hide GroupsOf, Declares;
      OrdinaryIsReturned(prefix, nodes, alias.key);
    } else if Returns(OptString(prefix, nodes), alias.key) {
      ReturnedIsDeclared(prefix, nodes, alias.key);
    }
  }

  // ---- keys with a meaning of their own for getopt ----

  function Plain(c: int): Opt {
    Opt(None, c, None, false, false, false, false, false, 0)
  }

  function Plains(cs: seq<int>): (os: seq<Opt>)
    ensures |os| == |cs|
  {
    seq(|cs|, i requires 0 <= i < |cs| => Plain(cs[i]))
  }

  ghost predicate ShortKeys(cs: seq<int>) {
    forall i :: 0 <= i < |cs| ==> ' ' as int <= cs[i] <= '~' as int
  }

  lemma {:induction false} PlainItems(cs: seq<int>, owner: nat)
    requires ShortKeys(cs)
    ensures var items := NodeItems(Plains(cs), 0, None, owner);
            |items| == |cs| && forall i :: 0 <= i < |cs| ==> items[i] == Item([Plain(cs[i])], 0, None, owner)
  {
    if cs != [] {
      var os := Plains(cs);
      PlainItems(cs[1..], owner);
      assert os[1..] == Plains(cs[1..]) && os[..1] == [Plain(cs[0])];
      assert os[1..] != [] ==> os[1..][0] == Plain(cs[1]);
      assert AliasRun(os[1..]) == 0;
    }
  }

  lemma {:induction false} PlainText(cs: seq<int>, n: nat)
    requires ShortKeys(cs) && n <= |cs|
    ensures ShortTo(Plains(cs), n) == cs[..n]
  {
    if n > 0 {
      PlainText(cs, n - 1);
      assert RealAt(Plains(cs), n - 1) == Plain(cs[n - 1]);
      assert cs[..n] == cs[..n - 1] + [cs[n - 1]];
    }
  }

  lemma {:induction false} PlainOpts(items: seq<Item>, cs: seq<int>)
    requires |items| == |cs| && forall i :: 0 <= i < |cs| ==> items[i].opts == [Plain(cs[i])]
    ensures OptsOf(items) == Plains(cs)
  {
    if items != [] {
      var n := |items| - 1;
      PlainOpts(items[..n], cs[..n]);
      assert Plains(cs) == Plains(cs[..n]) + [Plain(cs[n])];
    }
  }

  /** Entries with one key each, all different, own their keys. */
  lemma {:induction false} PlainOwns(items: seq<Item>, cs: seq<int>, i: nat)
    requires ShortKeys(cs) && i < |cs| == |items| && (forall k :: 0 <= k < |cs| ==> items[k].opts == [Plain(cs[k])])
    requires forall k :: 0 <= k < i ==> cs[k] != cs[i]
    ensures var es, str := Encode(items), Dedup(Keys(OptsOf(items)));
            && Items(es) == items && Coded(es, str)
            && es[i].item == items[i] && Owns(es[i].item.opts, str, es[i].so, 0)
  {
    hide OptsOf, Dedup, Keys, Coded, Owns, IsFirst, Plain;
    var es, str := Encode(items), Dedup(Keys(OptsOf(items)));
    EncodeIsCoded(items);
    assert es[i].item == Items(es)[i];
    PlainOpts(items, cs);
    PlainOpts(items[..i], cs[..i]);
    PlainFirst(cs, i);
    DecodeInvertsEncode(es, str, i, 0);
  }

  lemma PlainFirst(cs: seq<int>, i: nat)
    requires ShortKeys(cs) && i < |cs| && forall k :: 0 <= k < i ==> cs[k] != cs[i]
    ensures IsFirst(Keys(Plains(cs)), i)
  {
    var keys := Keys(Plains(cs));
    assert forall k :: 0 <= k <= i ==> keys[k] == Some(cs[k]);
  }

  /** The lists of keys of which getopt does not return the first: a colon or
      semicolon, a leading ordering flag, and a W that a semicolon follows. */
  predicate Lost(cs: seq<int>) {
    || cs == [':' as int] || cs == [';' as int] || cs == ['-' as int] || cs == ['+' as int]
    || cs == ['W' as int, ';' as int]
  }

  /** An argp with these keys lists the first of them in its help, but no group is
      called for it. */
  lemma LostKeys(cs: seq<int>) returns (a: Argp, es: seq<Entry>, str: seq<int>)
    requires Lost(cs)
    ensures HeadedTree(a) && Items(es) == TreeItems(a, 0, None) && Coded(es, str) && NoDocAlias(a)
    ensures es != [] && es[0].item.opts == [Plain(cs[0])] && Owns(es[0].item.opts, str, es[0].so, 0)
    ensures CalledGroup(Prefix(false, false), GroupsOf(a, 0, None, 0, 0), cs[0]) == None
  {
    a := Argp(Some(Plains(cs)), true, None, []);
    var items := FlatItems(a, cs);
    PlainOwns(items, cs, 0);
    es, str := Encode(items), Dedup(Keys(OptsOf(items)));
    PlainDocs(a, cs);
    LostGroup(a, cs);
  }

  lemma {:induction false} FlatItems(a: Argp, cs: seq<int>) returns (items: seq<Item>)
    requires a == Argp(Some(Plains(cs)), true, None, []) && ShortKeys(cs)
    ensures HeadedTree(a) && items == TreeItems(a, 0, None) && |items| == |cs|
    ensures forall i :: 0 <= i < |cs| ==> items[i].opts == [Plain(cs[i])]
  {
    items := NodeItems(Plains(cs), 0, None, 0);
    PlainItems(cs, 0);
    assert KidItems([], 0, 1, None, 0) == [];
    ConcatEmpty(items);
  }

  lemma LostGroup(a: Argp, cs: seq<int>)
    requires Lost(cs) && a == Argp(Some(Plains(cs)), true, None, [])
    ensures CalledGroup([], GroupsOf(a, 0, None, 0, 0), cs[0]) == None
  {
    var nodes := GroupsOf(a, 0, None, 0, 0);
    var node := Node(0, Plains(cs), true, None, 0, 0);
    assert GroupsOfKids([], 1, Some(0), 0, 1) == [];
    assert nodes == [node];
    PlainText(cs, |cs|);
    ShortStringOne(node);
    hide GroupsOf, ShortString, Plains;
    assert cs[..|cs|] == cs && OptString([], nodes) == cs;
    LostNotReturned(cs);
  }

  lemma LostNotReturned(cs: seq<int>)
    requires Lost(cs)
    ensures !Returns(cs, cs[0])
  {
    assert cs[0] == 'W' as int ==> cs[..0] == [] && Body(cs) == cs && cs[1] == ';' as int;
    assert cs[0] == '-' as int || cs[0] == '+' as int ==> Body(cs) == [];
  }

  lemma PlainDocs(a: Argp, cs: seq<int>)
    requires a == Argp(Some(Plains(cs)), true, None, [])
    ensures NoDocAlias(a)
  {
    assert TreeOccs(a, 0) == NodeOccs(Plains(cs), 0);
    forall i | 0 <= i < |cs|
      ensures !RealAt(Plains(cs), i).doc
    {
      PlainReal(cs, i);
    }
  }

  lemma PlainReal(cs: seq<int>, i: nat)
    requires i < |cs|
    ensures RealAt(Plains(cs), i) == Plain(cs[i])
  {}

  /** With ARGP_NO_ARGS a child's option + is given to the root's parser: the scan
      finds the '+' in front of the string. */
  lemma PrefixTakesKey() returns (a: Argp, es: seq<Entry>, str: seq<int>)
    ensures HeadedTree(a) && Items(es) == TreeItems(a, 0, None) && Coded(es, str)
    ensures |es| == 2 && es[1].item == Item([Plain('+' as int)], 0, None, 1)
    ensures Owns(es[1].item.opts, str, es[1].so, 0)
    ensures var nodes := GroupsOf(a, 0, None, 0, 0);
            && FirstGroup(nodes, '+' as int, 0) == Some(1) && nodes[1].owner == 1
            && CalledGroup(Prefix(false, true), nodes, '+' as int) == Some(0) && nodes[0].owner == 0
  {
    var x, y := ['a' as int], ['+' as int];
    var leaf := Argp(Some(Plains(y)), true, None, []);
    var kids := [Child(leaf, None, 0)];
    a := Argp(Some(Plains(x)), true, None, kids);
    assert First(kids) == leaf && kids[1..] == [] && Size(leaf) == 1;
    var items := TreeItems(a, 0, None);
    PlainItems(x, 0);
    PlainItems(y, 1);
    assert TreeItems(leaf, 1, None) == NodeItems(Plains(y), 0, None, 1);
    assert KidItems(kids, 0, 1, None, 0) == TreeItems(leaf, 1, None) + KidItems([], 1, 2, None, 0);
    assert |items| == 2 && items[0].opts == [Plain('a' as int)] && items[1] == Item([Plain('+' as int)], 0, None, 1);
    PlainOwns(items, ['a' as int, '+' as int], 1);
    es, str := Encode(items), Dedup(Keys(OptsOf(items)));
    assert HeadedTree(leaf) && HeadedKids([]) && HeadedKids(kids);
    PrefixScan(a, leaf, kids);
  }

  lemma PrefixScan(a: Argp, leaf: Argp, kids: seq<Child>)
    requires leaf == Argp(Some(Plains(['+' as int])), true, None, []) && kids == [Child(leaf, None, 0)]
    requires a == Argp(Some(Plains(['a' as int])), true, None, kids)
    ensures var nodes := GroupsOf(a, 0, None, 0, 0);
            && FirstGroup(nodes, '+' as int, 0) == Some(1) && nodes[1].owner == 1
            && CalledGroup(['+' as int], nodes, '+' as int) == Some(0) && nodes[0].owner == 0
  {
    var x, y := ['a' as int], ['+' as int];
    var node, kid := Node(0, Plains(x), true, None, 0, 1), Node(1, Plains(y), true, Some(0), 0, 0);
    var nodes := GroupsOf(a, 0, None, 0, 0);
    assert First(kids) == leaf && kids[1..] == [] && Size(leaf) == 1;
    assert GroupsOf(leaf, 1, Some(0), 0, 1) == [kid] + GroupsOfKids([], 2, Some(1), 0, 2) == [kid];
    assert GroupsOfKids(kids, 1, Some(0), 0, 1) == [kid] + GroupsOfKids([], 2, Some(0), 1, 2) == [kid];
    assert nodes == [node] + [kid];
    hide GroupsOf, GroupsOfKids;
    assert !Declares(node, '+' as int) && DeclaresAt(kid, 0, '+' as int);
    PlainText(x, 1);
    PlainText(y, 1);
    ShortStringOne(node);
    ShortStringOne(kid);
    ShortStringConcat([node], [kid]);
    hide ShortString, Declares;
    assert OptString(['+' as int], nodes) == ['+' as int, 'a' as int, '+' as int];
    assert Body(['+' as int, 'a' as int, '+' as int]) == ['a' as int, '+' as int];
    assert ['a' as int, '+' as int][1] == '+' as int;
  }
}
