/** Exactly when cluster headers are printed once.

    Whether the entries of a cluster stand together depends on the shape of the
    tree, its children with their groups and headers, and on its options. Here
    the shapes are characterised for which they do so whatever the options are,
    and a tree with a shape for which they may not is given. */
module HolTwins {
  import opened Wrappers
  import opened FirstOccurrence
  import opened ArgpTree
  import opened HolCode
  import opened HolSpec
  import opened LexOrder
  import opened HolOrder
  import opened HolListing

  // ---- trees of one shape ----

  /** Trees that differ in their options, documentation and parsers only. */
  predicate SameShape(a: Argp, b: Argp)
    decreases a, 1
  {
    SameShapes(a.children, b.children)
  }

  predicate SameShapes(cs: seq<Child>, ds: seq<Child>)
    decreases cs, 0
  {
    && |cs| == |ds|
    && (cs != [] ==> && cs[0].header == ds[0].header && cs[0].group == ds[0].group
                     && SameShape(First(cs), First(ds)) && SameShapes(cs[1..], ds[1..]))
  }

  lemma {:induction false} SameClusters(a: Argp, b: Argp, at: nat, cluster: Option<Cluster>)
    requires SameShape(a, b)
    ensures Size(a) == Size(b) && TreeClusters(a, at, cluster) == TreeClusters(b, at, cluster)
    decreases a, 1
  {
    SameKidClusters(a.children, b.children, 0, at + 1, cluster, at);
  }

  lemma {:induction false} SameKidClusters(cs: seq<Child>, ds: seq<Child>, ix: nat, at: nat, cluster: Option<Cluster>,
                                           owner: nat)
    requires SameShapes(cs, ds)
    ensures SizeKids(cs) == SizeKids(ds)
            && KidClusters(cs, ix, at, cluster, owner) == KidClusters(ds, ix, at, cluster, owner)
    decreases cs, 0
  {
    if cs != [] {
      SameClusters(First(cs), First(ds), at, ChildCluster(cs[0], ix, at, cluster, owner));
      SameKidClusters(cs[1..], ds[1..], ix + 1, at + Size(First(cs)), cluster, owner);
    }
  }

  /** The cluster of each argp, in preorder. */
  function Places(a: Argp, at: nat, cluster: Option<Cluster>): (r: seq<Option<Cluster>>)
    ensures |r| == Size(a)
    decreases a, 1
  {
    [cluster] + KidPlaces(a.children, 0, at + 1, cluster, at)
  }

  function KidPlaces(cs: seq<Child>, ix: nat, at: nat, cluster: Option<Cluster>, owner: nat): (r: seq<Option<Cluster>>)
    ensures |r| == SizeKids(cs)
    decreases cs, 0
  {
    if cs == [] then []
    else
      Places(First(cs), at, ChildCluster(cs[0], ix, at, cluster, owner))
      + KidPlaces(cs[1..], ix + 1, at + Size(First(cs)), cluster, owner)
  }

  /** A cluster's id is the place of the argp it was made for. */
  lemma {:induction false} ClusterPlace(a: Argp, at: nat, cluster: Option<Cluster>, c: Cluster)
    requires c in TreeClusters(a, at, cluster)
    ensures at < c.id < at + Size(a) && Places(a, at, cluster)[c.id - at] == Some(c)
    decreases a, 1
  {
    KidClusterPlace(a.children, 0, at + 1, cluster, at, c);
  }

  lemma {:induction false} KidClusterPlace(cs: seq<Child>, ix: nat, at: nat, cluster: Option<Cluster>, owner: nat,
                                           c: Cluster)
    requires c in KidClusters(cs, ix, at, cluster, owner)
    ensures at <= c.id < at + SizeKids(cs) && KidPlaces(cs, ix, at, cluster, owner)[c.id - at] == Some(c)
    decreases cs, 0
  {
    var own, n := ChildCluster(cs[0], ix, at, cluster, owner), Size(First(cs));
    if c in TreeClusters(First(cs), at, own) {
      ClusterPlace(First(cs), at, own, c);
    } else if c in KidClusters(cs[1..], ix + 1, at + n, cluster, owner) {
      KidClusterPlace(cs[1..], ix + 1, at + n, cluster, owner, c);
    }
  }

  /** The tree with other options, given in preorder. */
  function Dressed(a: Argp, os: seq<seq<Opt>>): Argp
    requires |os| == Size(a)
    decreases a, 1
  {
    Argp(Some(os[0]), a.hasParser, a.argsDoc, DressedKids(a.children, os[1..]))
  }

  function DressedKids(cs: seq<Child>, os: seq<seq<Opt>>): (ds: seq<Child>)
    requires |os| == SizeKids(cs)
    ensures |ds| == |cs|
    decreases cs, 0
  {
    if cs == [] then []
    else
      var n := Size(First(cs));
      [Child(Dressed(First(cs), os[..n]), cs[0].header, cs[0].group)] + DressedKids(cs[1..], os[n..])
  }

  ghost predicate AllHeaded(os: seq<seq<Opt>>) {
    forall i :: 0 <= i < |os| ==> Headed(os[i])
  }

  lemma {:induction false} DressedShape(a: Argp, os: seq<seq<Opt>>)
    requires |os| == Size(a) && AllHeaded(os)
    ensures SameShape(a, Dressed(a, os)) && HeadedTree(Dressed(a, os))
    decreases a, 1
  {
    DressedShapes(a.children, os[1..]);
  }

  lemma {:induction false} DressedShapes(cs: seq<Child>, os: seq<seq<Opt>>)
    requires |os| == SizeKids(cs) && AllHeaded(os)
    ensures SameShapes(cs, DressedKids(cs, os)) && HeadedKids(DressedKids(cs, os))
    decreases cs, 0
  {
    if cs != [] {
      var n := Size(First(cs));
      DressedShape(First(cs), os[..n]);
      DressedShapes(cs[1..], os[n..]);
      assert DressedKids(cs, os)[1..] == DressedKids(cs[1..], os[n..]);
    }
  }

  /** The items of argps with these options, in these clusters. */
  function Spread(os: seq<seq<Opt>>, ps: seq<Option<Cluster>>, at: nat): seq<Item>
    requires |os| == |ps|
  {
    if os == [] then [] else NodeItems(os[0], 0, ps[0], at) + Spread(os[1..], ps[1..], at + 1)
  }

  lemma {:induction false} SpreadConcat(os: seq<seq<Opt>>, ps: seq<Option<Cluster>>, at: nat, n: nat)
    requires n <= |os| == |ps|
    ensures Spread(os, ps, at) == Spread(os[..n], ps[..n], at) + Spread(os[n..], ps[n..], at + n)
  {
    if n > 0 {
      SpreadConcat(os[1..], ps[1..], at + 1, n - 1);
      assert os[1..][..n - 1] == os[..n][1..] && ps[1..][..n - 1] == ps[..n][1..];
      assert os[1..][n - 1..] == os[n..] && ps[1..][n - 1..] == ps[n..];
    } else {
      assert os[0..] == os && ps[0..] == ps;
    }
  }

  lemma {:induction false} DressedItems(a: Argp, os: seq<seq<Opt>>, at: nat, cluster: Option<Cluster>)
    requires |os| == Size(a)
    ensures TreeItems(Dressed(a, os), at, cluster) == Spread(os, Places(a, at, cluster), at)
    ensures Size(Dressed(a, os)) == Size(a)
    decreases a, 1
  {
    DressedKidItems(a.children, os[1..], 0, at + 1, cluster, at);
  }

  lemma {:induction false} DressedKidItems(cs: seq<Child>, os: seq<seq<Opt>>, ix: nat, at: nat,
                                           cluster: Option<Cluster>, owner: nat)
    requires |os| == SizeKids(cs)
    ensures KidItems(DressedKids(cs, os), ix, at, cluster, owner)
            == Spread(os, KidPlaces(cs, ix, at, cluster, owner), at)
    ensures SizeKids(DressedKids(cs, os)) == SizeKids(cs)
    decreases cs, 0
  {
    hide NodeItems, Spread, Dressed, DressedKids, TreeItems, Places, ChildCluster;
    if cs == [] {
      NoSpread(at);
      NoneDressed(os);
    } else {
      var n, own := Size(First(cs)), ChildCluster(cs[0], ix, at, cluster, owner);
      var ps := KidPlaces(cs, ix, at, cluster, owner);
      DressedItems(First(cs), os[..n], at, own);
      DressedKidItems(cs[1..], os[n..], ix + 1, at + n, cluster, owner);
      SpreadConcat(os, ps, at, n);
      assert ps[..n] == Places(First(cs), at, own) && ps[n..] == KidPlaces(cs[1..], ix + 1, at + n, cluster, owner);
      DressedFirst(cs, os, ix, at, cluster, owner);
    }
  }

  lemma NoneDressed(os: seq<seq<Opt>>)
    requires os == []
    ensures DressedKids([], os) == []
  {}

  lemma DressedFirst(cs: seq<Child>, os: seq<seq<Opt>>, ix: nat, at: nat, cluster: Option<Cluster>, owner: nat)
    requires cs != [] && |os| == SizeKids(cs)
    ensures var n, ds := Size(First(cs)), DressedKids(cs, os);
            && ds != [] && First(ds) == Dressed(First(cs), os[..n]) && ds[1..] == DressedKids(cs[1..], os[n..])
            && ChildCluster(ds[0], ix, at, cluster, owner) == ChildCluster(cs[0], ix, at, cluster, owner)
  {
    var n := Size(First(cs));
    assert DressedKids(cs, os)[1..] == DressedKids(cs[1..], os[n..]);
  }

  lemma NoSpread(at: nat)
    ensures Spread([], [], at) == []
  {}

  lemma {:induction false} SpreadNone(os: seq<seq<Opt>>, ps: seq<Option<Cluster>>, at: nat)
    requires |os| == |ps| && forall i :: 0 <= i < |os| ==> os[i] == []
    ensures Spread(os, ps, at) == []
  {
    if os != [] {
      SpreadNone(os[1..], ps[1..], at + 1);
    }
  }

  lemma {:induction false} SpreadTwo(os: seq<seq<Opt>>, ps: seq<Option<Cluster>>, i: nat, j: nat)
    requires i < j < |os| == |ps| && forall k :: 0 <= k < |os| && k != i && k != j ==> os[k] == []
    ensures Spread(os, ps, 0) == NodeItems(os[i], 0, ps[i], i) + NodeItems(os[j], 0, ps[j], j)
  {
    hide NodeItems;
    SpreadFirst(os, ps, 0, i);
    SpreadOne(os[i + 1..], ps[i + 1..], i + 1, j - i - 1);
  }

  lemma SpreadFirst(os: seq<seq<Opt>>, ps: seq<Option<Cluster>>, at: nat, j: nat)
    requires j < |os| == |ps| && forall k :: 0 <= k < j ==> os[k] == []
    ensures Spread(os, ps, at) == NodeItems(os[j], 0, ps[j], at + j) + Spread(os[j + 1..], ps[j + 1..], at + j + 1)
  {
    hide NodeItems;
    SpreadConcat(os, ps, at, j);
    SpreadNone(os[..j], ps[..j], at);
    assert os[j..][1..] == os[j + 1..] && ps[j..][1..] == ps[j + 1..];
  }

  lemma SpreadOne(os: seq<seq<Opt>>, ps: seq<Option<Cluster>>, at: nat, j: nat)
    requires j < |os| == |ps| && forall k :: 0 <= k < |os| && k != j ==> os[k] == []
    ensures Spread(os, ps, at) == NodeItems(os[j], 0, ps[j], at + j)
  {
    hide NodeItems;
    SpreadFirst(os, ps, at, j);
    SpreadNone(os[j + 1..], ps[j + 1..], at + j + 1);
  }

  // ---- three short options ----

  function Letter(key: char): Opt {
    Opt(None, key as int, None, false, false, false, false, false, 0)
  }

  /** Three entries with one letter each. */
  lemma {:induction false} ThreeLetters(items: seq<Item>, x: char, y: char, z: char)
    requires |items| == 3 && 'a' <= x <= 'z' && 'a' <= y <= 'z' && 'a' <= z <= 'z' && x != y && y != z && x != z
    requires items[0].opts == [Letter(x)] && items[1].opts == [Letter(y)] && items[2].opts == [Letter(z)]
    ensures Dedup(Keys(OptsOf(items))) == [x as int, y as int, z as int]
    ensures var es := Encode(items); es[0].so == 0 && es[1].so == 1 && es[2].so == 2
  {
    hide OptsOf, Dedup;
    forall n: nat | n <= 3
      ensures var code := Dedup(Keys(OptsOf(items[..n])));
              |code| == n && forall i :: 0 <= i < n ==> code[i] == items[i].opts[0].key
    {
      OneEach(items[..n]);
      DedupOfDistinct(Keys(OptsOf(items[..n])));
    }
    assert items[..3] == items;
  }

  lemma {:induction false} OneEach(items: seq<Item>)
    requires forall i :: 0 <= i < |items| ==> |items[i].opts| == 1
    ensures |OptsOf(items)| == |items| && forall i :: 0 <= i < |items| ==> OptsOf(items)[i] == items[i].opts[0]
  {
    if items != [] {
      OneEach(items[..|items| - 1]);
    }
  }

  lemma LetterNames(e: Entry, str: seq<int>, x: char)
    requires 'a' <= x <= 'z' && e.item.opts == [Letter(x)] && e.so < |str| && str[e.so] == x as int
    ensures NamesOf(e, str) == Names(0, x as int, None) && Listed(e, str)
  {
    var os := e.item.opts;
    assert Owns(os, str, e.so, 0);
    assert FirstShort(os, str, e.so, 0) == x as int;
    assert os[1..] == [] && FirstLong(os[1..]) == None;
    assert FirstLong(os) == None;
  }

  lemma LettersAscend(e: Entry, f: Entry, str: seq<int>, x: char, y: char)
    requires WfEntry(e) && WfEntry(f) && 'a' <= x < y <= 'z'
    requires e.item.opts == [Letter(x)] && e.so < |str| && str[e.so] == x as int && e.item.group == 0
    requires f.item.opts == [Letter(y)] && f.so < |str| && str[f.so] == y as int && f.item.group == 0
    requires e.item.cluster.Some? && f.item.cluster.Some?
    requires PathKey(e.item.cluster.value) == PathKey(f.item.cluster.value)
    ensures EntryCmp(e, f, str) < 0
  {
    var c, d := e.item.cluster.value, f.item.cluster.value;
    LetterNames(e, str, x);
    LetterNames(f, str, y);
    PathBase(c);
    PathBase(d);
    assert c.depth == d.depth;
    CousinCmpIsLex(c, d);
    LexZero(PathKey(c), PathKey(d));
  }

  lemma {:induction false} PathBase(c: Cluster)
    requires WfCluster(c)
    ensures PathKey(c)[2] == Base(c).group
    decreases c
  {
    if c.parent.Some? {
      PathBase(c.parent.value);
    }
  }

  lemma LetterItems(x: char, y: char, cluster: Option<Cluster>, owner: nat)
    requires 'a' <= x <= 'z' && 'a' <= y <= 'z'
    ensures NodeItems([Letter(x)], 0, cluster, owner) == [Item([Letter(x)], 0, cluster, owner)]
    ensures NodeItems([Letter(x), Letter(y)], 0, cluster, owner)
            == [Item([Letter(x)], 0, cluster, owner), Item([Letter(y)], 0, cluster, owner)]
  {
    assert [Letter(x)][1..] == [] && [Letter(y)][1..] == [] && [Letter(x), Letter(y)][1..] == [Letter(y)];
    assert [Letter(x), Letter(y)][..1] == [Letter(x)] == [Letter(x)][..1] && [Letter(y)][..1] == [Letter(y)];
    assert AliasRun([]) == AliasRun([Letter(y)]) == 0;
    assert NodeItems([], 0, cluster, owner) == [];
    assert GroupAfter(Letter(x), 0) == GroupAfter(Letter(y), 0) == 0;
    assert NodeItems([Letter(y)], 0, cluster, owner) == [Item([Letter(y)], 0, cluster, owner)];
  }

  lemma NobodyNamed(items: seq<Item>, name: CString)
    requires forall i :: 0 <= i < |items| ==> exists x: char :: items[i].opts == [Letter(x)]
    ensures Regrouped(items, name, -1) == items
  {
    forall i | 0 <= i < |items|
      ensures Regrouped(items, name, -1)[i] == items[i]
    {
      RegroupedAt(items, name, -1, i);
    }
  }

  // ---- two clusters with one path ----

  /** For two clusters of a tree that share their path there is a tree of the
      same shape in whose sorted listing an entry of the one stands between two
      of the other, so that comma prints the other's header twice. */
  lemma {:induction false} TwinsInterleave(a: Argp, c: Cluster, d: Cluster)
      returns (b: Argp, es: seq<Entry>, str: seq<int>, sorted: seq<Entry>)
    requires c in TreeClusters(a, 0, None) && d in TreeClusters(a, 0, None) && c != d
    requires WfCluster(c) && WfCluster(d) && PathKey(c) == PathKey(d)
    ensures SameShape(a, b) && HeadedTree(b) && HelpListing(b, es, str, sorted) && |sorted| == 3
    ensures sorted[0].item.cluster == sorted[2].item.cluster == Some(c) && sorted[1].item.cluster == Some(d)
    ensures !Contiguous(sorted, c)
    ensures HasHeader(Some(c)) ==> HeaderAt(sorted, str, 0) && HeaderAt(sorted, str, 2)
  {
    hide TreeClusters, TreeItems, SameShape, HeadedTree, Dressed, Coded, Letter, Regrouped;
    hide Sorted, WfCluster, PathKey, HeaderAt, Items, HasHeader, Contiguous;
    var os: seq<seq<Opt>> := seq(Size(a), k requires 0 <= k < Size(a) =>
      if k == c.id then [Letter('a'), Letter('c')] else if k == d.id then [Letter('b')] else []);
    b := Dressed(a, os);
    var items := TwinItems(a, c, d, os);
    NobodyNamed(items, "help");
    NobodyNamed(items, "version");
    es, str, sorted := TwinListing(items, c, d);
  }

  lemma {:induction false} TwinListing(items: seq<Item>, c: Cluster, d: Cluster)
      returns (es: seq<Entry>, str: seq<int>, sorted: seq<Entry>)
    requires WfCluster(c) && WfCluster(d) && PathKey(c) == PathKey(d) && c != d
    requires var x, y, z := Item([Letter('a')], 0, Some(c), c.id), Item([Letter('c')], 0, Some(c), c.id),
                            Item([Letter('b')], 0, Some(d), d.id);
             items == if c.id < d.id then [x, y, z] else [z, x, y]
    ensures Items(es) == items && Coded(es, str) && multiset(sorted) == multiset(es) && |sorted| == 3
    ensures WfList(sorted) && Sorted(sorted, str) && !Contiguous(sorted, c)
    ensures sorted[0].item.cluster == sorted[2].item.cluster == Some(c) && sorted[1].item.cluster == Some(d)
    ensures HasHeader(Some(c)) ==> HeaderAt(sorted, str, 0) && HeaderAt(sorted, str, 2)
  {
    hide Dedup, Keys, OptsOf, Encode, Coded, Letter, Sorted, WfCluster, PathKey, HeaderAt, Items, HasHeader, Contiguous;
    es, str := Encode(items), Dedup(Keys(OptsOf(items)));
    EncodeIsCoded(items);
    EntriesOf(es, items);
    if c.id < d.id {
      ThreeLetters(items, 'a', 'c', 'b');
      sorted := es[1 := es[2]][2 := es[1]];
      Swapped(es, 1, 2);
    } else {
      ThreeLetters(items, 'b', 'a', 'c');
      sorted := es[0 := es[1]][1 := es[0]];
      Swapped(es, 0, 1);
    }
    assert Shows(sorted[0], str, 'a', c) && Shows(sorted[1], str, 'b', d) && Shows(sorted[2], str, 'c', c);
    Interleaved(sorted, str, c, d);
  }

  /** The entry is one of cluster CL that owns the letter X. */
  ghost predicate Shows(e: Entry, str: seq<int>, x: char, cl: Cluster) {
    && e.item.opts == [Letter(x)] && e.item.group == 0 && e.item.cluster == Some(cl)
    && e.so < |str| && str[e.so] == x as int
  }

  lemma EntriesOf(es: seq<Entry>, items: seq<Item>)
    requires Items(es) == items
    ensures |es| == |items| && forall i :: 0 <= i < |es| ==> es[i].item == items[i]
  {}

  lemma Swapped<T>(s: seq<T>, i: nat, j: nat)
    requires i < |s| && j < |s|
    ensures multiset(s[i := s[j]][j := s[i]]) == multiset(s)
  {}

  /** The items of the tree that has options a and c where cluster C is, and b
      where D is. */
  lemma {:induction false} TwinItems(a: Argp, c: Cluster, d: Cluster, os: seq<seq<Opt>>) returns (items: seq<Item>)
    requires c in TreeClusters(a, 0, None) && d in TreeClusters(a, 0, None) && c != d
    requires |os| == Size(a)
    requires forall k :: 0 <= k < |os| ==>
               os[k] == if k == c.id then [Letter('a'), Letter('c')] else if k == d.id then [Letter('b')] else []
    ensures SameShape(a, Dressed(a, os)) && HeadedTree(Dressed(a, os)) && items == TreeItems(Dressed(a, os), 0, None)
    ensures var x, y, z := Item([Letter('a')], 0, Some(c), c.id), Item([Letter('c')], 0, Some(c), c.id),
                           Item([Letter('b')], 0, Some(d), d.id);
            items == if c.id < d.id then [x, y, z] else [z, x, y]
  {
    hide TreeClusters, TreeItems, Places, Spread, NodeItems, SameShape, HeadedTree, Dressed;
    var ps := Places(a, 0, None);
    ClusterPlace(a, 0, None, c);
    ClusterPlace(a, 0, None, d);
    DressedShape(a, os);
    DressedItems(a, os, 0, None);
    LetterItems('a', 'c', Some(c), c.id);
    LetterItems('b', 'b', Some(d), d.id);
    items := TreeItems(Dressed(a, os), 0, None);
    if c.id < d.id {
      SpreadTwo(os, ps, c.id, d.id);
    } else {
      SpreadTwo(os, ps, d.id, c.id);
    }
  }

  /** Three entries a, b and c of which the second is in another cluster with
      the same path. */
  lemma {:induction false} Interleaved(es: seq<Entry>, str: seq<int>, c: Cluster, d: Cluster)
    requires |es| == 3 && WfCluster(c) && WfCluster(d) && PathKey(c) == PathKey(d) && c != d
    requires Shows(es[0], str, 'a', c) && Shows(es[1], str, 'b', d) && Shows(es[2], str, 'c', c)
    ensures WfList(es) && Sorted(es, str) && !Contiguous(es, c)
    ensures HasHeader(Some(c)) ==> HeaderAt(es, str, 0) && HeaderAt(es, str, 2)
  {
    hide EntryCmp, Listed, IsChild, Sorted, Contiguous, HeaderAt, Shows, WfEntry, PathKey, WfCluster;
    ShowsAscend(es[0], es[1], str, 'a', 'b', c, d);
    ShowsAscend(es[1], es[2], str, 'b', 'c', d, c);
    ShowsAscend(es[0], es[2], str, 'a', 'c', c, c);
    TwinIsNoChild(c, d);
    SortedThree(es, str);
    InterleavedHeaders(es, str, c, d);
  }

  lemma ShowsAscend(e: Entry, f: Entry, str: seq<int>, x: char, y: char, c: Cluster, d: Cluster)
    requires WfCluster(c) && WfCluster(d) && PathKey(c) == PathKey(d)
    requires Shows(e, str, x, c) && Shows(f, str, y, d) && 'a' <= x < y <= 'z'
    ensures WfEntry(e) && Listed(e, str) && e.item.cluster == Some(c)
    ensures WfEntry(f) && Listed(f, str) && f.item.cluster == Some(d)
    ensures EntryCmp(e, f, str) < 0
  {
    hide PathKey, EntryCmp, NamesOf, Listed;
    LetterNames(e, str, x);
    LetterNames(f, str, y);
    LettersAscend(e, f, str, x, y);
  }

  lemma SortedThree(es: seq<Entry>, str: seq<int>)
    requires |es| == 3 && WfList(es)
    requires EntryCmp(es[0], es[1], str) <= 0 && EntryCmp(es[1], es[2], str) <= 0 && EntryCmp(es[0], es[2], str) <= 0
    ensures Sorted(es, str)
  {
    hide EntryCmp;
  }

  lemma {:induction false} InterleavedHeaders(es: seq<Entry>, str: seq<int>, c: Cluster, d: Cluster)
    requires |es| == 3 && WfList(es) && Listed(es[0], str) && Listed(es[1], str) && Listed(es[2], str)
    requires es[0].item.cluster == es[2].item.cluster == Some(c) && es[1].item.cluster == Some(d)
    requires c != d && !IsChild(Some(d), c)
    ensures !Contiguous(es, c)
    ensures HasHeader(Some(c)) ==> HeaderAt(es, str, 0) && HeaderAt(es, str, 2)
  {
    hide Listed, WfList;
    assert Within(es, 0, c) && Within(es, 2, c) && !Within(es, 1, c);
    assert PrevPrinted(es, str, 0) == None && PrevPrinted(es, str, 2) == Some(es[1]);
  }

  lemma TwinIsNoChild(c: Cluster, d: Cluster)
    requires WfCluster(c) && WfCluster(d) && PathKey(c) == PathKey(d) && c != d
    ensures !IsChild(Some(d), c)
  {
    assert |PathKey(c)| == 4 * (c.depth + 1) && |PathKey(d)| == 4 * (d.depth + 1);
    if IsChild(Some(d), c) {
      ChildPath(Some(d), c);
    }
  }

  // ---- the shapes for which headers are printed once ----

  /** Whatever the options, the entries of the cluster and its descendants stand
      together in the help of a tree of this shape. */
  ghost predicate StandsTogether(a: Argp, cl: Cluster) {
    forall b, es, str, sorted ::
      SameShape(a, b) && HeadedTree(b) && HelpListing(b, es, str, sorted) ==> Contiguous(sorted, cl)
  }

  /** They do so if and only if no other cluster has the same path. */
  lemma ContiguousIffUnique(a: Argp, cl: Cluster)
    requires cl in TreeClusters(a, 0, None)
    ensures WfCluster(cl)
    ensures UniquePath(TreeClusters(a, 0, None), cl) <==> StandsTogether(a, cl)
  {
    var all := TreeClusters(a, 0, None);
    ListingOfTree(a, Encode(HelpItems(a)), Encode(HelpItems(a)));
    if UniquePath(all, cl) {
      forall b, es, str, sorted | SameShape(a, b) && HeadedTree(b) && HelpListing(b, es, str, sorted)
        ensures Contiguous(sorted, cl)
      {
        SameClusters(a, b, 0, None);
        ListingOfTree(b, es, sorted);
        BlockIsContiguous(all, sorted, str, cl);
      }
    } else {
      var d :| d in all && WfCluster(d) && PathKey(d) == PathKey(cl) && d != cl;
      var b, es, str, sorted := TwinsInterleave(a, cl, d);
    }
  }

  /** So all clusters stand together if and only if siblings differ in group or
      index. */
  lemma ContiguousIffDistinct(a: Argp)
    ensures DistinctSiblings(TreeClusters(a, 0, None))
            <==> forall cl :: cl in TreeClusters(a, 0, None) ==> StandsTogether(a, cl)
  {
    var all := TreeClusters(a, 0, None);
    ListingOfTree(a, Encode(HelpItems(a)), Encode(HelpItems(a)));
    DistinctMeansUnique(all);
    forall cl | cl in all
      ensures UniquePath(all, cl) <==> StandsTogether(a, cl)
    {
      ContiguousIffUnique(a, cl);
    }
  }

  /** Entries i and j both make comma print the header of CL. */
  ghost predicate Repeats(a: Argp, b: Argp, es: seq<Entry>, str: seq<int>, sorted: seq<Entry>,
                          cl: Cluster, i: nat, j: nat)
  {
    && SameShape(a, b) && HeadedTree(b) && HelpListing(b, es, str, sorted)
    && i < j < |sorted| && HeaderAt(sorted, str, i) && HeaderAt(sorted, str, j)
    && sorted[i].item.cluster == sorted[j].item.cluster == Some(cl)
  }

  /** The header of a cluster is printed at most once in the help of every tree
      of this shape if and only if no other cluster has its path. */
  lemma HeaderOnceIffUnique(a: Argp, cl: Cluster)
    requires cl in TreeClusters(a, 0, None) && HasHeader(Some(cl))
    ensures WfCluster(cl)
    ensures UniquePath(TreeClusters(a, 0, None), cl)
            <==> forall b, es, str, sorted, i, j :: !Repeats(a, b, es, str, sorted, cl, i, j)
  {
    var all := TreeClusters(a, 0, None);
    ContiguousIffUnique(a, cl);
    if UniquePath(all, cl) {
      forall b, es, str, sorted, i, j
        ensures !Repeats(a, b, es, str, sorted, cl, i, j)
      {
        if Repeats(a, b, es, str, sorted, cl, i, j) {
          HeaderOnce(sorted, str, i, j);
        }
      }
    } else {
      var d :| d in all && WfCluster(d) && PathKey(d) == PathKey(cl) && d != cl;
      var b, es, str, sorted := TwinsInterleave(a, cl, d);
      assert Repeats(a, b, es, str, sorted, cl, 0, 2);
    }
  }

  // ---- a tree whose shape has twins ----

  /** Twins arise whenever a child without group and header is merged
      into its parent's cluster: its own children are numbered from 0 again.
      Here the second child of such a wrapper and the second child of the root
      have headers, and their clusters agree in parent, group and index. */
  lemma MergedChildMakesTwins(o: Opt, g: int, h: string, h': string) returns (a: Cluster, b: Cluster, items: seq<Item>)
    requires !o.alias
    ensures var leaf := Argp(Some([o]), true, None, []);
            var wrapper := Argp(None, false, None, [Child(leaf, None, 0), Child(leaf, Some(h), g)]);
            var root := Argp(None, false, None, [Child(wrapper, None, 0), Child(leaf, Some(h'), g)]);
            HeadedTree(root) && items == TreeItems(root, 0, None)
    ensures |items| == 3 && items[1].cluster == Some(a) && items[2].cluster == Some(b)
    ensures a != b && a.parent == b.parent && a.group == b.group && a.index == b.index
    ensures a.header == Some(h) && b.header == Some(h') && WfCluster(a) && WfCluster(b)
  {
    var leaf := Argp(Some([o]), true, None, []);
    var plain, inner, outer := Child(leaf, None, 0), Child(leaf, Some(h), g), Child(leaf, Some(h'), g);
    var wrapper := Argp(None, false, None, [plain, inner]);
    var wrapped := Child(wrapper, None, 0);
    var root := Argp(None, false, None, [wrapped, outer]);
    a := Cluster(3, Some(h), 1, g, None, 0, 1);
    b := Cluster(4, Some(h'), 1, g, None, 0, 0);
    LeafItems(o, 2, None);
    LeafItems(o, 3, Some(a));
    LeafItems(o, 4, Some(b));
    assert [plain, inner][1..] == [inner] && [inner][1..] == [];
    assert [wrapped, outer][1..] == [outer] && [outer][1..] == [];
    assert Size(leaf) == 1;
    assert First([inner]) == First([plain, inner]) == First([outer]) == leaf && First([wrapped, outer]) == wrapper;
    assert SizeKids([inner]) == 1 && SizeKids([plain, inner]) == 2 && Size(wrapper) == 3;
    assert ChildCluster(plain, 0, 2, None, 1) == None && ChildCluster(wrapped, 0, 1, None, 0) == None;
    assert KidItems([inner], 1, 3, None, 1) == TreeItems(leaf, 3, Some(a));
    assert KidItems([plain, inner], 0, 2, None, 1) == TreeItems(leaf, 2, None) + TreeItems(leaf, 3, Some(a));
    assert KidItems([outer], 1, 4, None, 0) == TreeItems(leaf, 4, Some(b));
    assert TreeItems(wrapper, 1, None) == KidItems([plain, inner], 0, 2, None, 1);
    items := TreeItems(root, 0, None);
    assert KidItems([wrapped, outer], 0, 1, None, 0) == TreeItems(wrapper, 1, None) + KidItems([outer], 1, 4, None, 0);
    assert items == TreeItems(wrapper, 1, None) + TreeItems(leaf, 4, Some(b));
    assert HeadedTree(leaf) && HeadedKids([inner]) && HeadedKids([plain, inner]) && HeadedKids([outer]);
  }

  lemma LeafItems(o: Opt, at: nat, cluster: Option<Cluster>)
    requires !o.alias
    ensures var leaf := Argp(Some([o]), true, None, []);
            |TreeItems(leaf, at, cluster)| == 1 && TreeItems(leaf, at, cluster)[0].cluster == cluster
  {
    assert [o][1..] == [] && AliasRun([]) == 0;
    assert NodeItems([], GroupAfter(o, 0), cluster, at) == [];
  }

  /** With other options the help of such a tree prints the header of the one
      twin twice, before and behind an entry of the other. */
  lemma MergedChildRepeatsHeader(o: Opt, g: int, h: string, h': string)
      returns (root: Argp, a: Cluster, tree: Argp, es: seq<Entry>, str: seq<int>, sorted: seq<Entry>)
    requires !o.alias && h != []
    ensures var leaf := Argp(Some([o]), true, None, []);
            var wrapper := Argp(None, false, None, [Child(leaf, None, 0), Child(leaf, Some(h), g)]);
            root == Argp(None, false, None, [Child(wrapper, None, 0), Child(leaf, Some(h'), g)])
    ensures Repeats(root, tree, es, str, sorted, a, 0, 2) && a.header == Some(h)
  {
    var leaf := Argp(Some([o]), true, None, []);
    var wrapper := Argp(None, false, None, [Child(leaf, None, 0), Child(leaf, Some(h), g)]);
    root := Argp(None, false, None, [Child(wrapper, None, 0), Child(leaf, Some(h'), g)]);
    var b, items;
    a, b, items := MergedChildMakesTwins(o, g, h, h');
    TreeClustersClosed(root, 0, None);
    assert items[1].cluster == Some(a) && items[2].cluster == Some(b);
    tree, es, str, sorted := TwinsInterleave(root, a, b);
  }
}
