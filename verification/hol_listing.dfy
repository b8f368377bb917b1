/** Printing a sorted help listing: where the cluster headers go.

    comma decides on a header by looking at the previous printed entry only.
    That is enough when the entries of every cluster stand together, which
    the order of the entries guarantees when no other cluster shares the groups
    and indices of its path. */
module HolListing {
  import opened Wrappers
  import opened ArgpTree
  import opened HolCode
  import opened HolSpec
  import opened HolOrder
  import opened LexOrder

  /** hol_cluster_is_child: walk up from C until CL or the root is met. */
  predicate IsChild(c: Option<Cluster>, cl: Cluster)
    decreases c
  {
    c.Some? && (c.value == cl || IsChild(c.value.parent, cl))
  }

  ghost predicate WfList(es: seq<Entry>) {
    forall i :: 0 <= i < |es| ==> WfEntry(es[i])
  }

  /** What qsort leaves behind. */
  ghost predicate Sorted(es: seq<Entry>, str: seq<int>)
    requires WfList(es)
  {
    forall i, j :: 0 <= i < j < |es| ==> EntryCmp(es[i], es[j], str) <= 0
  }

  ghost predicate Within(es: seq<Entry>, i: nat, cl: Cluster)
    requires i < |es|
  {
    IsChild(es[i].item.cluster, cl)
  }

  /** The entries of a cluster and its descendants form one block. */
  ghost predicate Contiguous(es: seq<Entry>, cl: Cluster) {
    forall i, j, k :: 0 <= i < j < k < |es| && Within(es, i, cl) && Within(es, k, cl) ==> Within(es, j, cl)
  }

  /** A set of clusters that contains all ancestors of its members. */
  ghost predicate Closed(all: set<Cluster>) {
    forall c :: c in all ==> WfCluster(c) && (c.parent.Some? ==> c.parent.value in all)
  }

  ghost predicate DistinctSiblings(all: set<Cluster>) {
    forall a, b :: a in all && b in all && a.parent == b.parent && a.group == b.group && a.index == b.index
                   ==> a == b
  }

  /** No other cluster has the same groups and indices from the root on. */
  ghost predicate UniquePath(all: set<Cluster>, cl: Cluster)
    requires WfCluster(cl)
  {
    forall c :: c in all && WfCluster(c) && PathKey(c) == PathKey(cl) ==> c == cl
  }

  ghost predicate Over(es: seq<Entry>, all: set<Cluster>) {
    forall i :: 0 <= i < |es| && es[i].item.cluster.Some? ==> es[i].item.cluster.value in all
  }

  // ---- contiguity ----

  lemma {:induction false} LexBetween(p: seq<int>, a: seq<int>, b: seq<int>, c: seq<int>)
    requires p <= a && p <= c && LexCmp(a, b) <= 0 && LexCmp(b, c) <= 0
    ensures p <= b
  {
    if p != [] {
      assert a[0] == p[0] == c[0];
      LexBetween(p[1..], a[1..], b[1..], c[1..]);
      assert b == [b[0]] + b[1..] && p == [p[0]] + p[1..];
    }
  }

  lemma {:induction false} PathInjective(all: set<Cluster>, a: Cluster, b: Cluster)
    requires Closed(all) && DistinctSiblings(all) && a in all && b in all
    requires a.depth == b.depth && PathKey(a) == PathKey(b)
    ensures a == b
    decreases a
  {
    var n := 4 * a.depth;
    assert PathKey(a)[n..] == LevelKey(a) && PathKey(b)[n..] == LevelKey(b);
    assert LevelKey(a)[2] == a.group && LevelKey(b)[2] == b.group;
    assert LevelKey(a)[3] == -a.index && LevelKey(b)[3] == -b.index;
    if a.parent.Some? {
      assert PathKey(a)[..n] == PathKey(a.parent.value) && PathKey(b)[..n] == PathKey(b.parent.value);
      PathInjective(all, a.parent.value, b.parent.value);
    }
  }

  /** Paths are unique if and only if siblings differ in group or index. */
  lemma DistinctMeansUnique(all: set<Cluster>)
    requires Closed(all)
    ensures DistinctSiblings(all) <==> forall cl :: cl in all ==> UniquePath(all, cl)
  {
    if DistinctSiblings(all) {
      forall cl, c | cl in all && c in all && PathKey(c) == PathKey(cl)
        ensures c == cl
      {
        PathInjective(all, c, cl);
      }
    } else {
      var a, b :| a in all && b in all && a.parent == b.parent && a.group == b.group && a.index == b.index && a != b;
      assert PathKey(a) == PathKey(b);
    }
  }

  lemma {:induction false} PathMarks(c: Cluster, d: nat)
    requires WfCluster(c) && d <= c.depth
    ensures PathKey(c)[4 * d] == 1
    decreases c
  {
    if d < c.depth {
      PathMarks(c.parent.value, d);
      assert 4 * d < |PathKey(c.parent.value)|;
    }
  }

  lemma {:induction false} ChildPath(c: Option<Cluster>, cl: Cluster)
    requires IsChild(c, cl) && WfCluster(c.value)
    ensures WfCluster(cl) && cl.depth <= c.value.depth
    ensures Raise(c.value, cl.depth) == cl
    ensures PathKey(cl) <= PathKey(c.value)
    ensures Base(c.value) == Base(cl)
    decreases c
  {
    if c.value != cl {
      ChildPath(c.value.parent, cl);
    }
  }

  lemma {:induction false} RaiseIsAncestor(all: set<Cluster>, c: Cluster, d: nat)
    requires Closed(all) && c in all && d <= c.depth
    ensures Raise(c, d) in all && IsChild(Some(c), Raise(c, d))
    decreases c
  {
    if d < c.depth {
      RaiseIsAncestor(all, c.parent.value, d);
    }
  }

  /** The front of the sort key that the entries of a cluster's block share. */
  ghost function BlockKey(cl: Cluster): seq<int>
    requires WfCluster(cl)
  {
    GroupKey(Base(cl).group) + PathKey(cl)
  }

  lemma WithinHasKey(e: Entry, cl: Cluster, str: seq<int>)
    requires WfEntry(e) && IsChild(e.item.cluster, cl)
    ensures WfCluster(cl) && BlockKey(cl) <= EntryKey(e, str)
  {
    ChildPath(e.item.cluster, cl);
    var c := e.item.cluster.value;
    var rest := PathKey(c)[|PathKey(cl)|..];
    assert PathKey(c) == PathKey(cl) + rest;
    Regroup(GroupKey(BaseGroup(e)), PathKey(cl), rest, [0], GroupKey(e.item.group), NamesKey(NamesOf(e, str)));
  }

  lemma Regroup(a: seq<int>, b: seq<int>, c: seq<int>, d: seq<int>, e: seq<int>, f: seq<int>)
    ensures a + b <= a + ((b + c) + d) + e + f
  {
    assert a + ((b + c) + d) + e + f == (a + b) + (c + d + e + f);
  }

  lemma KeyMeansWithin(all: set<Cluster>, e: Entry, cl: Cluster, str: seq<int>)
    requires Closed(all) && cl in all && UniquePath(all, cl) && WfEntry(e)
    requires e.item.cluster.Some? ==> e.item.cluster.value in all
    requires BlockKey(cl) <= EntryKey(e, str)
    ensures IsChild(e.item.cluster, cl)
  {
    var place := EntryPlace(e, cl, str);
    if e.item.cluster.None? {
      PathMarks(cl, 0);
    } else {
      var c := e.item.cluster.value;
      PrefixMeansAncestor(c, cl, place);
      RaiseIsAncestor(all, c, cl.depth);
    }
  }

  lemma PrefixMeansAncestor(c: Cluster, cl: Cluster, place: seq<int>)
    requires WfCluster(c) && WfCluster(cl)
    requires PathKey(c) + [0] <= place && PathKey(cl) <= place
    ensures cl.depth <= c.depth && PathKey(Raise(c, cl.depth)) == PathKey(cl)
  {
    hide PathKey, Raise;
    var n := |PathKey(c)|;
    assert place[n] == 0 by { assert (PathKey(c) + [0])[n] == 0; }
    if c.depth < cl.depth {
      PathMarks(cl, c.depth + 1);
      assert false;
    }
    var rest := RaisedPath(c, cl.depth);
    var r := PathKey(Raise(c, cl.depth));
    assert r <= PathKey(c) <= place;
    assert r == place[..|r|] && PathKey(cl) == place[..|r|];
  }

  /** The part of an entry's key that follows the group of its base cluster. */
  lemma EntryPlace(e: Entry, cl: Cluster, str: seq<int>) returns (place: seq<int>)
    requires WfEntry(e) && WfCluster(cl) && BlockKey(cl) <= EntryKey(e, str)
    ensures PathKey(cl) <= place
    ensures PlaceKey(e.item.cluster) <= place
  {
    hide PathKey, NamesKey, NamesOf, GroupKey;
    var g, h := GroupKey(BaseGroup(e)), GroupKey(Base(cl).group);
    var tail := GroupKey(e.item.group) + NamesKey(NamesOf(e, str));
    place := PlaceKey(e.item.cluster) + tail;
    assert EntryKey(e, str) == g + place;
    DropFront(h, PathKey(cl), g, place);
  }

  lemma DropFront(h: seq<int>, p: seq<int>, g: seq<int>, q: seq<int>)
    requires |h| == |g| && h + p <= g + q
    ensures p <= q
  {
    assert (h + p)[|h|..] == p && (g + q)[|g|..] == q;
  }

  /** In every sorted listing the entries of a cluster whose path no other
      cluster shares, and of its descendants, form one block. */
  lemma BlockIsContiguous(all: set<Cluster>, es: seq<Entry>, str: seq<int>, cl: Cluster)
    requires Closed(all) && cl in all && UniquePath(all, cl)
    requires WfList(es) && Over(es, all) && Sorted(es, str)
    ensures Contiguous(es, cl)
  {
    forall i, j, k | 0 <= i < j < k < |es| && Within(es, i, cl) && Within(es, k, cl)
      ensures Within(es, j, cl)
    {
      WithinHasKey(es[i], cl, str);
      WithinHasKey(es[k], cl, str);
      EntryCmpIsLex(es[i], es[j], str);
      EntryCmpIsLex(es[j], es[k], str);
      LexBetween(BlockKey(cl), EntryKey(es[i], str), EntryKey(es[j], str), EntryKey(es[k], str));
      KeyMeansWithin(all, es[j], cl, str);
    }
  }

  /** Inside a block the cluster's own entries precede those of its
      sub-clusters. */
  lemma OwnEntriesFirst(es: seq<Entry>, str: seq<int>, cl: Cluster, i: nat, j: nat)
    requires WfList(es) && Sorted(es, str) && i < |es| && j < |es|
    requires es[i].item.cluster == Some(cl)
    requires Within(es, j, cl) && es[j].item.cluster != Some(cl)
    ensures i < j
  {
    var c := es[j].item.cluster.value;
    ChildPath(Some(c), cl);
    CousinCmpIsLex(cl, cl);
    LexZero(PathKey(cl), PathKey(cl));
    assert EntryCmp(es[j], es[i], str) > 0;
  }

  // ---- the clusters of a tree ----

  predicate Clustered(c: Child) {
    c.group != 0 || c.header.Some?
  }

  /** The clusters argp_hol makes for a tree that is itself in CLUSTER. */
  function TreeClusters(a: Argp, at: nat, cluster: Option<Cluster>): set<Cluster>
    decreases a, 1
  {
    KidClusters(a.children, 0, at + 1, cluster, at)
  }

  function KidClusters(cs: seq<Child>, ix: nat, at: nat, cluster: Option<Cluster>, owner: nat): set<Cluster>
    decreases cs, 0
  {
    if cs == [] then {}
    else
      var c := ChildCluster(cs[0], ix, at, cluster, owner);
      (if Clustered(cs[0]) then {c.value} else {})
      + TreeClusters(First(cs), at, c)
      + KidClusters(cs[1..], ix + 1, at + Size(First(cs)), cluster, owner)
  }

  /** A set of clusters closed under parents, up to the outer cluster. */
  ghost predicate ClosedUpTo(all: set<Cluster>, cluster: Option<Cluster>) {
    forall c :: c in all ==> WfCluster(c) && (c.parent == cluster || (c.parent.Some? && c.parent.value in all))
  }

  ghost predicate ItemsOver(items: seq<Item>, all: set<Cluster>, cluster: Option<Cluster>) {
    forall i :: 0 <= i < |items| ==>
      && items[i].opts != []
      && (items[i].cluster == cluster || (items[i].cluster.Some? && items[i].cluster.value in all))
  }

  lemma {:induction false} NodeItemsOver(os: seq<Opt>, cur: int, cluster: Option<Cluster>, owner: nat)
    ensures ItemsOver(NodeItems(os, cur, cluster, owner), {}, cluster)
    decreases |os|
  {
    if os != [] {
      var n := 1 + AliasRun(os[1..]);
      NodeItemsOver(os[n..], GroupAfter(os[0], cur), cluster, owner);
      assert os[..n] != [];
    }
  }

  lemma {:induction false} TreeClustersClosed(a: Argp, at: nat, cluster: Option<Cluster>)
    requires cluster.Some? ==> WfCluster(cluster.value)
    ensures ClosedUpTo(TreeClusters(a, at, cluster), cluster)
    ensures ItemsOver(TreeItems(a, at, cluster), TreeClusters(a, at, cluster), cluster)
    decreases a, 1
  {
    NodeItemsOver(a.Opts(), 0, cluster, at);
    KidClustersClosed(a.children, 0, at + 1, cluster, at);
  }

  lemma {:induction false} KidClustersClosed(cs: seq<Child>, ix: nat, at: nat, cluster: Option<Cluster>, owner: nat)
    requires cluster.Some? ==> WfCluster(cluster.value)
    ensures ClosedUpTo(KidClusters(cs, ix, at, cluster, owner), cluster)
    ensures ItemsOver(KidItems(cs, ix, at, cluster, owner), KidClusters(cs, ix, at, cluster, owner), cluster)
    decreases cs, 0
  {
    if cs != [] {
      var c := ChildCluster(cs[0], ix, at, cluster, owner);
      TreeClustersClosed(First(cs), at, c);
      KidClustersClosed(cs[1..], ix + 1, at + Size(First(cs)), cluster, owner);
    }
  }

  /** What _help prints for a tree: SORTED is the HOL ES, with the entries of
      --help and --version moved to their group, as qsort has left it. */
  ghost predicate HelpListing(a: Argp, es: seq<Entry>, str: seq<int>, sorted: seq<Entry>) {
    && Items(es) == HelpItems(a) && Coded(es, str)
    && multiset(sorted) == multiset(es) && WfList(sorted) && Sorted(sorted, str)
  }

  /** The entries that are sorted have options, and their clusters are the
      tree's, with their depths set. */
  lemma ListingOfTree(a: Argp, es: seq<Entry>, sorted: seq<Entry>)
    requires Items(es) == HelpItems(a) && multiset(sorted) == multiset(es)
    ensures Closed(TreeClusters(a, 0, None))
    ensures WfList(sorted) && Over(sorted, TreeClusters(a, 0, None))
  {
    TreeClustersClosed(a, 0, None);
    HelpItemsSame(a);
    var all := TreeClusters(a, 0, None);
    forall i | 0 <= i < |sorted|
      ensures WfEntry(sorted[i]) && (sorted[i].item.cluster.Some? ==> sorted[i].item.cluster.value in all)
    {
      assert sorted[i] in multiset(es);
      var k :| 0 <= k < |es| && es[k] == sorted[i];
      assert Items(es)[k] == sorted[i].item && HelpItems(a)[k].cluster == TreeItems(a, 0, None)[k].cluster;
    }
  }

  // ---- headers ----

  /** Some option of the entry is printed, so comma is called for it. */
  predicate Listed(e: Entry, str: seq<int>) {
    FirstShort(e.item.opts, str, e.so, 0) != 0 || FirstLong(e.item.opts).Some?
  }

  /** The entry becomes the previous entry: it is listed, or it is printed as
      the header of a group. */
  predicate Printed(e: Entry, str: seq<int>)
    requires e.item.opts != []
  {
    Listed(e, str) || (!IsShort(e.item.opts[0]) && e.item.opts[0].name.None?)
  }

  predicate HasHeader(c: Option<Cluster>) {
    c.Some? && c.value.header.Some? && c.value.header.value != []
  }

  /** The test in comma, given the previous entry. */
  predicate HeaderTest(prev: Option<Entry>, e: Entry) {
    HasHeader(e.item.cluster)
    && (prev.None?
        || (prev.value.item.cluster != e.item.cluster && !IsChild(prev.value.item.cluster, e.item.cluster.value)))
  }

  /** The entry printed last before position n. */
  function PrevPrinted(es: seq<Entry>, str: seq<int>, n: nat): Option<Entry>
    requires WfList(es) && n <= |es|
  {
    if n == 0 then None
    else if Printed(es[n - 1], str) then Some(es[n - 1])
    else PrevPrinted(es, str, n - 1)
  }

  /** comma prints a header before entry i. */
  predicate HeaderAt(es: seq<Entry>, str: seq<int>, i: nat)
    requires WfList(es) && i < |es|
  {
    Listed(es[i], str) && HeaderTest(PrevPrinted(es, str, i), es[i])
  }

  /** A visible option of the entry has a name, or owns a short key. */
  ghost predicate ShowsOption(e: Entry, str: seq<int>) {
    exists j :: 0 <= j < |e.item.opts| && !e.item.opts[j].hidden
                && (e.item.opts[j].name.Some? || Owns(e.item.opts, str, e.so, j))
  }

  /** The entry is listed, or starts a group: its option has neither a name nor a
      short key. */
  ghost predicate TakesPart(e: Entry, str: seq<int>)
    requires e.item.opts != []
  {
    ShowsOption(e, str) || (e.item.opts[0].name.None? && !IsShort(e.item.opts[0]))
  }

  /** A header is printed before entry i: of its options some are shown, its
      cluster has a header that is not empty, and the last entry before it that
      takes part, if there is one, is outside that cluster. */
  ghost predicate PrintsHeader(es: seq<Entry>, str: seq<int>, i: nat)
    requires WfList(es) && i < |es|
  {
    && ShowsOption(es[i], str)
    && es[i].item.cluster.Some? && es[i].item.cluster.value.header.Some? && es[i].item.cluster.value.header.value != ""
    && forall k :: 0 <= k < i && TakesPart(es[k], str) && (forall l :: k < l < i ==> !TakesPart(es[l], str)) ==>
         !Within(es, k, es[i].item.cluster.value)
  }

  lemma {:induction false} SomeLong(opts: seq<Opt>)
    ensures FirstLong(opts).Some? <==> exists j :: 0 <= j < |opts| && !opts[j].hidden && opts[j].name.Some?
  {
    if opts != [] && (opts[0].name.None? || opts[0].hidden) {
      SomeLong(opts[1..]);
      if j :| 0 <= j < |opts| && !opts[j].hidden && opts[j].name.Some? {
        assert opts[j] == opts[1..][j - 1];
      }
    }
  }

  lemma {:induction false} SomeShort(opts: seq<Opt>, str: seq<int>, so: nat, from: nat)
    requires from <= |opts|
    ensures FirstShort(opts, str, so, from) != 0
            <==> exists j :: from <= j < |opts| && !opts[j].hidden && Owns(opts, str, so, j)
    decreases |opts| - from
  {
    if from < |opts| {
      SomeShort(opts, str, so, from + 1);
      assert Owns(opts, str, so, from) ==> opts[from].key != 0;
      hide Owns;
    }
  }

  lemma ListedIs(e: Entry, str: seq<int>)
    ensures Listed(e, str) <==> ShowsOption(e, str)
  {
    hide Owns;
    SomeLong(e.item.opts);
    SomeShort(e.item.opts, str, e.so, 0);
  }

  /** Where comma's test is true, a header is printed, and nowhere else. */
  lemma HeaderAtIs(es: seq<Entry>, str: seq<int>, i: nat)
    requires WfList(es) && i < |es|
    ensures HeaderAt(es, str, i) <==> PrintsHeader(es, str, i)
  {
    hide ShowsOption, Listed;
    forall k | 0 <= k <= i
      ensures Listed(es[k], str) <==> ShowsOption(es[k], str)
      ensures Printed(es[k], str) <==> TakesPart(es[k], str)
    {
      ListedIs(es[k], str);
    }
    var at := PrevIsLast(es, str, i);
    var prev := PrevPrinted(es, str, i);
    hide Printed, TakesPart;
    if HasHeader(es[i].item.cluster) && prev.Some? {
      var cl := es[i].item.cluster.value;
      assert IsChild(es[i].item.cluster, cl);
      assert Within(es, at, cl) <==> IsChild(prev.value.item.cluster, cl);
    }
  }

  /** hol_help: the positions in the listing at which the header of the entry's
      cluster is printed. */
  method HolHelp(es: seq<Entry>, str: seq<int>) returns (headers: seq<nat>)
    requires WfList(es)
    ensures forall i: nat :: i in headers <==> i < |es| && HeaderAt(es, str, i)
    ensures forall i: nat :: i in headers <==> i < |es| && PrintsHeader(es, str, i)
    ensures forall i, j :: 0 <= i < j < |headers| ==> headers[i] < headers[j]
  {
    headers := [];
    var prev: Option<Entry> := None;
    for i := 0 to |es|
      invariant prev == PrevPrinted(es, str, i)
      invariant forall k: nat :: k in headers <==> k < i && HeaderAt(es, str, k)
      invariant forall j, k :: 0 <= j < k < |headers| ==> headers[j] < headers[k]
    {
      var e := es[i];
      if Listed(e, str) {
        if HeaderTest(prev, e) {
          assert forall j :: 0 <= j < |headers| ==> headers[j] in headers;
          headers := headers + [i];
        }
        prev := Some(e);
      } else if !IsShort(e.item.opts[0]) && e.item.opts[0].name.None? {
        prev := Some(e);
      }
    }
    forall i: nat | i < |es|
      ensures HeaderAt(es, str, i) <==> PrintsHeader(es, str, i)
    {
      HeaderAtIs(es, str, i);
    }
  }

  /** A cluster's header belongs before a listed entry of its own when nothing
      of the cluster or its descendants has been printed above. */
  ghost predicate HeaderDue(es: seq<Entry>, str: seq<int>, i: nat)
    requires WfList(es) && i < |es|
  {
    && Listed(es[i], str) && HasHeader(es[i].item.cluster)
    && forall k :: 0 <= k < i && Printed(es[k], str) ==> !Within(es, k, es[i].item.cluster.value)
  }

  lemma {:induction false} PrevIsLast(es: seq<Entry>, str: seq<int>, n: nat) returns (at: nat)
    requires WfList(es) && n <= |es|
    ensures var prev := PrevPrinted(es, str, n);
            if prev.None? then forall k :: 0 <= k < n ==> !Printed(es[k], str)
            else
              && at < n && prev.value == es[at] && Printed(es[at], str)
              && forall k :: at < k < n ==> !Printed(es[k], str)
  {
    at := 0;
    if n > 0 {
      if Printed(es[n - 1], str) {
        at := n - 1;
      } else {
        at := PrevIsLast(es, str, n - 1);
      }
    }
  }

  /** comma's look at the previous entry never misses a header that is due; and
      where the entries of the cluster stand together, it prints no other. */
  lemma TestIsDue(es: seq<Entry>, str: seq<int>, i: nat)
    requires WfList(es) && i < |es|
    ensures HeaderDue(es, str, i) ==> HeaderAt(es, str, i)
    ensures HeaderAt(es, str, i) && Contiguous(es, es[i].item.cluster.value) ==> HeaderDue(es, str, i)
  {
    var at := PrevIsLast(es, str, i);
    var prev := PrevPrinted(es, str, i);
    if HasHeader(es[i].item.cluster) {
      var cl := es[i].item.cluster.value;
      assert Within(es, i, cl);
      if prev.Some? {
        assert Within(es, at, cl) <==> IsChild(prev.value.item.cluster, cl);
      }
    }
  }

  /** So a header is printed for one entry at most. */
  lemma HeaderOnce(es: seq<Entry>, str: seq<int>, i: nat, j: nat)
    requires WfList(es) && i < |es| && j < |es| && HeaderAt(es, str, i) && HeaderAt(es, str, j)
    requires es[i].item.cluster == es[j].item.cluster && Contiguous(es, es[i].item.cluster.value)
    ensures i == j
  {
    var cl := es[i].item.cluster.value;
    TestIsDue(es, str, i);
    TestIsDue(es, str, j);
    assert Within(es, i, cl) && Within(es, j, cl);
  }
}
