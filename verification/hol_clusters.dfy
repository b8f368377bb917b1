/** Which cluster the options of an argp are listed in, from its place in the
    tree. */
module HolClusters {
  import opened Wrappers
  import opened ArgpTree
  import opened HolCode
  import opened HolSpec
  import opened HolTwins
  import Preorder

  // ---- the places of a tree ----

  /** What stands at position j is the child of its parent that it says it is. */
  ghost predicate IsChildOf(ps: seq<Preorder.Place>, j: nat, parent: Argp)
    requires j < |ps|
  {
    var p := ps[j];
    && p.index < |parent.children|
    && var c := parent.children[p.index]; p.argp == c.argp && p.header == c.header && p.group == c.group
  }

  /** A piece of the listing from position at on: each entry's parent stands in
      the piece before it, or it is OUTER, the argp at position owner. */
  ghost predicate RootedAt(ps: seq<Preorder.Place>, at: nat, owner: int, outer: Argp, j: nat)
    requires j < |ps|
  {
    && ps[j].parent.Some?
    && var q := ps[j].parent.value;
       if q == owner then IsChildOf(ps, j, outer) else at <= q < at + j && IsChildOf(ps, j, ps[q - at].argp)
  }

  ghost predicate AllRooted(ps: seq<Preorder.Place>, at: nat, owner: int, outer: Argp, from: nat) {
    forall j: nat :: from <= j < |ps| ==> RootedAt(ps, at, owner, outer, j)
  }

  lemma {:induction false} KidsAreRooted(outer: Argp, ix: nat, at: nat, owner: nat)
    requires ix <= |outer.children| && owner < at
    ensures AllRooted(Preorder.VisitKids(outer.children[ix..], at, owner, ix), at, owner, outer, 0)
    decreases outer, 0, |outer.children| - ix
  {
    var cs := outer.children[ix..];
    if cs != [] {
      assert outer decreases to First(cs) by { assert outer decreases to outer.children[ix]; }
      var n := Size(First(cs));
      var head := Preorder.Visit(First(cs), at, Some(owner), ix, cs[0].header, cs[0].group);
      assert cs[1..] == outer.children[ix + 1..];
      TreeIsRooted(First(cs), at, Some(owner), ix, cs[0].header, cs[0].group, owner, outer);
      KidsAreRooted(outer, ix + 1, at + n, owner);
      assert RootedAt(head, at, owner, outer, 0);
      assert AllRooted(head, at, owner, outer, 0) by { hide RootedAt; }
      RootsJoin(head, Preorder.VisitKids(outer.children[ix + 1..], at + n, owner, ix + 1), at, owner, outer);
    }
  }

  lemma RootsJoin(ps: seq<Preorder.Place>, qs: seq<Preorder.Place>, at: nat, owner: int, outer: Argp)
    requires owner < at && AllRooted(ps, at, owner, outer, 0) && AllRooted(qs, at + |ps|, owner, outer, 0)
    ensures AllRooted(ps + qs, at, owner, outer, 0)
  {
    hide RootedAt;
    var all, n := ps + qs, |ps|;
    forall j: nat | j < |all|
      ensures RootedAt(all, at, owner, outer, j)
    {
      if j < n {
        RootFront(ps, qs, at, owner, outer, j);
      } else {
        RootBack(ps, qs, at, owner, outer, j - n);
      }
    }
  }

  lemma RootFront(ps: seq<Preorder.Place>, qs: seq<Preorder.Place>, at: nat, owner: int, outer: Argp, j: nat)
    requires j < |ps| && owner < at && RootedAt(ps, at, owner, outer, j)
    ensures RootedAt(ps + qs, at, owner, outer, j)
  {}

  lemma RootBack(ps: seq<Preorder.Place>, qs: seq<Preorder.Place>, at: nat, owner: int, outer: Argp, j: nat)
    requires j < |qs| && owner < at && RootedAt(qs, at + |ps|, owner, outer, j)
    ensures RootedAt(ps + qs, at, owner, outer, |ps| + j)
  {}

  lemma {:induction false} TreeIsRooted(a: Argp, at: nat, up: Option<nat>, index: nat, header: Option<string>,
                                        group: int, owner: int, outer: Argp)
    requires owner < at
    ensures AllRooted(Preorder.Visit(a, at, up, index, header, group), at, owner, outer, 1)
    decreases a, 1
  {
    KidsAreRooted(a, 0, at + 1, at);
    assert a.children[0..] == a.children;
    RootsUnder(Preorder.Place(a, up, index, header, group), Preorder.VisitKids(a.children, at + 1, at, 0), at, owner,
               outer);
  }

  lemma RootsUnder(p: Preorder.Place, kids: seq<Preorder.Place>, at: nat, owner: int, outer: Argp)
    requires owner < at && AllRooted(kids, at + 1, at, p.argp, 0)
    ensures AllRooted([p] + kids, at, owner, outer, 1)
  {
    var all := [p] + kids;
    forall j: nat | 0 < j < |all|
      ensures RootedAt(all, at, owner, outer, j)
    {
      assert RootedAt(kids, at + 1, at, p.argp, j - 1) && all[j] == kids[j - 1];
    }
  }

  /** The listing of a tree is one of its argps: the first is the root, and every
      other one stands behind its parent, with the header and group that it has
      among the children there. */
  lemma PlacesAreChildren(a: Argp, x: nat)
    requires x < Size(a)
    ensures var ps := Preorder.All(a);
            if x == 0 then ps[0].argp == a && ps[0].parent.None?
            else
              && ps[x].parent.Some? && ps[x].parent.value < x
              && IsChildOf(ps, x, ps[ps[x].parent.value].argp)
  {
    TreeIsRooted(a, 0, None, 0, None, 0, -1, a);
    if x > 0 {
      RootedMeans(Preorder.All(a), a, x);
    }
  }

  lemma RootedMeans(ps: seq<Preorder.Place>, a: Argp, x: nat)
    requires 0 < x < |ps| && AllRooted(ps, 0, -1, a, 1)
    ensures ps[x].parent.Some? && ps[x].parent.value < x && IsChildOf(ps, x, ps[ps[x].parent.value].argp)
  {
    hide IsChildOf;
    assert RootedAt(ps, 0, -1, a, x);
  }

  // ---- their clusters ----

  /** The cluster at position j of a piece, from that of its parent: a new one, of
      its own group, header and index, if it has a group or a header; and else
      the same. OUTER is the cluster of the argp at position owner. */
  ghost predicate LinkedAt(cl: seq<Option<Cluster>>, ps: seq<Preorder.Place>, at: nat, owner: int,
                           outer: Option<Cluster>, j: nat)
    requires j < |ps| == |cl|
  {
    && ps[j].parent.Some?
    && var p, q := ps[j], ps[j].parent.value;
       && (q == owner || at <= q < at + j)
       && var up := if q == owner then outer else cl[q - at];
          if p.group == 0 && p.header.None? then cl[j] == up
          else
            && cl[j].Some?
            && var c := cl[j].value;
               && c.group == p.group && c.header == p.header && c.index == p.index && c.parent == up
               && c.id == at + j && c.owner == q && c.depth == if up.Some? then up.value.depth + 1 else 0
  }

  ghost predicate AllLinked(cl: seq<Option<Cluster>>, ps: seq<Preorder.Place>, at: nat, owner: int,
                            outer: Option<Cluster>, from: nat)
  {
    |cl| == |ps| && forall j: nat :: from <= j < |ps| ==> LinkedAt(cl, ps, at, owner, outer, j)
  }

  lemma {:induction false} KidsAreLinked(cs: seq<Child>, ix: nat, at: nat, cluster: Option<Cluster>, owner: nat)
    requires owner < at
    ensures var cl, ps := KidPlaces(cs, ix, at, cluster, owner), Preorder.VisitKids(cs, at, owner, ix);
            AllLinked(cl, ps, at, owner, cluster, 0)
    decreases cs, 0
  {
    if cs != [] {
      var n, own := Size(First(cs)), ChildCluster(cs[0], ix, at, cluster, owner);
      var head := Preorder.Visit(First(cs), at, Some(owner), ix, cs[0].header, cs[0].group);
      var tail := Preorder.VisitKids(cs[1..], at + n, owner, ix + 1);
      var cl1, cl2 := Places(First(cs), at, own), KidPlaces(cs[1..], ix + 1, at + n, cluster, owner);
      TreeIsLinked(First(cs), at, own, Some(owner), ix, cs[0].header, cs[0].group, owner, cluster);
      KidsAreLinked(cs[1..], ix + 1, at + n, cluster, owner);
      assert LinkedAt(cl1, head, at, owner, cluster, 0);
      assert AllLinked(cl1, head, at, owner, cluster, 0) by { hide LinkedAt; }
      LinksJoin(cl1, head, cl2, tail, at, owner, cluster);
    }
  }

  lemma LinkFront(cl1: seq<Option<Cluster>>, ps: seq<Preorder.Place>, cl2: seq<Option<Cluster>>,
                  qs: seq<Preorder.Place>, at: nat, owner: int, outer: Option<Cluster>, j: nat)
    requires |cl1| == |ps| && |cl2| == |qs| && j < |ps| && owner < at && LinkedAt(cl1, ps, at, owner, outer, j)
    ensures LinkedAt(cl1 + cl2, ps + qs, at, owner, outer, j)
  {}

  lemma LinkBack(cl1: seq<Option<Cluster>>, ps: seq<Preorder.Place>, cl2: seq<Option<Cluster>>,
                 qs: seq<Preorder.Place>, at: nat, owner: int, outer: Option<Cluster>, j: nat)
    requires |cl1| == |ps| && |cl2| == |qs| && j < |qs| && owner < at
    requires LinkedAt(cl2, qs, at + |ps|, owner, outer, j)
    ensures LinkedAt(cl1 + cl2, ps + qs, at, owner, outer, |ps| + j)
  {}

  lemma LinksJoin(cl1: seq<Option<Cluster>>, ps: seq<Preorder.Place>, cl2: seq<Option<Cluster>>,
                  qs: seq<Preorder.Place>, at: nat, owner: int, outer: Option<Cluster>)
    requires owner < at && AllLinked(cl1, ps, at, owner, outer, 0) && AllLinked(cl2, qs, at + |ps|, owner, outer, 0)
    ensures AllLinked(cl1 + cl2, ps + qs, at, owner, outer, 0)
  {
    hide LinkedAt;
    var cl, all, n := cl1 + cl2, ps + qs, |ps|;
    forall j: nat | j < |all|
      ensures LinkedAt(cl, all, at, owner, outer, j)
    {
      if j < n {
        LinkFront(cl1, ps, cl2, qs, at, owner, outer, j);
      } else {
        LinkBack(cl1, ps, cl2, qs, at, owner, outer, j - n);
      }
    }
  }

  lemma {:induction false} TreeIsLinked(a: Argp, at: nat, cluster: Option<Cluster>, up: Option<nat>, index: nat,
                                        header: Option<string>, group: int, owner: int, outer: Option<Cluster>)
    requires owner < at
    ensures var cl, ps := Places(a, at, cluster), Preorder.Visit(a, at, up, index, header, group);
            cl[0] == cluster && AllLinked(cl, ps, at, owner, outer, 1)
    decreases a, 1
  {
    var kids, kc := Preorder.VisitKids(a.children, at + 1, at, 0), KidPlaces(a.children, 0, at + 1, cluster, at);
    KidsAreLinked(a.children, 0, at + 1, cluster, at);
    LinksUnder(cluster, kc, Preorder.Place(a, up, index, header, group), kids, at, owner, outer);
  }

  lemma LinksUnder(cluster: Option<Cluster>, kc: seq<Option<Cluster>>, p: Preorder.Place, kids: seq<Preorder.Place>,
                   at: nat, owner: int, outer: Option<Cluster>)
    requires owner < at && AllLinked(kc, kids, at + 1, at, cluster, 0)
    ensures AllLinked([cluster] + kc, [p] + kids, at, owner, outer, 1)
  {
    var cl, all := [cluster] + kc, [p] + kids;
    forall j: nat | 0 < j < |all|
      ensures LinkedAt(cl, all, at, owner, outer, j)
    {
      assert LinkedAt(kc, kids, at + 1, at, cluster, j - 1) && all[j] == kids[j - 1] && cl[j] == kc[j - 1];
    }
  }

  lemma {:induction false} NodeItemsOwned(os: seq<Opt>, cur: int, cluster: Option<Cluster>, owner: nat)
    ensures forall i :: 0 <= i < |NodeItems(os, cur, cluster, owner)| ==>
              NodeItems(os, cur, cluster, owner)[i].cluster == cluster
                  && NodeItems(os, cur, cluster, owner)[i].owner == owner
    decreases |os|
  {
    if os != [] {
      NodeItemsOwned(os[1 + AliasRun(os[1..])..], GroupAfter(os[0], cur), cluster, owner);
    }
  }

  ghost predicate InPlace(items: seq<Item>, cl: seq<Option<Cluster>>, at: nat) {
    forall i :: 0 <= i < |items| ==>
      at <= items[i].owner < at + |cl| && items[i].cluster == cl[items[i].owner - at]
  }

  lemma InPlaceJoin(xs: seq<Item>, ys: seq<Item>, cl: seq<Option<Cluster>>, cm: seq<Option<Cluster>>, at: nat)
    requires InPlace(xs, cl, at) && InPlace(ys, cm, at + |cl|)
    ensures InPlace(xs + ys, cl + cm, at)
  {}

  lemma {:induction false} TreeItemsInPlace(a: Argp, at: nat, cluster: Option<Cluster>)
    ensures InPlace(TreeItems(a, at, cluster), Places(a, at, cluster), at)
    decreases a, 1
  {
    hide InPlace;
    assert InPlace(NodeItems(a.Opts(), 0, cluster, at), [cluster], at) by {
      hide *;
      OwnInPlace(a.Opts(), cluster, at);
    }
    KidItemsInPlace(a.children, 0, at + 1, cluster, at);
    InPlaceJoin(NodeItems(a.Opts(), 0, cluster, at), KidItems(a.children, 0, at + 1, cluster, at),
                [cluster], KidPlaces(a.children, 0, at + 1, cluster, at), at);
  }

  lemma OwnInPlace(os: seq<Opt>, cluster: Option<Cluster>, at: nat)
    ensures InPlace(NodeItems(os, 0, cluster, at), [cluster], at)
  {
    NodeItemsOwned(os, 0, cluster, at);
  }

  lemma {:induction false} KidItemsInPlace(cs: seq<Child>, ix: nat, at: nat, cluster: Option<Cluster>, owner: nat)
    ensures InPlace(KidItems(cs, ix, at, cluster, owner), KidPlaces(cs, ix, at, cluster, owner), at)
    decreases cs, 0
  {
    if cs != [] {
      hide InPlace;
      var n, own := Size(First(cs)), ChildCluster(cs[0], ix, at, cluster, owner);
      TreeItemsInPlace(First(cs), at, own);
      KidItemsInPlace(cs[1..], ix + 1, at + n, cluster, owner);
      InPlaceJoin(TreeItems(First(cs), at, own), KidItems(cs[1..], ix + 1, at + n, cluster, owner),
                  Places(First(cs), at, own), KidPlaces(cs[1..], ix + 1, at + n, cluster, owner), at);
    }
  }

  /** Every entry is in the cluster of its argp. The root has none; every other
      argp has one of its own, within that of its parent, with its own group,
      header and index, if it has a group or a header, and else that of its
      parent. */
  lemma ClusterOfEntry(a: Argp, i: nat) returns (cl: seq<Option<Cluster>>)
    requires i < |TreeItems(a, 0, None)|
    ensures var ps, it := Preorder.All(a), TreeItems(a, 0, None)[i];
            && |cl| == |ps| && it.owner < |ps| && it.cluster == cl[it.owner] && cl[0] == None
            && forall x: nat :: 0 < x < |ps| ==>
                 ps[x].parent.Some? && ps[x].parent.value < x && FromParent(cl, ps, x)
  {
    hide LinkedAt, AllLinked, FromParent;
    cl := Places(a, 0, None);
    TreeItemsInPlace(a, 0, None);
    TreeIsLinked(a, 0, None, None, 0, None, 0, -1, None);
    var ps := Preorder.All(a);
    forall x: nat | 0 < x < |ps|
      ensures ps[x].parent.Some? && ps[x].parent.value < x && FromParent(cl, ps, x)
    {
      LinkedMeans(cl, ps, x);
    }
  }

  /** The cluster at position x from that at its parent's. */
  ghost predicate FromParent(cl: seq<Option<Cluster>>, ps: seq<Preorder.Place>, x: nat)
    requires x < |ps| == |cl| && ps[x].parent.Some? && ps[x].parent.value < x
  {
    var up := cl[ps[x].parent.value];
    if ps[x].group == 0 && ps[x].header.None? then cl[x] == up
    else cl[x] == Some(Cluster(x, ps[x].header, ps[x].index, ps[x].group, up,
                               if up.Some? then up.value.depth + 1 else 0, ps[x].parent.value))
  }

  lemma LinkedMeans(cl: seq<Option<Cluster>>, ps: seq<Preorder.Place>, x: nat)
    requires |cl| == |ps| && 0 < x < |ps| && AllLinked(cl, ps, 0, -1, None, 1)
    ensures ps[x].parent.Some? && ps[x].parent.value < x && FromParent(cl, ps, x)
  {
    assert LinkedAt(cl, ps, 0, -1, None, x);
  }
}
