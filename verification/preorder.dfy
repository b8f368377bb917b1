/** The argps of a tree one after the other, and what help and parser make of
    each of them. */
module Preorder {
  import opened Wrappers
  import opened ArgpTree
  import opened Sequences
  import opened Tables

  /** An argp in the tree: the position of its parent, its index among the
      parent's children, and the header and group it has there. */
  datatype Place = Place(argp: Argp, parent: Option<nat>, index: nat, header: Option<string>, group: int)

  /** All argps in preorder, the first one at position at. */
  function Visit(a: Argp, at: nat, parent: Option<nat>, index: nat, header: Option<string>, group: int): (r: seq<Place>)
    ensures |r| == Size(a)
    decreases a, 1
  {
    [Place(a, parent, index, header, group)] + VisitKids(a.children, at + 1, at, 0)
  }

  function VisitKids(cs: seq<Child>, at: nat, parent: nat, index: nat): (r: seq<Place>)
    ensures |r| == SizeKids(cs)
    decreases cs, 0
  {
    if cs == [] then []
    else
      Visit(First(cs), at, Some(parent), index, cs[0].header, cs[0].group)
      + VisitKids(cs[1..], at + Size(First(cs)), parent, index + 1)
  }

  function All(a: Argp): (r: seq<Place>)
    ensures |r| == Size(a)
  {
    Visit(a, 0, None, 0, None, 0)
  }

  // ---- groups ----

  /** The positions of the argps with options or a parser, in order. */
  function Owners(places: seq<Place>, at: nat): (r: seq<nat>)
    ensures forall k :: 0 <= k < |r| ==> at <= r[k] < at + |places|
    ensures forall k, l :: 0 <= k < l < |r| ==> r[k] < r[l]
    ensures forall x :: x in r <==> at <= x < at + |places|
                                    && (places[x - at].argp.options.Some? || places[x - at].argp.hasParser)
  {
    if places == [] then []
    else
      (if places[0].argp.options.Some? || places[0].argp.hasParser then [at] else [])
      + Owners(places[1..], at + 1)
  }

  lemma {:induction false} OwnersConcat(a: seq<Place>, b: seq<Place>, at: nat)
    ensures Owners(a + b, at) == Owners(a, at) + Owners(b, at + |a|)
  {
    if a == [] {
      ConcatEmpty(b);
      ConcatEmpty(Owners(b, at));
    } else {
      OwnersConcat(a[1..], b, at + 1);
      ConcatFirst(a, b);
      ConcatAssoc(if a[0].argp.options.Some? || a[0].argp.hasParser then [at] else [], Owners(a[1..], at + 1),
                  Owners(b, at + |a|));
    }
  }

  /** A group is that of the argp at its owner's position. */
  ghost predicate Of(node: Node, places: seq<Place>, at: nat) {
    && at <= node.owner < at + |places|
    && var p := places[node.owner - at];
       && node.opts == (if p.argp.options.Some? then p.argp.options.value else [])
       && node.hasParser == p.argp.hasParser && node.kids == |p.argp.children| && node.parentIndex == p.index
  }

  ghost predicate AllOf(nodes: seq<Node>, places: seq<Place>, at: nat) {
    && |nodes| == |Owners(places, at)|
    && forall k :: 0 <= k < |nodes| ==> nodes[k].owner == Owners(places, at)[k] && Of(nodes[k], places, at)
  }

  lemma AllOfConcat(ns: seq<Node>, ms: seq<Node>, ps: seq<Place>, qs: seq<Place>, at: nat)
    requires AllOf(ns, ps, at) && AllOf(ms, qs, at + |ps|)
    ensures AllOf(ns + ms, ps + qs, at)
  {
    OwnersConcat(ps, qs, at);
    var all, owners := ns + ms, Owners(ps, at) + Owners(qs, at + |ps|);
    forall k | 0 <= k < |all|
      ensures all[k].owner == owners[k] && Of(all[k], ps + qs, at)
    {
      if k < |ns| {
        assert all[k] == ns[k] && owners[k] == Owners(ps, at)[k] && Of(ns[k], ps, at);
      } else {
        assert all[k] == ms[k - |ns|] && owners[k] == Owners(qs, at + |ps|)[k - |ns|];
        assert Of(ms[k - |ns|], qs, at + |ps|);
      }
    }
  }

  lemma {:induction false} GroupsInOrder(a: Argp, at: nat, parent: Option<nat>, index: nat, base: nat,
                                         up: Option<nat>, header: Option<string>, group: int)
    ensures AllOf(GroupsOf(a, at, parent, index, base), Visit(a, at, up, index, header, group), at)
    decreases a, 1
  {
    hide *;
    var p := Place(a, up, index, header, group);
    var own := OwnGroup(a, at, parent, index);
    OwnGroupOf(p, at, parent);
    var gp := if a.options.Some? || a.hasParser then Some(base) else None;
    var kids := VisitKids(a.children, at + 1, at, 0);
    KidGroupsInOrder(a.children, at + 1, gp, 0, base + |own|, at);
    AllOfConcat(own, GroupsOfKids(a.children, at + 1, gp, 0, base + |own|), [p], kids, at);
    GroupsUnfold(a, at, parent, index, base);
    VisitUnfold(a, at, up, index, header, group);
  }

  /** The group of an argp itself, if it has options or a parser. */
  function OwnGroup(a: Argp, at: nat, parent: Option<nat>, index: nat): (r: seq<Node>) {
    if a.options.Some? || a.hasParser then
      [Node(at, if a.options.Some? then a.options.value else [], a.hasParser, parent, index, |a.children|)]
    else []
  }

  lemma OwnGroupOf(p: Place, at: nat, parent: Option<nat>)
    ensures AllOf(OwnGroup(p.argp, at, parent, p.index), [p], at)
  {
    OwnersOne(p, at);
  }

  lemma VisitUnfold(a: Argp, at: nat, up: Option<nat>, index: nat, header: Option<string>, group: int)
    ensures Visit(a, at, up, index, header, group)
            == [Place(a, up, index, header, group)] + VisitKids(a.children, at + 1, at, 0)
  {}

  lemma OwnersOne(p: Place, at: nat)
    ensures Owners([p], at) == if p.argp.options.Some? || p.argp.hasParser then [at] else []
  {
    assert [p][1..] == [] && Owners([], at + 1) == [];
  }

  lemma GroupsUnfold(a: Argp, at: nat, parent: Option<nat>, index: nat, base: nat)
    ensures GroupsOf(a, at, parent, index, base)
            == var own, gp := OwnGroup(a, at, parent, index), if a.options.Some? || a.hasParser then Some(base)
                else None;
               own + GroupsOfKids(a.children, at + 1, gp, 0, base + |own|)
  {
    ConcatEmpty(GroupsOfKids(a.children, at + 1, None, 0, base));
  }

  lemma {:induction false} KidGroupsInOrder(cs: seq<Child>, at: nat, parent: Option<nat>, index: nat, base: nat,
                                            up: nat)
    ensures AllOf(GroupsOfKids(cs, at, parent, index, base), VisitKids(cs, at, up, index), at)
    decreases cs, 0
  {
    hide AllOf;
    if cs == [] {
      NoGroups(at);
    } else {
      var n, head := Size(First(cs)), GroupsOf(First(cs), at, parent, index, base);
      GroupsInOrder(First(cs), at, parent, index, base, Some(up), cs[0].header, cs[0].group);
      KidGroupsInOrder(cs[1..], at + n, parent, index + 1, base + |head|, up);
      AllOfConcat(head, GroupsOfKids(cs[1..], at + n, parent, index + 1, base + |head|),
                  Visit(First(cs), at, Some(up), index, cs[0].header, cs[0].group),
                  VisitKids(cs[1..], at + n, up, index + 1), at);
    }
  }

  lemma NoGroups(at: nat)
    ensures AllOf([], [], at)
  {}

  /** Exactly the argps that have an options vector or a parser get a group, each
      one, in preorder, with their own options, parser flag, number of children
      and index. */
  lemma GroupsAreOwners(a: Argp)
    ensures var nodes, places := GroupsOf(a, 0, None, 0, 0), All(a);
            && |nodes| == |Owners(places, 0)|
            && forall k :: 0 <= k < |nodes| ==> nodes[k].owner == Owners(places, 0)[k] && Of(nodes[k], places, 0)
  {
    GroupsInOrder(a, 0, None, 0, 0, None, None, 0);
  }

  /** So every argp with a parser has a group that calls it. */
  lemma ParserHasGroup(a: Argp, x: nat) returns (g: nat)
    requires x < Size(a) && All(a)[x].argp.hasParser
    ensures var nodes := GroupsOf(a, 0, None, 0, 0); g < |nodes| && nodes[g].owner == x && nodes[g].hasParser
  {
    GroupsAreOwners(a);
    assert x in Owners(All(a), 0);
    g :| 0 <= g < |Owners(All(a), 0)| && Owners(All(a), 0)[g] == x;
    assert Of(GroupsOf(a, 0, None, 0, 0)[g], All(a), 0);
  }
}
