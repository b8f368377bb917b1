/** What make_hol and argp_hol are to list: one item for every option with its
    aliases, argp after argp in preorder. */
module HolSpec {
  import opened Wrappers
  import opened FirstOccurrence
  import opened ArgpTree
  import opened HolCode
  import opened Sequences

  /** The source asserts that no options vector starts with an alias. */
  predicate Headed(os: seq<Opt>) {
    os != [] ==> !os[0].alias
  }

  predicate HeadedTree(a: Argp)
    decreases a, 1
  {
    Headed(a.Opts()) && HeadedKids(a.children)
  }

  predicate HeadedKids(cs: seq<Child>)
    decreases cs, 0
  {
    cs == [] || (HeadedTree(First(cs)) && HeadedKids(cs[1..]))
  }

  function AliasRun(os: seq<Opt>): (n: nat)
    ensures n <= |os|
  {
    if os == [] || !os[0].alias then 0 else 1 + AliasRun(os[1..])
  }

  /** The help group of an option after one in group cur: its own number, or
      the next one for a header, or the same again. */
  function GroupAfter(o: Opt, cur: int): int {
    if o.group != 0 then o.group
    else if o.name.None? && o.key == 0 then cur + 1
    else cur
  }

  function NodeItems(os: seq<Opt>, cur: int, cluster: Option<Cluster>, owner: nat): seq<Item>
    decreases |os|
  {
    if os == [] then []
    else
      var n := 1 + AliasRun(os[1..]);
      var g := GroupAfter(os[0], cur);
      [Item(os[..n], g, cluster, owner)] + NodeItems(os[n..], g, cluster, owner)
  }

  /** The header options between lo and hi: without name, key and group number of
      their own. */
  function Headers(os: seq<Opt>, lo: nat, hi: nat): set<nat> {
    set q | 0 <= q < |os| && lo <= q < hi && !os[q].alias && os[q].group == 0 && os[q].name.None? && os[q].key == 0 :: q
  }

  /** Option p is the last one that gives a group number, up to option o. */
  ghost predicate LastNumbered(os: seq<Opt>, p: nat, o: nat) {
    && p <= o < |os| && !os[p].alias && os[p].group != 0
    && forall q :: p < q <= o ==> os[q].alias || os[q].group == 0
  }

  ghost predicate NoneNumbered(os: seq<Opt>, o: nat) {
    o < |os| && forall q :: 0 <= q <= o ==> os[q].alias || os[q].group == 0
  }

  /** The group at option o, counted from group cur before the first option. */
  function GroupAt(os: seq<Opt>, o: nat, cur: int): int
    requires o < |os|
  {
    var before := if o == 0 then cur else GroupAt(os, o - 1, cur);
    if os[o].alias then before
    else if os[o].group != 0 then os[o].group
    else if os[o].name.None? && os[o].key == 0 then before + 1
    else before
  }

  lemma {:induction false} GroupAtRest(os: seq<Opt>, n: nat, o: nat, cur: int)
    requires 0 < n <= o < |os|
    ensures GroupAt(os, o, cur) == GroupAt(os[n..], o - n, GroupAt(os, n - 1, cur))
  {
    if o > n {
      GroupAtRest(os, n, o - 1, cur);
    }
  }

  lemma {:induction false} GroupInRun(os: seq<Opt>, n: nat, j: nat, cur: int)
    requires j < n <= |os| && !os[0].alias && forall k :: 1 <= k < n ==> os[k].alias
    ensures GroupAt(os, j, cur) == GroupAt(os, 0, cur)
  {
    if j > 0 {
      GroupInRun(os, n, j - 1, cur);
    }
  }

  /** The item has the options from option o on, and that one's group. */
  ghost predicate BeginsAt(os: seq<Opt>, it: Item, o: nat, cur: int) {
    && it.opts != [] && o + |it.opts| <= |os| && it.opts == os[o..o + |it.opts|] && !os[o].alias
    && it.group == GroupAt(os, o, cur)
  }

  lemma BeginsFirst(os: seq<Opt>, n: nat, it: Item, cur: int)
    requires 0 < n <= |os| && !os[0].alias && it.opts == os[..n] && it.group == GroupAt(os, 0, cur)
    ensures BeginsAt(os, it, 0, cur)
  {}

  lemma BeginsLater(os: seq<Opt>, n: nat, it: Item, o: nat, cur: int)
    requires 0 < n <= |os| && BeginsAt(os[n..], it, o, GroupAt(os, n - 1, cur))
    ensures BeginsAt(os, it, n + o, cur)
  {
    GroupAtRest(os, n, n + o, cur);
    assert os[n..][o..o + |it.opts|] == os[n + o..n + o + |it.opts|];
  }

  lemma {:induction false} ItemGroups(os: seq<Opt>, cur: int, cluster: Option<Cluster>, owner: nat, i: nat)
      returns (o: nat)
    requires Headed(os) && i < |NodeItems(os, cur, cluster, owner)|
    ensures BeginsAt(os, NodeItems(os, cur, cluster, owner)[i], o, cur)
    decreases |os|
  {
    var n := ItemsUnfold(os, cur, cluster, owner);
    hide BeginsAt, NodeItems, GroupAt;
    GroupAtFirst(os, cur);
    if i == 0 {
      o := 0;
      BeginsFirst(os, n, NodeItems(os, cur, cluster, owner)[0], cur);
    } else {
      var g := GroupAfter(os[0], cur);
      var front := ItemGroups(os[n..], g, cluster, owner, i - 1);
      o := n + front;
      GroupInRun(os, n, n - 1, cur);
      BeginsLater(os, n, NodeItems(os[n..], g, cluster, owner)[i - 1], front, cur);
    }
  }

  lemma ItemsUnfold(os: seq<Opt>, cur: int, cluster: Option<Cluster>, owner: nat) returns (n: nat)
    requires Headed(os) && os != []
    ensures 0 < n <= |os| && Headed(os[n..]) && forall k :: 1 <= k < n ==> os[k].alias
    ensures var g := GroupAfter(os[0], cur);
            NodeItems(os, cur, cluster, owner)
            == [Item(os[..n], g, cluster, owner)] + NodeItems(os[n..], g, cluster, owner)
  {
    n := 1 + AliasRun(os[1..]);
    AliasRunOnly(os[1..]);
    assert forall k :: 1 <= k < n ==> os[k] == os[1..][k - 1];
  }

  lemma GroupAtFirst(os: seq<Opt>, cur: int)
    requires os != [] && !os[0].alias
    ensures GroupAt(os, 0, cur) == GroupAfter(os[0], cur)
  {}

  /** The group of an option is the last number given, plus one for each header
      behind it. */
  lemma {:induction false} GroupCounts(os: seq<Opt>, o: nat, cur: int)
    requires o < |os|
    ensures NoneNumbered(os, o) ==> GroupAt(os, o, cur) == cur + |Headers(os, 0, o + 1)|
    ensures forall p: nat :: LastNumbered(os, p, o) ==> GroupAt(os, o, cur) == os[p].group + |Headers(os, p + 1, o + 1)|
  {
    if o > 0 {
      GroupCounts(os, o - 1, cur);
    }
    HeadersStep(os, 0, o);
    NoHeaders(os, 0);
    forall p: nat | LastNumbered(os, p, o)
      ensures GroupAt(os, o, cur) == os[p].group + |Headers(os, p + 1, o + 1)|
    {
      if p == o {
        NoHeaders(os, o + 1);
      } else {
        assert LastNumbered(os, p, o - 1);
        HeadersStep(os, p + 1, o);
      }
    }
  }

  lemma NoHeaders(os: seq<Opt>, n: nat)
    ensures Headers(os, n, n) == {}
  {}

  lemma HeadersStep(os: seq<Opt>, lo: nat, o: nat)
    requires lo <= o < |os|
    ensures var header := !os[o].alias && os[o].group == 0 && os[o].name.None? && os[o].key == 0;
            |Headers(os, lo, o + 1)| == |Headers(os, lo, o)| + if header then 1 else 0
  {
    var header := !os[o].alias && os[o].group == 0 && os[o].name.None? && os[o].key == 0;
    assert Headers(os, lo, o + 1) == if header then Headers(os, lo, o) + {o} else Headers(os, lo, o);
  }

  /** The help group of every entry, from the options: the last number given by
      an option at or before the entry's own, plus the number of headers since;
      or the number of headers, if no number has been given. */
  lemma EntryGroup(os: seq<Opt>, cluster: Option<Cluster>, owner: nat, i: nat) returns (o: nat)
    requires Headed(os) && i < |NodeItems(os, 0, cluster, owner)|
    ensures var it := NodeItems(os, 0, cluster, owner)[i];
            && o + |it.opts| <= |os| && it.opts == os[o..o + |it.opts|] && it.opts != [] && !os[o].alias
            && (NoneNumbered(os, o) ==> it.group == |Headers(os, 0, o + 1)|)
            && forall p: nat :: LastNumbered(os, p, o) ==> it.group == os[p].group + |Headers(os, p + 1, o + 1)|
  {
    o := ItemGroups(os, 0, cluster, owner, i);
    GroupCounts(os, o, 0);
  }

  /** The cluster for the child at index ix, itself at preorder position at: a
      new one if the child has a group or a header, else its parent's. */
  function ChildCluster(c: Child, ix: nat, at: nat, cluster: Option<Cluster>, owner: nat): Option<Cluster> {
    if c.group != 0 || c.header.Some? then
      Some(Cluster(at, c.header, ix, c.group, cluster,
                   if cluster.Some? then cluster.value.depth + 1 else 0, owner))
    else
      cluster
  }

  function TreeItems(a: Argp, at: nat, cluster: Option<Cluster>): seq<Item>
    decreases a, 1
  {
    NodeItems(a.Opts(), 0, cluster, at) + KidItems(a.children, 0, at + 1, cluster, at)
  }

  function KidItems(cs: seq<Child>, ix: nat, at: nat, cluster: Option<Cluster>, owner: nat): seq<Item>
    decreases cs, 0
  {
    if cs == [] then []
    else
      TreeItems(First(cs), at, ChildCluster(cs[0], ix, at, cluster, owner))
      + KidItems(cs[1..], ix + 1, at + Size(First(cs)), cluster, owner)
  }

  /** The item shows a visible long option of this name. */
  predicate HasLong(it: Item, name: CString) {
    exists j :: 0 <= j < |it.opts| && it.opts[j].name == Some(name) && !it.opts[j].hidden
  }

  /** The first item with a visible long option NAME moved to GROUP. */
  function Regrouped(items: seq<Item>, name: CString, group: int): (r: seq<Item>)
    ensures |r| == |items|
  {
    if items == [] then []
    else if HasLong(items[0], name) then [items[0].(group := group)] + items[1..]
    else [items[0]] + Regrouped(items[1..], name, group)
  }

  /** The list that _help sorts and prints. */
  function HelpItems(a: Argp): seq<Item> {
    Regrouped(Regrouped(TreeItems(a, 0, None), "help", -1), "version", -1)
  }

  lemma {:induction false} RegroupedAt(items: seq<Item>, name: CString, group: int, i: nat)
    requires i < |items|
    ensures Regrouped(items, name, group)[i]
            == if HasLong(items[i], name) && forall k :: 0 <= k < i ==> !HasLong(items[k], name)
               then items[i].(group := group) else items[i]
  {
    if i > 0 && !HasLong(items[0], name) {
      RegroupedAt(items[1..], name, group, i - 1);
      assert forall k :: 1 <= k < i ==> items[k] == items[1..][k - 1];
    }
  }

  /** In the list of _help the first entry that shows --help and the first that
      shows --version are in group -1, all others where their options have put
      them. */
  lemma HelpGroups(a: Argp, i: nat)
    requires i < |HelpItems(a)|
    ensures var items := TreeItems(a, 0, None);
            && HelpItems(a)[i].opts == items[i].opts && HelpItems(a)[i].cluster == items[i].cluster
            && HelpItems(a)[i].group == if FirstShows(items, "help", i) || FirstShows(items, "version", i) then -1
                                        else items[i].group
  {
    hide TreeItems;
    var items := TreeItems(a, 0, None);
    var once := Regrouped(items, "help", -1);
    RegroupedAt(items, "help", -1, i);
    RegroupedAt(once, "version", -1, i);
    hide Regrouped;
    forall k | 0 <= k <= i
      ensures once[k].opts == items[k].opts && (HasLong(once[k], "version") <==> HasLong(items[k], "version"))
    {
      RegroupedAt(items, "help", -1, k);
    }
    hide HasLong, FirstShows;
    FirstHasLong(items, "help", i);
    FirstHasLong(items, "version", i);
  }

  lemma FirstHasLong(items: seq<Item>, name: CString, i: nat)
    requires i < |items|
    ensures FirstShows(items, name, i)
            <==> HasLong(items[i], name) && forall k :: 0 <= k < i ==> !HasLong(items[k], name)
  {}

  /** Item i is the first that has a visible long option of this name. */
  ghost predicate FirstShows(items: seq<Item>, name: CString, i: nat)
    requires i < |items|
  {
    && (exists j :: 0 <= j < |items[i].opts| && items[i].opts[j].name == Some(name) && !items[i].opts[j].hidden)
    && forall k, j :: 0 <= k < i && 0 <= j < |items[k].opts| ==>
         items[k].opts[j].name != Some(name) || items[k].opts[j].hidden
  }

  /** Items that differ in their groups only. */
  predicate SameButGroups(a: seq<Item>, b: seq<Item>) {
    |a| == |b| && forall i :: 0 <= i < |a| ==> a[i] == b[i].(group := a[i].group)
  }

  lemma HelpItemsSame(a: Argp)
    ensures SameButGroups(HelpItems(a), TreeItems(a, 0, None))
  {
    var items := TreeItems(a, 0, None);
    var once := Regrouped(items, "help", -1);
    forall i | 0 <= i < |items|
      ensures HelpItems(a)[i] == items[i].(group := HelpItems(a)[i].group)
    {
      RegroupedAt(items, "help", -1, i);
      RegroupedAt(once, "version", -1, i);
    }
  }

  /** Groups do not matter to what a list declares. */
  lemma {:induction false} GroupsDoNotDeclare(a: seq<Item>, b: seq<Item>)
    requires SameButGroups(a, b)
    ensures OptsOf(a) == OptsOf(b) && ListOccs(a) == ListOccs(b)
  {
    OptsAreOccs(a);
    OptsAreOccs(b);
    if a != [] {
      GroupsDoNotDeclare(a[1..], b[1..]);
      assert ItemOccs(a[0]) == ItemOccs(b[0]);
    }
  }

  /** The number of options that start an item. */
  function Heads(os: seq<Opt>): nat {
    if os == [] then 0 else Heads(os[..|os| - 1]) + if os[|os| - 1].alias then 0 else 1
  }

  function Shorts(os: seq<Opt>): nat {
    if os == [] then 0 else Shorts(os[..|os| - 1]) + if IsShort(os[|os| - 1]) then 1 else 0
  }

  lemma {:induction false} HeadsConcat(a: seq<Opt>, b: seq<Opt>)
    ensures Heads(a + b) == Heads(a) + Heads(b)
  {
    if b == [] {
      ConcatEmpty(a);
    } else {
      HeadsConcat(a, b[..|b| - 1]);
      ConcatLast(a, b);
    }
  }

  lemma {:induction false} ShortsPrefix(os: seq<Opt>, n: nat)
    requires n <= |os|
    ensures Shorts(os[..n]) <= Shorts(os)
  {
    if n < |os| {
      assert os[..|os| - 1][..n] == os[..n];
      ShortsPrefix(os[..|os| - 1], n);
    } else {
      assert os[..n] == os;
    }
  }

  lemma {:induction false} AliasRunIs(os: seq<Opt>, n: nat)
    requires n <= |os| && (forall k :: 0 <= k < n ==> os[k].alias) && (n < |os| ==> !os[n].alias)
    ensures AliasRun(os) == n
  {
    if n > 0 {
      AliasRunIs(os[1..], n - 1);
    }
  }

  lemma {:induction false} AliasRunOnly(os: seq<Opt>)
    ensures forall k :: 0 <= k < AliasRun(os) ==> os[k].alias
    ensures AliasRun(os) < |os| ==> !os[AliasRun(os)].alias
    ensures Heads(os[..AliasRun(os)]) == 0
  {
    if os != [] && os[0].alias {
      AliasRunOnly(os[1..]);
      var n := AliasRun(os);
      assert os[..n] == [os[0]] + os[1..][..n - 1];
      HeadsConcat([os[0]], os[1..][..n - 1]);
      assert [os[0]][..0] == [];
    }
  }

  /** The entry count of make_hol's first pass is the number of items. */
  lemma {:induction false} ItemCount(os: seq<Opt>, cur: int, cluster: Option<Cluster>, owner: nat)
    requires Headed(os)
    ensures |NodeItems(os, cur, cluster, owner)| == Heads(os)
    decreases |os|
  {
    if os != [] {
      var n := 1 + AliasRun(os[1..]);
      AliasRunOnly(os[1..]);
      ItemCount(os[n..], GroupAfter(os[0], cur), cluster, owner);
      assert Heads(os) == 1 + Heads(os[n..]) by {
        hide NodeItems, AliasRun;
        var head, run := [os[0]], os[1..][..n - 1];
        assert os == (head + run) + os[n..];
        HeadsConcat(head + run, os[n..]);
        HeadsConcat(head, run);
        assert head[..0] == [] && !os[0].alias;
      }
    }
  }

  lemma {:induction false} DedupShorts(os: seq<Opt>)
    ensures |Dedup(Keys(os))| <= Shorts(os)
  {
    if os != [] {
      var n := |os| - 1;
      DedupShorts(os[..n]);
      assert Keys(os)[..n] == Keys(os[..n]);
    }
  }

  /** The declarations an item stands for. Within an item the option that
      aliases refer to is the first one. */
  function ItemOccs(it: Item): seq<Occ> {
    seq(|it.opts|, j requires 0 <= j < |it.opts| => Occ(it.owner, it.opts[j], it.opts[0]))
  }

  function ListOccs(items: seq<Item>): seq<Occ> {
    if items == [] then []
    else ItemOccs(items[0]) + ListOccs(items[1..])
  }

  lemma {:induction false} ListOccsConcat(a: seq<Item>, b: seq<Item>)
    ensures ListOccs(a + b) == ListOccs(a) + ListOccs(b)
  {
    hide ItemOccs;
    if a == [] {
      ConcatEmpty(b);
      ConcatEmpty(ListOccs(b));
    } else {
      ListOccsConcat(a[1..], b);
      ConcatFirst(a, b);
      ConcatAssoc(ItemOccs(a[0]), ListOccs(a[1..]), ListOccs(b));
    }
  }

  lemma {:induction false} RealInRun(os: seq<Opt>, n: nat, j: nat)
    requires j < n <= |os| && (forall k :: 1 <= k < n ==> os[k].alias)
    ensures RealAt(os, j) == os[0]
  {
    if j > 0 {
      RealInRun(os, n, j - 1);
    }
  }

  lemma {:induction false} RealAfterRun(os: seq<Opt>, n: nat, j: nat)
    requires n <= j < |os| && !os[n].alias
    ensures RealAt(os, j) == RealAt(os[n..], j - n)
  {
    if j > n {
      RealAfterRun(os, n, j - 1);
    }
  }

  lemma {:induction false} NodeItemsOccs(os: seq<Opt>, cur: int, cluster: Option<Cluster>, owner: nat)
    requires Headed(os)
    ensures ListOccs(NodeItems(os, cur, cluster, owner)) == NodeOccs(os, owner)
    decreases |os|
  {
    if os != [] {
      var n := 1 + AliasRun(os[1..]);
      var g := GroupAfter(os[0], cur);
      AliasRunOnly(os[1..]);
      NodeItemsOccs(os[n..], g, cluster, owner);
      NodeOccsOfRun(os, n, Item(os[..n], g, cluster, owner));
    }
  }

  /** A real option and its aliases declare what their entry declares. */
  lemma NodeOccsOfRun(os: seq<Opt>, n: nat, it: Item)
    requires Headed(os) && os != [] && n == 1 + AliasRun(os[1..]) && it.opts == os[..n]
    ensures NodeOccs(os, it.owner) == ItemOccs(it) + NodeOccs(os[n..], it.owner)
  {
    hide RealAt, AliasRun;
    AliasRunOnly(os[1..]);
    forall j | 0 <= j < |os|
      ensures RealAt(os, j) == if j < n then os[0] else RealAt(os[n..], j - n)
    {
      if j < n {
        RealInRun(os, n, j);
      } else {
        RealAfterRun(os, n, j);
      }
    }
  }

  /** The listing declares what the tree declares, in preorder. */
  lemma {:induction false} TreeItemsOccs(a: Argp, at: nat, cluster: Option<Cluster>)
    requires HeadedTree(a)
    ensures ListOccs(TreeItems(a, at, cluster)) == TreeOccs(a, at)
    decreases a, 1
  {
    var own, kids := NodeItems(a.Opts(), 0, cluster, at), KidItems(a.children, 0, at + 1, cluster, at);
    NodeItemsOccs(a.Opts(), 0, cluster, at);
    KidItemsOccs(a.children, 0, at + 1, cluster, at);
    ListOccsConcat(own, kids);
  }

  lemma {:induction false} KidItemsOccs(cs: seq<Child>, ix: nat, at: nat, cluster: Option<Cluster>, owner: nat)
    requires HeadedKids(cs)
    ensures ListOccs(KidItems(cs, ix, at, cluster, owner)) == KidOccs(cs, at)
    decreases cs, 0
  {
    if cs != [] {
      var c := ChildCluster(cs[0], ix, at, cluster, owner);
      TreeItemsOccs(First(cs), at, c);
      KidItemsOccs(cs[1..], ix + 1, at + Size(First(cs)), cluster, owner);
      ListOccsConcat(TreeItems(First(cs), at, c), KidItems(cs[1..], ix + 1, at + Size(First(cs)), cluster, owner));
    }
  }

  function OccOpts(xs: seq<Occ>): (r: seq<Opt>)
    ensures |r| == |xs|
  {
    seq(|xs|, i requires 0 <= i < |xs| => xs[i].opt)
  }

  lemma {:induction false} OptsAreOccs(items: seq<Item>)
    ensures OptsOf(items) == OccOpts(ListOccs(items))
  {
    if items != [] {
      OptsAreOccs(items[1..]);
      assert items == [items[0]] + items[1..];
      OptsOfConcat([items[0]], items[1..]);
      assert [items[0]][..0] == [];
    }
  }

  /** So the short string of a whole tree's HOL is the list of first
      occurrences of its short keys in preorder. */
  lemma TreeCode(a: Argp, es: seq<Entry>, str: seq<int>)
    requires HeadedTree(a) && Items(es) == TreeItems(a, 0, None) && Coded(es, str)
    ensures str == Dedup(Keys(OccOpts(TreeOccs(a, 0))))
  {
    TreeItemsOccs(a, 0, None);
    OptsAreOccs(Items(es));
  }
}
