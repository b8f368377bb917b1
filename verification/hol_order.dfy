/** The order of entries in a help listing: group_cmp to hol_entry_cmp.

    The comparator decides level by level, walking two chains of clusters on
    the way. It is proved to agree, for all entries, with the lexicographic
    order of one sequence of integers computed from each entry alone; that it
    is a total preorder, as its comment promises, follows. */
module HolOrder {
  import opened Wrappers
  import opened ArgpTree
  import opened HolCode
  import opened LexOrder
  import opened Sequences

  // ---- clusters ----

  /** Every cluster's depth is its distance from the root, as hol_add_cluster
      sets it. */
  predicate WfCluster(c: Cluster) {
    match c.parent
    case None => c.depth == 0
    case Some(p) => c.depth == p.depth + 1 && WfCluster(p)
  }

  function GroupCmp(group1: int, group2: int): int {
    if (group1 < 0 && group2 < 0) || (group1 >= 0 && group2 >= 0) then group1 - group2
    else group2 - group1
  }

  function SiblingCmp(cl1: Cluster, cl2: Cluster): int {
    var cmp := GroupCmp(cl1.group, cl2.group);
    if cmp != 0 then cmp else cl2.index - cl1.index
  }

  function CousinCmp(cl1: Cluster, cl2: Cluster): int
    requires WfCluster(cl1) && WfCluster(cl2) && cl1.depth == cl2.depth
    decreases cl1
  {
    if cl1.parent == cl2.parent then SiblingCmp(cl1, cl2)
    else
      var cmp := CousinCmp(cl1.parent.value, cl2.parent.value);
      if cmp != 0 then cmp
      else
        var cmp := GroupCmp(cl1.group, cl2.group);
        if cmp != 0 then cmp else cl2.index - cl1.index
  }

  /** The ancestor at depth d, reached by the levelling loops. */
  function Raise(c: Cluster, d: nat): (r: Cluster)
    requires WfCluster(c) && d <= c.depth
    ensures WfCluster(r) && r.depth == d
    decreases c
  {
    if c.depth == d then c else Raise(c.parent.value, d)
  }

  function ClusterCmp(cl1: Cluster, cl2: Cluster): int
    requires WfCluster(cl1) && WfCluster(cl2)
  {
    if cl1.depth > cl2.depth then
      var cmp := CousinCmp(Raise(cl1, cl2.depth), cl2);
      if cmp != 0 then cmp else 1
    else if cl1.depth < cl2.depth then
      var cmp := CousinCmp(cl1, Raise(cl2, cl1.depth));
      if cmp != 0 then cmp else -1
    else
      CousinCmp(cl1, cl2)
  }

  function Base(c: Cluster): Cluster {
    if c.parent.None? then c else Base(c.parent.value)
  }

  /** A group's place in the order 0, 1, ..., n, -m, ..., -1. */
  function GroupKey(g: int): (r: seq<int>)
    ensures |r| == 2
  {
    [if g < 0 then 1 else 0, g]
  }

  /** One level of a chain of clusters: a 1 for there being one, the group, and
      the index, higher indices first. */
  function LevelKey(c: Cluster): (r: seq<int>)
    ensures |r| == 4 && r[0] == 1
  {
    [1] + GroupKey(c.group) + [-c.index]
  }

  /** The chain from the root to a cluster. */
  function PathKey(c: Cluster): (r: seq<int>)
    requires WfCluster(c)
    ensures |r| == 4 * (c.depth + 1)
  {
    (if c.parent.None? then [] else PathKey(c.parent.value)) + LevelKey(c)
  }

  lemma GroupCmpIsLex(g: int, h: int)
    ensures Sign(GroupCmp(g, h)) == LexCmp(GroupKey(g), GroupKey(h))
  {
    var s, t := if g < 0 then 1 else 0, if h < 0 then 1 else 0;
    assert GroupKey(g) == [s] + [g] && GroupKey(h) == [t] + [h];
    LexHead(s, t, [g], [h]);
    LexOne(g, h);
  }

  lemma SiblingCmpIsLex(a: Cluster, b: Cluster)
    ensures Sign(SiblingCmp(a, b)) == LexCmp(LevelKey(a), LevelKey(b))
  {
    var x, y := GroupKey(a.group) + [-a.index], GroupKey(b.group) + [-b.index];
    assert LevelKey(a) == [1] + x && LevelKey(b) == [1] + y;
    LexHead(1, 1, x, y);
    LexConcat(GroupKey(a.group), GroupKey(b.group), [-a.index], [-b.index]);
    GroupCmpIsLex(a.group, b.group);
    LexOne(-a.index, -b.index);
  }

  /** The shortcut for clusters with the same parent decides as the full
      comparison of the two chains would. */
  lemma {:induction false} CousinCmpIsLex(a: Cluster, b: Cluster)
    requires WfCluster(a) && WfCluster(b) && a.depth == b.depth
    ensures Sign(CousinCmp(a, b)) == LexCmp(PathKey(a), PathKey(b))
    decreases a
  {
    var pa := if a.parent.None? then [] else PathKey(a.parent.value);
    var pb := if b.parent.None? then [] else PathKey(b.parent.value);
    var la, lb := LevelKey(a), LevelKey(b);
    assert PathKey(a) == pa + la && PathKey(b) == pb + lb;
    LexConcat(pa, pb, la, lb);
    SiblingCmpIsLex(a, b);
    if a.parent == b.parent {
      LexZero(pa, pb);
    } else {
      CousinCmpIsLex(a.parent.value, b.parent.value);
    }
  }

  lemma {:induction false} RaisedPath(c: Cluster, d: nat) returns (rest: seq<int>)
    requires WfCluster(c) && d <= c.depth
    ensures PathKey(c) == PathKey(Raise(c, d)) + rest
    ensures if d < c.depth then rest != [] && rest[0] == 1 else rest == []
    decreases c
  {
    hide LevelKey;
    if d == c.depth {
      rest := [];
      ConcatEmpty(PathKey(c));
    } else {
      var front := RaisedPath(c.parent.value, d);
      rest := front + LevelKey(c);
      ConcatAssoc(PathKey(Raise(c, d)), front, LevelKey(c));
    }
  }

  /** hol_cluster_cmp, whatever the depths: the order of the chains, a shorter
      prefix first. X and Y stand for whatever is compared next; the 0 marks
      the end of a chain. */
  lemma ClusterCmpIsLex(a: Cluster, b: Cluster, x: seq<int>, y: seq<int>)
    requires WfCluster(a) && WfCluster(b)
    ensures LexCmp(PathKey(a) + [0] + x, PathKey(b) + [0] + y)
            == if ClusterCmp(a, b) != 0 then Sign(ClusterCmp(a, b)) else LexCmp(x, y)
  {
    hide PathKey, Raise, CousinCmp;
    if a.depth > b.depth {
      var r := Raise(a, b.depth);
      var rest := RaisedPath(a, b.depth);
      CousinCmpIsLex(r, b);
      LongerPath(PathKey(r), rest, PathKey(b), x, y);
    } else if a.depth < b.depth {
      var r := Raise(b, a.depth);
      var rest := RaisedPath(b, a.depth);
      CousinCmpIsLex(a, r);
      LongerPath(PathKey(r), rest, PathKey(a), y, x);
      LexAntisymmetric(PathKey(r), PathKey(a));
      LexAntisymmetric(PathKey(b) + [0] + y, PathKey(a) + [0] + x);
    } else {
      LexConcat(PathKey(a) + [0], PathKey(b) + [0], x, y);
      LexConcat(PathKey(a), PathKey(b), [0], [0]);
      LexZero([0], [0]);
      CousinCmpIsLex(a, b);
    }
  }

  /** A path that goes on where another one of the same length ends. */
  lemma LongerPath(p: seq<int>, rest: seq<int>, q: seq<int>, x: seq<int>, y: seq<int>)
    requires |p| == |q| && rest != [] && rest[0] == 1
    ensures LexCmp((p + rest) + [0] + x, q + [0] + y) == if LexCmp(p, q) != 0 then LexCmp(p, q) else 1
  {
    assert (p + rest) + [0] + x == p + (rest + [0] + x) && q + [0] + y == q + ([0] + y);
    LexConcat(p, q, rest + [0] + x, [0] + y);
  }

  // ---- names ----

  function Lower(c: int): int {
    if 'A' as int <= c <= 'Z' as int then c + 32 else c
  }

  predicate IsSpace(c: char) {
    c == ' ' || '\t' <= c <= '\r'
  }

  predicate IsAlnum(c: char) {
    '0' <= c <= '9' || 'A' <= c <= 'Z' || 'a' <= c <= 'z'
  }

  function SkipSpace(s: CString): CString {
    if s != [] && IsSpace(s[0]) then SkipSpace(s[1..]) else s
  }

  function SkipToAlnum(s: CString): CString {
    if s != [] && !IsAlnum(s[0]) then SkipToAlnum(s[1..]) else s
  }

  /** canon_doc_option: the tail to compare by, and whether the name does not
      look like an option. */
  function CanonDoc(name: CString): (CString, bool) {
    var s := SkipSpace(name);
    (SkipToAlnum(s), s == [] || s[0] != '-')
  }

  /** strcasecmp: the difference of the first two characters that differ, the
      end of a string counting as a NUL. */
  function StrCaseCmp(a: CString, b: CString): int {
    var x := if a == [] then 0 else Lower(a[0] as int);
    var y := if b == [] then 0 else Lower(b[0] as int);
    if x != y || a == [] || b == [] then x - y else StrCaseCmp(a[1..], b[1..])
  }

  function LowerAll(s: CString): seq<int> {
    if s == [] then [] else [Lower(s[0] as int)] + LowerAll(s[1..])
  }

  lemma {:induction false} StrCaseCmpIsLex(a: CString, b: CString)
    ensures Sign(StrCaseCmp(a, b)) == LexCmp(LowerAll(a), LowerAll(b))
  {
    if a != [] && b != [] {
      StrCaseCmpIsLex(a[1..], b[1..]);
      assert LowerAll(a)[1..] == LowerAll(a[1..]) && LowerAll(b)[1..] == LowerAll(b[1..]);
    } else if a != [] {
      assert a[0] != '\0';
    } else if b != [] {
      assert b[0] != '\0';
    }
  }

  // ---- entries ----

  function FirstLong(opts: seq<Opt>): Option<CString> {
    if opts == [] then None
    else if opts[0].name.Some? && !opts[0].hidden then opts[0].name
    else FirstLong(opts[1..])
  }

  /** hol_entry_first_short: the first short option from option j on that the
      entry owns and shows, or 0. */
  function FirstShort(opts: seq<Opt>, str: seq<int>, so: nat, j: nat): int
    requires j <= |opts|
    decreases |opts| - j
  {
    if j == |opts| then 0
    else if Owns(opts, str, so, j) && !opts[j].hidden then opts[j].key
    else FirstShort(opts, str, so, j + 1)
  }

  /** What the comparator looks at besides groups and clusters. */
  datatype Names = Names(doc: int, short: int, long: Option<CString>)

  function NamesOf(e: Entry, str: seq<int>): Names
    requires e.item.opts != []
  {
    var long := FirstLong(e.item.opts);
    var short := FirstShort(e.item.opts, str, e.so, 0);
    if e.item.opts[0].doc && long.Some? then
      var (tail, nonOpt) := CanonDoc(long.value);
      Names(if nonOpt then 1 else 0, short, Some(tail))
    else
      Names(0, short, long)
  }

  function FirstChar(n: Names): int {
    if n.short != 0 then n.short
    else if n.long.Some? && n.long.value != [] then n.long.value[0] as int
    else 0
  }

  function Flag(b: bool): int {
    if b then 1 else 0
  }

  function NamesCmp(n1: Names, n2: Names): int {
    var cmp := n1.doc - n2.doc;
    if cmp != 0 then cmp else
    var first1, first2 := FirstChar(n1), FirstChar(n2);
    var cmp := Lower(first1) - Lower(first2);
    if cmp != 0 then cmp else
    var cmp := first2 - first1;
    if cmp != 0 then cmp else
    var cmp := Flag(n1.short != 0) - Flag(n2.short != 0);
    if cmp != 0 then cmp else
    if n1.short != 0 then 0 else
    var cmp := Flag(n1.long.Some?) - Flag(n2.long.Some?);
    if cmp != 0 then cmp else
    if n1.long.Some? then StrCaseCmp(n1.long.value, n2.long.value) else 0
  }

  /** An entry as the comparator meets it: it has an option, and its clusters
      carry their depths. */
  predicate WfEntry(e: Entry) {
    e.item.opts != [] && (e.item.cluster.Some? ==> WfCluster(e.item.cluster.value))
  }

  function BaseGroup(e: Entry): int {
    if e.item.cluster.Some? then Base(e.item.cluster.value).group else e.item.group
  }

  /** hol_entry_cmp, for entries of a list whose short string is STR. */
  function EntryCmp(e1: Entry, e2: Entry, str: seq<int>): int
    requires WfEntry(e1) && WfEntry(e2)
  {
    var cmp := GroupCmp(BaseGroup(e1), BaseGroup(e2));
    if cmp != 0 then cmp else
    var cmp := Flag(e1.item.cluster.Some?) - Flag(e2.item.cluster.Some?);
    if cmp != 0 then cmp else
    var cmp := if e1.item.cluster.Some? then ClusterCmp(e1.item.cluster.value, e2.item.cluster.value) else 0;
    if cmp != 0 then cmp else
    var cmp := GroupCmp(e1.item.group, e2.item.group);
    if cmp != 0 then cmp else
    NamesCmp(NamesOf(e1, str), NamesOf(e2, str))
  }

  function NamesKey(n: Names): seq<int> {
    [n.doc, Lower(FirstChar(n)), -FirstChar(n), Flag(n.short != 0)]
    + if n.short != 0 then [] else [Flag(n.long.Some?)] + if n.long.Some? then LowerAll(n.long.value) else []
  }

  function PlaceKey(cluster: Option<Cluster>): seq<int>
    requires cluster.Some? ==> WfCluster(cluster.value)
  {
    (if cluster.Some? then PathKey(cluster.value) else []) + [0]
  }

  /** One sequence that says where an entry goes. */
  function EntryKey(e: Entry, str: seq<int>): seq<int>
    requires WfEntry(e)
  {
    GroupKey(BaseGroup(e)) + PlaceKey(e.item.cluster) + GroupKey(e.item.group) + NamesKey(NamesOf(e, str))
  }

  lemma NamesCmpIsLex(n1: Names, n2: Names)
    ensures Sign(NamesCmp(n1, n2)) == LexCmp(NamesKey(n1), NamesKey(n2))
  {
    var f1 := [n1.doc, Lower(FirstChar(n1)), -FirstChar(n1), Flag(n1.short != 0)];
    var f2 := [n2.doc, Lower(FirstChar(n2)), -FirstChar(n2), Flag(n2.short != 0)];
    FourCmp(f1, f2);
    var r1 := if n1.short != 0 then []
              else [Flag(n1.long.Some?)] + if n1.long.Some? then LowerAll(n1.long.value) else [];
    var r2 := if n2.short != 0 then []
              else [Flag(n2.long.Some?)] + if n2.long.Some? then LowerAll(n2.long.value) else [];
    LexConcat(f1, f2, r1, r2);
    if n1.short == 0 && n2.short == 0 && n1.long.Some? && n2.long.Some? {
      StrCaseCmpIsLex(n1.long.value, n2.long.value);
      assert r1[1..] == LowerAll(n1.long.value) && r2[1..] == LowerAll(n2.long.value);
    }
  }

  lemma FourCmp(a: seq<int>, b: seq<int>)
    requires |a| == |b| == 4
    ensures LexCmp(a, b) == if a[0] != b[0] then Sign(a[0] - b[0])
                            else if a[1] != b[1] then Sign(a[1] - b[1])
                            else if a[2] != b[2] then Sign(a[2] - b[2])
                            else Sign(a[3] - b[3])
  {
    assert a == [a[0]] + ([a[1]] + ([a[2]] + [a[3]])) && b == [b[0]] + ([b[1]] + ([b[2]] + [b[3]]));
    LexHead(a[0], b[0], [a[1]] + ([a[2]] + [a[3]]), [b[1]] + ([b[2]] + [b[3]]));
    LexHead(a[1], b[1], [a[2]] + [a[3]], [b[2]] + [b[3]]);
    LexHead(a[2], b[2], [a[3]], [b[3]]);
    LexOne(a[3], b[3]);
  }

  /** hol_entry_cmp is the lexicographic order of the entries' keys. */
  lemma EntryCmpIsLex(e1: Entry, e2: Entry, str: seq<int>)
    requires WfEntry(e1) && WfEntry(e2)
    ensures Sign(EntryCmp(e1, e2, str)) == LexCmp(EntryKey(e1, str), EntryKey(e2, str))
  {
    hide LexCmp, NamesCmp, NamesKey, NamesOf, PlaceKey, ClusterCmp;
    var c1, c2 := e1.item.cluster, e2.item.cluster;
    var n1, n2 := NamesKey(NamesOf(e1, str)), NamesKey(NamesOf(e2, str));
    var t1, t2 := GroupKey(e1.item.group) + n1, GroupKey(e2.item.group) + n2;
    var p1, p2 := PlaceKey(c1) + t1, PlaceKey(c2) + t2;
    assert EntryKey(e1, str) == GroupKey(BaseGroup(e1)) + p1;
    assert EntryKey(e2, str) == GroupKey(BaseGroup(e2)) + p2;
    LexConcat(GroupKey(BaseGroup(e1)), GroupKey(BaseGroup(e2)), p1, p2);
    GroupCmpIsLex(BaseGroup(e1), BaseGroup(e2));
    PlaceCmp(c1, c2, t1, t2);
    LexConcat(GroupKey(e1.item.group), GroupKey(e2.item.group), n1, n2);
    GroupCmpIsLex(e1.item.group, e2.item.group);
    NamesCmpIsLex(NamesOf(e1, str), NamesOf(e2, str));
  }

  lemma PlaceCmp(c1: Option<Cluster>, c2: Option<Cluster>, x: seq<int>, y: seq<int>)
    requires c1.Some? ==> WfCluster(c1.value)
    requires c2.Some? ==> WfCluster(c2.value)
    ensures LexCmp(PlaceKey(c1) + x, PlaceKey(c2) + y)
            == if c1.Some? != c2.Some? then Flag(c1.Some?) - Flag(c2.Some?)
               else if c1.Some? && ClusterCmp(c1.value, c2.value) != 0 then Sign(ClusterCmp(c1.value, c2.value))
               else LexCmp(x, y)
  {
    if c1.Some? && c2.Some? {
      ClusterCmpIsLex(c1.value, c2.value, x, y);
    } else if c1.None? && c2.None? {
      LexConcat([0], [0], x, y);
      LexZero([0], [0]);
      assert PlaceKey(c1) == [0];
    } else if c1.Some? {
      PathStarts(c1.value);
    } else {
      PathStarts(c2.value);
    }
  }

  lemma {:induction false} PathStarts(c: Cluster)
    requires WfCluster(c)
    ensures PathKey(c)[0] == 1
  {
    if c.parent.Some? {
      PathStarts(c.parent.value);
    }
  }

  /** What the comment on hol_entry_cmp promises, and what qsort needs: the
      sign is antisymmetric and the four clauses of transitivity hold. */
  lemma EntryCmpIsTotalOrder(e1: Entry, e2: Entry, e3: Entry, str: seq<int>)
    requires WfEntry(e1) && WfEntry(e2) && WfEntry(e3)
    ensures Sign(EntryCmp(e1, e2, str)) == -Sign(EntryCmp(e2, e1, str))
    ensures EntryCmp(e1, e2, str) < 0 && EntryCmp(e2, e3, str) < 0 ==> EntryCmp(e1, e3, str) < 0
    ensures EntryCmp(e1, e2, str) < 0 && EntryCmp(e2, e3, str) == 0 ==> EntryCmp(e1, e3, str) < 0
    ensures EntryCmp(e1, e2, str) == 0 && EntryCmp(e2, e3, str) < 0 ==> EntryCmp(e1, e3, str) < 0
    ensures EntryCmp(e1, e2, str) == 0 && EntryCmp(e2, e3, str) == 0 ==> EntryCmp(e1, e3, str) == 0
  {
    var k1, k2, k3 := EntryKey(e1, str), EntryKey(e2, str), EntryKey(e3, str);
    EntryCmpIsLex(e1, e2, str);
    EntryCmpIsLex(e2, e1, str);
    EntryCmpIsLex(e2, e3, str);
    EntryCmpIsLex(e1, e3, str);
    LexAntisymmetric(k1, k2);
    if LexCmp(k1, k2) <= 0 && LexCmp(k2, k3) <= 0 {
      LexTransitive(k1, k2, k3);
      if LexCmp(k1, k2) == 0 && LexCmp(k2, k3) == 0 {
        LexZero(k1, k2);
        LexZero(k2, k3);
        LexZero(k1, k3);
      }
    }
  }
}
