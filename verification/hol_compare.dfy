/** What decides hol_entry_cmp, read off the options and the clusters.

    HolOrder proves that the comparator is an order. Which order it is, is
    stated here in terms of what a user of argp writes: the groups of the
    outermost clusters, the groups, whether an entry is documentation, and the
    first visible names. */
module HolCompare {
  import opened Wrappers
  import opened ArgpTree
  import opened HolCode
  import opened LexOrder
  import opened HolOrder
  import opened HolListing

  const White: string := [' ', '\t', '\n', '\U{0B}', '\U{0C}', '\r']

  // ---- characters ----

  /** One letter, in either case. */
  predicate SameLetter(a: int, b: int) {
    ('A' as int <= a <= 'Z' as int && b - 'a' as int == a - 'A' as int)
    || ('A' as int <= b <= 'Z' as int && a - 'a' as int == b - 'A' as int)
  }

  predicate LetterOrDigit(c: char) {
    c in "0123456789" || 'a' <= c <= 'z' || 'A' <= c <= 'Z'
  }

  /** Letters are compared by their small forms and all else as it is. */
  lemma LowerIs(a: int, b: int)
    ensures Lower(a) == Lower(b) <==> a == b || SameLetter(a, b)
    ensures Lower(a) == a || SameLetter(a, Lower(a))
    ensures !('A' as int <= Lower(a) <= 'Z' as int)
  {}

  lemma WhiteIs(c: char)
    ensures IsSpace(c) <==> c in White
  {
    var codes := [32, 9, 10, 11, 12, 13];
    assert forall i :: 0 <= i < 6 ==> White[i] as int == codes[i];
    if '\t' <= c <= '\r' {
      assert White[c as int - 8] == c;
    } else if c == ' ' {
      assert White[0] == c;
    }
  }

  lemma AlnumIs(c: char)
    ensures IsAlnum(c) <==> LetterOrDigit(c)
  {
    if '0' <= c <= '9' {
      assert "0123456789"[c as int - 48] == c;
    }
  }

  // ---- what an entry shows ----

  /** Option j is the first visible one with a name, if there is one. */
  ghost predicate FirstNamed(opts: seq<Opt>, j: nat) {
    && j <= |opts|
    && (forall k :: 0 <= k < j ==> opts[k].name.None? || opts[k].hidden)
    && (j < |opts| ==> opts[j].name.Some? && !opts[j].hidden)
  }

  /** Option j is the first visible one that owns a short key, if there is one. */
  ghost predicate FirstOwned(e: Entry, str: seq<int>, j: nat) {
    && j <= |e.item.opts|
    && (forall k :: 0 <= k < j ==> !Owns(e.item.opts, str, e.so, k) || e.item.opts[k].hidden)
    && (j < |e.item.opts| ==> Owns(e.item.opts, str, e.so, j) && !e.item.opts[j].hidden)
  }

  /** The white space at the front of a name ends at p, and its first letter or
      digit from there on is at q. */
  ghost predicate TailAt(name: CString, p: nat, q: nat) {
    && p <= q <= |name|
    && (forall k :: 0 <= k < p ==> name[k] in White)
    && (p < |name| ==> name[p] !in White)
    && (forall k :: p <= k < q ==> !LetterOrDigit(name[k]))
    && (q < |name| ==> LetterOrDigit(name[q]))
  }

  /** What decides between entries of one group: whether the entry is
      documentation that does not look like an option, its first visible short
      key or 0, and the name or tail of a name to compare by. */
  datatype View = View(prose: bool, short: int, name: Option<CString>)

  /** A view of an entry, by where in its options and in its name things
      stand. */
  ghost predicate Sees(e: Entry, str: seq<int>, v: View)
    requires WfEntry(e)
  {
    var opts := e.item.opts;
    && (exists i: nat :: FirstOwned(e, str, i) && v.short == if i < |opts| then opts[i].key else 0)
    && exists j: nat :: FirstNamed(opts, j) && NameSeen(opts, j, v)
  }

  ghost predicate NameSeen(opts: seq<Opt>, j: nat, v: View)
    requires opts != [] && FirstNamed(opts, j)
  {
    if j == |opts| then !v.prose && v.name.None?
    else if !opts[0].doc then !v.prose && v.name == opts[j].name
    else
      exists p: nat, q: nat :: TailAt(opts[j].name.value, p, q) && TailSeen(opts[j].name.value, p, q, v)
  }

  ghost predicate TailSeen(name: CString, p: nat, q: nat, v: View)
    requires TailAt(name, p, q)
  {
    (v.prose <==> p == |name| || name[p] != '-') && v.name == Some(name[q..])
  }

  /** The first character: of the short key, or else of the name. */
  function Initial(v: View): int {
    if v.short != 0 then v.short
    else if v.name.Some? && v.name.value != [] then v.name.value[0] as int
    else 0
  }

  lemma {:induction false} FirstLongIs(opts: seq<Opt>) returns (j: nat)
    ensures FirstNamed(opts, j)
    ensures FirstLong(opts) == if j < |opts| then opts[j].name else None
  {
    if opts == [] || (opts[0].name.Some? && !opts[0].hidden) {
      j := 0;
    } else {
      var rest := FirstLongIs(opts[1..]);
      j := rest + 1;
      assert forall k :: 1 <= k < j ==> opts[k] == opts[1..][k - 1];
    }
  }

  lemma {:induction false} FirstShortIs(e: Entry, str: seq<int>, from: nat) returns (j: nat)
    requires from <= |e.item.opts|
    requires forall k :: 0 <= k < from ==> !Owns(e.item.opts, str, e.so, k) || e.item.opts[k].hidden
    ensures FirstOwned(e, str, j)
    ensures FirstShort(e.item.opts, str, e.so, from) == if j < |e.item.opts| then e.item.opts[j].key else 0
    decreases |e.item.opts| - from
  {
    hide Owns;
    if from == |e.item.opts| || (Owns(e.item.opts, str, e.so, from) && !e.item.opts[from].hidden) {
      j := from;
    } else {
      j := FirstShortIs(e, str, from + 1);
    }
  }

  lemma {:induction false} SkipSpaceIs(s: CString) returns (p: nat)
    ensures p <= |s| && SkipSpace(s) == s[p..]
    ensures (forall k :: 0 <= k < p ==> s[k] in White) && (p < |s| ==> s[p] !in White)
  {
    if s != [] && IsSpace(s[0]) {
      WhiteIs(s[0]);
      var rest := SkipSpaceIs(s[1..]);
      p := rest + 1;
      assert s[1..][rest..] == s[p..] && forall k :: 1 <= k < p ==> s[k] == s[1..][k - 1];
    } else {
      p := 0;
      if s != [] {
        WhiteIs(s[0]);
      }
    }
  }

  lemma {:induction false} SkipToAlnumIs(s: CString) returns (q: nat)
    ensures q <= |s| && SkipToAlnum(s) == s[q..]
    ensures forall k :: 0 <= k < q ==> !LetterOrDigit(s[k])
    ensures q < |s| ==> LetterOrDigit(s[q])
  {
    if s != [] && !IsAlnum(s[0]) {
      AlnumIs(s[0]);
      var rest := SkipToAlnumIs(s[1..]);
      q := rest + 1;
      assert s[1..][rest..] == s[q..] && forall k :: 1 <= k < q ==> s[k] == s[1..][k - 1];
    } else {
      q := 0;
      if s != [] {
        AlnumIs(s[0]);
      }
    }
  }

  lemma CanonDocIs(name: CString) returns (p: nat, q: nat)
    ensures TailAt(name, p, q)
    ensures CanonDoc(name) == (name[q..], p == |name| || name[p] != '-')
  {
    hide White, LetterOrDigit;
    p := SkipSpaceIs(name);
    var more := SkipToAlnumIs(name[p..]);
    q := p + more;
    assert name[p..][more..] == name[q..];
    assert forall k :: p <= k < |name| ==> name[k] == name[p..][k - p];
  }

  lemma TailUnique(name: CString, p: nat, q: nat, p': nat, q': nat)
    requires TailAt(name, p, q) && TailAt(name, p', q')
    ensures p == p' && q == q'
  {
    hide White, LetterOrDigit;
  }

  /** The comparator reads an entry as that view, and there is no other one. */
  lemma NamesAreSeen(e: Entry, str: seq<int>, v: View)
    requires WfEntry(e)
    ensures Sees(e, str, v) <==> NamesOf(e, str) == Names(if v.prose then 1 else 0, v.short, v.name)
  {
    hide FirstLong, FirstShort, CanonDoc, TailAt, Owns, WfCluster;
    var opts := e.item.opts;
    var i := FirstShortIs(e, str, 0);
    var j := FirstLongIs(opts);
    forall i': nat | FirstOwned(e, str, i')
      ensures i' == i
    {}
    forall j': nat | FirstNamed(opts, j')
      ensures j' == j
    {}
    hide FirstOwned;
    if j < |opts| && opts[0].doc {
      var name := opts[j].name.value;
      var p, q := CanonDocIs(name);
      forall p': nat, q': nat | TailAt(name, p', q')
        ensures p' == p && q' == q
      {
        TailUnique(name, p, q, p', q');
      }
      hide FirstNamed;
      assert NameSeen(opts, j, v) <==> TailSeen(name, p, q, v);
    }
  }

  // ---- what decides ----

  /** The order 0, 1, 2, ..., n, -m, ..., -2, -1 of groups. */
  predicate Before(g: int, h: int) {
    (0 <= g < h) || (h < 0 <= g) || (g < h < 0)
  }

  lemma GroupCmpIs(g: int, h: int)
    ensures GroupCmp(g, h) < 0 <==> Before(g, h)
    ensures GroupCmp(g, h) > 0 <==> Before(h, g)
    ensures GroupCmp(g, h) == 0 <==> g == h
  {}

  /** The group of the outermost cluster around an entry, or the entry's own
      group if there is none. */
  ghost predicate OuterGroup(e: Entry, g: int) {
    if e.item.cluster.None? then g == e.item.group
    else exists root :: IsChild(e.item.cluster, root) && root.parent.None? && root.group == g
  }

  lemma {:induction false} BaseIs(c: Cluster)
    ensures IsChild(Some(c), Base(c)) && Base(c).parent.None?
    ensures forall root :: IsChild(Some(c), root) && root.parent.None? ==> root == Base(c)
    decreases c
  {
    if c.parent.Some? {
      BaseIs(c.parent.value);
    }
  }

  lemma BaseGroupIs(e: Entry, g: int)
    ensures OuterGroup(e, g) <==> g == BaseGroup(e)
  {
    hide Base, IsChild;
    if e.item.cluster.Some? {
      BaseIs(e.item.cluster.value);
    }
  }

  lemma ClusterCmpSelf(c: Cluster)
    requires WfCluster(c)
    ensures ClusterCmp(c, c) == 0
  {
    CousinCmpIsLex(c, c);
    LexZero(PathKey(c), PathKey(c));
  }

  /** First the groups of the outermost clusters decide, then entries outside
      all clusters go first, and within one cluster the groups decide. */
  lemma PlacesDecide(e1: Entry, e2: Entry, str: seq<int>, g1: int, g2: int)
    requires WfEntry(e1) && WfEntry(e2) && OuterGroup(e1, g1) && OuterGroup(e2, g2)
    ensures g1 != g2 ==> (EntryCmp(e1, e2, str) < 0 <==> Before(g1, g2)) && EntryCmp(e1, e2, str) != 0
    ensures g1 == g2 && e1.item.cluster.None? && e2.item.cluster.Some? ==> EntryCmp(e1, e2, str) < 0
    ensures g1 == g2 && e1.item.cluster.Some? && e2.item.cluster.None? ==> EntryCmp(e1, e2, str) > 0
    ensures e1.item.cluster == e2.item.cluster && e1.item.group != e2.item.group ==>
              (EntryCmp(e1, e2, str) < 0 <==> Before(e1.item.group, e2.item.group)) && EntryCmp(e1, e2, str) != 0
  {
    hide OuterGroup, BaseGroup, ClusterCmp, NamesCmp, NamesOf, GroupCmp, Before, WfCluster;
    BaseGroupIs(e1, g1);
    BaseGroupIs(e2, g2);
    GroupCmpIs(g1, g2);
    GroupCmpIs(e1.item.group, e2.item.group);
    if e1.item.cluster == e2.item.cluster {
      SameBase(e1, e2);
      if e1.item.cluster.Some? {
        ClusterCmpSelf(e1.item.cluster.value);
      }
    }
  }

  lemma SameBase(e1: Entry, e2: Entry)
    requires e1.item.cluster == e2.item.cluster
    ensures BaseGroup(e1) == BaseGroup(e2) || (BaseGroup(e1) == e1.item.group && BaseGroup(e2) == e2.item.group)
  {}

  /** Of two clusters within the same one, the group decides, and then the one
      of the later child goes first. */
  lemma SiblingsDecide(e1: Entry, e2: Entry, str: seq<int>)
    requires WfEntry(e1) && WfEntry(e2) && e1.item.cluster.Some? && e2.item.cluster.Some?
    requires e1.item.cluster.value.parent == e2.item.cluster.value.parent
    ensures var c1, c2 := e1.item.cluster.value, e2.item.cluster.value;
            Before(c1.group, c2.group) || (c1.group == c2.group && c1.index > c2.index) ==> EntryCmp(e1, e2, str) < 0
  {
    hide NamesCmp, NamesOf, GroupCmp, Before;
    var c1, c2 := e1.item.cluster.value, e2.item.cluster.value;
    GroupCmpIs(c1.group, c2.group);
    GroupCmpIs(BaseGroup(e1), BaseGroup(e2));
  }

  /** Entries of one group and cluster. Documentation that does not look like an
      option follows all else. Then the first characters decide, whatever their
      case, and then the small letter goes first; then an entry without a short
      option; and of entries without one, those without a name go first and the
      others by their names, whatever the case. */
  lemma NamesDecide(e1: Entry, e2: Entry, str: seq<int>, v1: View, v2: View)
    requires WfEntry(e1) && WfEntry(e2) && Sees(e1, str, v1) && Sees(e2, str, v2)
    requires e1.item.cluster == e2.item.cluster && e1.item.group == e2.item.group
    ensures var cmp := EntryCmp(e1, e2, str);
            && (v1.prose && !v2.prose ==> cmp > 0)
            && (v1.prose == v2.prose ==>
                  var a, b := Initial(v1), Initial(v2);
                  && (Lower(a) < Lower(b) ==> cmp < 0)
                  && (Lower(a) == Lower(b) && a > b ==> cmp < 0)
                  && (a == b && v1.short == 0 && v2.short != 0 ==> cmp < 0)
                  && (a == b && v1.short != 0 && v2.short != 0 ==> cmp == 0)
                  && (a == b && v1.short == 0 && v2.short == 0 ==>
                        Sign(cmp) == if v1.name.Some? && v2.name.Some?
                                     then LexCmp(LowerAll(v1.name.value), LowerAll(v2.name.value))
                                     else Flag(v1.name.Some?) - Flag(v2.name.Some?)))
  {
    hide Sees, NamesOf, ClusterCmp, Base, WfCluster, Lower, StrCaseCmp, LowerAll;
    NamesAreSeen(e1, str, v1);
    NamesAreSeen(e2, str, v2);
    if e1.item.cluster.Some? {
      ClusterCmpSelf(e1.item.cluster.value);
    }
    if v1.name.Some? && v2.name.Some? {
      StrCaseCmpIsLex(v1.name.value, v2.name.value);
    }
  }

  lemma {:induction false} LowerAllAt(s: CString)
    ensures |LowerAll(s)| == |s| && forall i :: 0 <= i < |s| ==> LowerAll(s)[i] == Lower(s[i] as int)
  {
    if s != [] {
      LowerAllAt(s[1..]);
      assert forall i :: 1 <= i < |s| ==> s[i] == s[1..][i - 1];
    }
  }
}
