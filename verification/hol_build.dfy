/** Building a HOL in place: make_hol, hol_append, argp_hol and the readers
    hol_entry_short_iterate and hol_usage. */
module HolBuild {
  import opened Wrappers
  import opened FirstOccurrence
  import opened ArgpTree
  import opened HolCode
  import opened HolSpec
  import opened Sequences

  /** buf holds the NUL-terminated string text. */
  ghost predicate Holds(buf: seq<int>, text: seq<int>) {
    && |text| < |buf|
    && buf[..|text|] == text
    && buf[|text|] == 0
    && 0 !in text
  }

  lemma NoNul(os: seq<Opt>)
    ensures 0 !in Dedup(Keys(os))
  {
    if 0 in Dedup(Keys(os)) {
      DedupMembers(Keys(os), 0);
    }
  }

  method StrLen(buf: array<int>, ghost text: seq<int>) returns (n: nat)
    requires Holds(buf[..], text)
    ensures n == |text|
  {
    n := 0;
    while buf[n] != 0
      invariant n <= |text|
      decreases |text| - n
    {
      assert buf[..][n] == buf[n];
      n := n + 1;
    }
  }

  method FindChar(ch: int, buf: array<int>, beg: nat, end: nat) returns (found: bool)
    requires beg <= end <= buf.Length
    ensures found <==> ch in buf[beg..end]
  {
    var p := beg;
    while p < end
      invariant beg <= p <= end
      invariant ch !in buf[beg..p]
    {
      if buf[p] == ch {
        assert buf[beg..end][p - beg] == ch;
        return true;
      }
      p := p + 1;
    }
    return false;
  }

  /** One turn of make_hol's inner loop: store the key of option k at so unless
      it is there already. */
  method AddKey(os: seq<Opt>, k: nat, buf: array<int>, so: nat) returns (so': nat)
    requires k < |os| && so < buf.Length
    requires buf[..so] == Dedup(Keys(os)[..k])
    modifies buf
    ensures so <= so' <= so + 1 && so' <= buf.Length
    ensures buf[..so'] == Dedup(Keys(os)[..k + 1])
  {
    ghost var keys := Keys(os);
    so' := so;
    DedupStep(keys, k);
    if IsShort(os[k]) {
      DedupMembers(keys[..k], os[k].key);
      assert buf[0..so] == buf[..so];
      var dup := FindChar(os[k].key, buf, 0, so);
      if !dup {
        buf[so] := os[k].key;
        so' := so + 1;
        assert buf[..so'] == buf[..so] + [os[k].key];
      }
    }
  }

  class Hol {
    var num: nat
    var entries: array<Entry>
    var shorts: array<int>
    /** The contents of shorts; empty while there are no entries. */
    ghost var text: seq<int>

    ghost predicate Valid()
      reads this, entries, shorts
    {
      && num <= entries.Length
      && Coded(entries[..num], text)
      && (num > 0 ==> Holds(shorts[..], text))
    }

    ghost function Listing(): seq<Item>
      reads this, entries
      requires num <= entries.Length
    {
      Items(entries[..num])
    }

    constructor Empty()
      ensures Valid() && Listing() == [] && fresh(entries) && fresh(shorts)
    {
      num := 0;
      entries := new Entry[0];
      shorts := new int[0];
      text := [];
      new;
      assert Keys([]) == [];
    }

    /** hol_append: take over MORE's entries behind this list's own. A short
        option of MORE survives if it survived in MORE and is not declared
        here; every entry's pointer is set anew on the way. */
    method Append(more: Hol)
      requires Valid() && more.Valid() && more != this
      modifies this
      ensures Valid()
      ensures Listing() == old(Listing() + more.Listing())
      ensures entries == old(entries) || entries == more.entries || fresh(entries)
      ensures shorts == old(shorts) || shorts == more.shorts || fresh(shorts)
    {
      if more.num > 0 {
        if num == 0 {
          num, entries, shorts, text := more.num, more.entries, more.shorts, more.text;
        } else {
          var es, buf, end := Merge(this, more);
          num, entries, shorts, text := num + more.num, es, buf, buf[..end];
          assert es[..num] == es[..];
        }
      } else {
        assert more.Listing() == [];
      }
    }

    /** hol_find_entry: the first entry that shows NAME, or num. */
    method FindEntry(name: CString) returns (i: nat)
      requires Valid()
      ensures i <= num && (i < num ==> HasLong(entries[i].item, name))
      ensures forall k :: 0 <= k < i ==> !HasLong(entries[k].item, name)
    {
      i := 0;
      while i < num
        invariant i <= num && forall k :: 0 <= k < i ==> !HasLong(entries[k].item, name)
      {
        var shown := Shows(entries[i].item.opts, name);
        if shown {
          return;
        }
        i := i + 1;
      }
    }

    /** hol_set_group. */
    method SetGroup(name: CString, group: int)
      requires Valid()
      modifies entries
      ensures Valid() && Listing() == Regrouped(old(Listing()), name, group)
    {
      ghost var before, items := entries[..num], Listing();
      var i := FindEntry(name);
      assert i < num ==> HasLong(items[i], name);
      assert forall k :: 0 <= k < i ==> !HasLong(items[k], name) by {
        assert forall k :: 0 <= k < i ==> items[k] == entries[k].item;
      }
      if i < num {
        entries[i] := Entry(entries[i].item.(group := group), entries[i].so);
      }
      ghost var now := Items(entries[..num]);
      forall k | 0 <= k < num
        ensures now[k] == Regrouped(items, name, group)[k]
      {
        RegroupedAt(items, name, group, k);
      }
      RegroupingKeepsCode(before, entries[..num], text);
    }
  }

  method Shows(opts: seq<Opt>, name: CString) returns (shown: bool)
    ensures shown <==> exists j :: 0 <= j < |opts| && opts[j].name == Some(name) && !opts[j].hidden
  {
    for j := 0 to |opts|
      invariant forall k :: 0 <= k < j ==> !(opts[k].name == Some(name) && !opts[k].hidden)
    {
      if opts[j].name == Some(name) && !opts[j].hidden {
        return true;
      }
    }
    return false;
  }

  /** Changing groups leaves a code a code. */
  lemma RegroupingKeepsCode(es: seq<Entry>, fs: seq<Entry>, str: seq<int>)
    requires Coded(es, str) && SameButGroups(Items(fs), Items(es))
    requires forall i :: 0 <= i < |es| ==> |fs| == |es| && fs[i].so == es[i].so
    ensures Coded(fs, str)
  {
    GroupsDoNotDeclare(Items(fs), Items(es));
    forall i | 0 <= i < |fs|
      ensures StartsInPlace(fs, i)
    {
      assert StartsInPlace(es, i);
      GroupsDoNotDeclare(Items(fs)[..i], Items(es)[..i]);
    }
  }

  /** make_hol: the list for the options of one argp alone. */
  method MakeHol(a: Argp, owner: nat, cluster: Option<Cluster>) returns (h: Hol)
    requires Headed(a.Opts())
    ensures fresh(h) && fresh(h.entries) && fresh(h.shorts)
    ensures h.Valid() && h.Listing() == NodeItems(a.Opts(), 0, cluster, owner)
  {
    h := new Hol.Empty();
    if a.options.Some? {
      var os := a.options.value;
      var nEntries, nShorts := CountOptions(os);
      var entries := new Entry[nEntries](_ => Entry(Item([], 0, None, 0), 0));
      var shorts := new int[nShorts + 1];
      var end := Fill(os, owner, cluster, entries, shorts);
      h.num, h.entries, h.shorts, h.text := nEntries, entries, shorts, shorts[..end];
      assert entries[..nEntries] == entries[..];
    }
  }

  /** The space make_hol reserves before it fills anything in. */
  method CountOptions(os: seq<Opt>) returns (nEntries: nat, nShorts: nat)
    ensures nEntries == Heads(os) && nShorts == Shorts(os)
  {
    nEntries, nShorts := 0, 0;
    for k := 0 to |os|
      invariant nEntries == Heads(os[..k]) && nShorts == Shorts(os[..k])
    {
      assert os[..k + 1][..k] == os[..k];
      if !os[k].alias {
        nEntries := nEntries + 1;
      }
      if IsShort(os[k]) {
        nShorts := nShorts + 1;
      }
    }
    assert os[..|os|] == os;
  }

  /** The state of make_hol's outer loop at option o: the entries done and the
      string so far account for the options before o, and what remains to be
      listed are the items of the options from o on. */
  ghost predicate Filled(os: seq<Opt>, o: nat, cur: int, cluster: Option<Cluster>, owner: nat,
                         done: seq<Entry>, text: seq<int>)
    requires o <= |os|
  {
    && Items(done) + NodeItems(os[o..], cur, cluster, owner) == NodeItems(os, 0, cluster, owner)
    && OptsOf(Items(done)) == os[..o]
    && text == Dedup(Keys(os)[..o])
    && Coded(done, text)
  }

  lemma FilledStep(os: seq<Opt>, o: nat, cur: int, cluster: Option<Cluster>, owner: nat,
                   done: seq<Entry>, text: seq<int>, o': nat)
    requires o < |os| && Filled(os, o, cur, cluster, owner, done, text)
    requires o' == o + 1 + AliasRun(os[o..][1..])
    ensures o' <= |os|
    ensures var cur' := GroupAfter(os[o], cur);
            Filled(os, o', cur', cluster, owner,
                   done + [Entry(Item(os[o..o'], cur', cluster, owner), |text|)], Dedup(Keys(os)[..o']))
  {
    var cur' := GroupAfter(os[o], cur);
    var it := Item(os[o..o'], cur', cluster, owner);
    ListedStep(os, o, cur, cluster, owner, Items(done), o');
    CodedStep(os, o, o', done, text, it);
  }

  lemma ListedStep(os: seq<Opt>, o: nat, cur: int, cluster: Option<Cluster>, owner: nat, done: seq<Item>, o': nat)
    requires o < |os| && o' == o + 1 + AliasRun(os[o..][1..])
    ensures o' <= |os|
    ensures var cur' := GroupAfter(os[o], cur);
            done + [Item(os[o..o'], cur', cluster, owner)] + NodeItems(os[o'..], cur', cluster, owner)
            == done + NodeItems(os[o..], cur, cluster, owner)
  {
    var cur' := GroupAfter(os[o], cur);
    var head, tail := [Item(os[o..o'], cur', cluster, owner)], NodeItems(os[o'..], cur', cluster, owner);
    assert NodeItems(os[o..], cur, cluster, owner) == head + tail by {
      assert os[o..][..o' - o] == os[o..o'] && os[o..][o' - o..] == os[o'..];
    }
    hide NodeItems;
    ConcatAssoc(done, head, tail);
  }

  lemma CodedStep(os: seq<Opt>, o: nat, o': nat, done: seq<Entry>, text: seq<int>, it: Item)
    requires o <= o' <= |os| && it.opts == os[o..o']
    requires OptsOf(Items(done)) == os[..o] && Coded(done, text)
    ensures var done' := done + [Entry(it, |text|)];
            && Items(done') == Items(done) + [it]
            && OptsOf(Items(done')) == os[..o']
            && Coded(done', Dedup(Keys(os)[..o']))
  {
    assert Items(done + [Entry(it, |text|)]) == Items(done) + [it];
    OptsOfSnoc(Items(done), it);
    assert os[..o] + os[o..o'] == os[..o'] && Keys(os)[..o'] == Keys(os[..o']);
    CodedSnoc(done, text, Entry(it, |text|));
  }

  method Fill(os: seq<Opt>, owner: nat, cluster: Option<Cluster>, entries: array<Entry>, shorts: array<int>)
      returns (so: nat)
    requires Headed(os)
    requires entries.Length == Heads(os) && shorts.Length == Shorts(os) + 1
    modifies entries, shorts
    ensures Items(entries[..]) == NodeItems(os, 0, cluster, owner)
    ensures so < shorts.Length && Coded(entries[..], shorts[..so]) && Holds(shorts[..], shorts[..so])
  {
    so := 0;
    var o, e, cur := 0, 0, 0;
    ItemCount(os, 0, cluster, owner);
    FillStarts(os, cluster, owner);
    hide Filled, Heads, Shorts, Dedup, Coded, Holds;
    while o < |os|
      invariant o <= |os| && e <= entries.Length && so < shorts.Length
      invariant Filled(os, o, cur, cluster, owner, entries[..e], shorts[..so])
      decreases |os| - o
    {
      o, cur, so := FillEntry(os, owner, cluster, entries, shorts, o, e, cur, so);
      e := e + 1;
    }
    FillEnds(os, cur, cluster, owner, entries[..e], shorts[..so]);
    Terminate(shorts, so, os);
    assert entries[..e] == entries[..];
  }

  lemma FillStarts(os: seq<Opt>, cluster: Option<Cluster>, owner: nat)
    ensures Filled(os, 0, 0, cluster, owner, [], [])
  {
    assert os[0..] == os && Keys([]) == [];
  }

  lemma FillEnds(os: seq<Opt>, cur: int, cluster: Option<Cluster>, owner: nat, done: seq<Entry>, text: seq<int>)
    requires Filled(os, |os|, cur, cluster, owner, done, text)
    ensures Items(done) == NodeItems(os, 0, cluster, owner) && Coded(done, text) && text == Dedup(Keys(os))
  {
    assert os[|os|..] == [] && Keys(os)[..|os|] == Keys(os);
  }

  method Terminate(buf: array<int>, so: nat, ghost os: seq<Opt>)
    requires so < buf.Length && buf[..so] == Dedup(Keys(os))
    modifies buf
    ensures buf[..so] == old(buf[..so]) && Holds(buf[..], buf[..so])
  {
    buf[so] := 0;
    NoNul(os);
    assert buf[..][..so] == buf[..so];
  }

  /** One turn of the outer loop. */
  method FillEntry(os: seq<Opt>, owner: nat, cluster: Option<Cluster>, entries: array<Entry>, shorts: array<int>,
                   o0: nat, e: nat, cur0: int, so0: nat)
      returns (o: nat, cur: int, so: nat)
    requires |NodeItems(os, 0, cluster, owner)| == entries.Length && shorts.Length == Shorts(os) + 1
    requires o0 < |os| && e <= entries.Length && so0 < shorts.Length
    requires Filled(os, o0, cur0, cluster, owner, entries[..e], shorts[..so0])
    modifies entries, shorts
    ensures o0 < o <= |os| && e < entries.Length && so < shorts.Length
    ensures Filled(os, o, cur, cluster, owner, entries[..e + 1], shorts[..so])
  {
    ghost var done, text := entries[..e], shorts[..so0];
    assert |Items(done)| == e && NodeItems(os[o0..], cur0, cluster, owner) != [];
    cur := GroupAfter(os[o0], cur0);
    o, so := FillOne(os, o0, shorts, so0);
    entries[e] := Entry(Item(os[o0..o], cur, cluster, owner), so0);
    FilledStep(os, o0, cur0, cluster, owner, done, text, o);
    assert entries[..e + 1] == done + [entries[e]];
  }

  /** The do-while over one option and the aliases that follow it. */
  method FillOne(os: seq<Opt>, start: nat, shorts: array<int>, so0: nat) returns (o: nat, so: nat)
    requires start < |os| && so0 < shorts.Length == Shorts(os) + 1
    requires shorts[..so0] == Dedup(Keys(os)[..start])
    modifies shorts
    ensures start < o <= |os| && o == start + 1 + AliasRun(os[start..][1..])
    ensures so < shorts.Length
    ensures shorts[..so] == Dedup(Keys(os)[..o])
  {
    hide Dedup, AliasRun, Shorts;
    so := AddKey(os, start, shorts, so0);
    o := start + 1;
    FitsBefore(os, o, so);
    while o < |os| && os[o].alias
      invariant start < o <= |os| && so < shorts.Length
      invariant shorts[..so] == Dedup(Keys(os)[..o])
      invariant forall k :: start < k < o ==> os[k].alias
    {
      so := AddKey(os, o, shorts, so);
      o := o + 1;
      FitsBefore(os, o, so);
    }
    AliasRunIs(os[start..][1..], o - start - 1);
  }

  lemma FitsBefore(os: seq<Opt>, o: nat, so: nat)
    requires o <= |os| && so == |Dedup(Keys(os)[..o])|
    ensures so <= Shorts(os)
  {
    assert Keys(os)[..o] == Keys(os[..o]);
    DedupShorts(os[..o]);
    ShortsPrefix(os, o);
  }

  /** The state of hol_append's outer loop after m of MORE's entries: the list
      done is coded, and the pointer into MORE's string has passed what those
      entries own there. */
  ghost predicate Merging(hs: seq<Item>, ms: seq<Item>, m: nat, done: seq<Entry>, text: seq<int>, moreSo: nat)
    requires m <= |ms|
  {
    && Items(done) == hs + ms[..m]
    && Coded(done, text)
    && moreSo == |Dedup(Keys(OptsOf(ms[..m])))| <= |Dedup(Keys(OptsOf(ms)))|
  }

  lemma MergingStep(hs: seq<Item>, ms: seq<Item>, m: nat, done: seq<Entry>, text: seq<int>, moreSo: nat, moreSo': nat)
    requires m < |ms| && Merging(hs, ms, m, done, text, moreSo)
    requires var mk, off, n := Keys(OptsOf(ms)), |OptsOf(ms[..m])|, |ms[m].opts|;
             off + n <= |mk| && moreSo' == |Dedup(mk[..off + n])| <= |Dedup(mk)|
    ensures var mk, off, n := Keys(OptsOf(ms)), |OptsOf(ms[..m])|, |ms[m].opts|;
            Merging(hs, ms, m + 1, done + [Entry(ms[m], |text|)], Dedup(Keys(OptsOf(hs)) + mk[..off + n]), moreSo')
  {
    var e := Entry(ms[m], |text|);
    assert ms[..m + 1] == ms[..m] + [ms[m]];
    assert Items(done + [e]) == Items(done) + [ms[m]];
    assert hs + ms[..m] + [ms[m]] == hs + ms[..m + 1];
    CodedSnoc(done, text, e);
    MoreKeys(ms, m);
    MergedKeys(hs, ms, m);
  }

  /** Where the m-th item's options lie among MORE's keys. */
  lemma MoreKeys(ms: seq<Item>, m: nat)
    requires m < |ms|
    ensures var mk, off, n := Keys(OptsOf(ms)), |OptsOf(ms[..m])|, |ms[m].opts|;
            && off + n <= |mk|
            && mk[..off] == Keys(OptsOf(ms[..m]))
            && mk[..off + n] == Keys(OptsOf(ms[..m]) + ms[m].opts) == Keys(OptsOf(ms[..m + 1]))
            && forall j :: 0 <= j < n ==> mk[off + j] == ShortKey(ms[m].opts[j])
  {
    hide OptsOf;
    var n := |ms[m].opts|;
    OptsOfAt(ms, m, n);
    assert ms[..m + 1] == ms[..m] + [ms[m]];
    OptsOfSnoc(ms[..m], ms[m]);
    KeysConcat(OptsOf(ms[..m]), ms[m].opts);
    assert Keys(OptsOf(ms))[..|OptsOf(ms[..m])| + n] == Keys(OptsOf(ms)[..|OptsOf(ms[..m])| + n]);
  }

  /** The keys of a list with MORE's first m items, or m + 1 items, behind it. */
  lemma MergedKeys(hs: seq<Item>, ms: seq<Item>, m: nat)
    requires m < |ms|
    ensures Keys(OptsOf(hs + ms[..m])) == Keys(OptsOf(hs)) + Keys(OptsOf(ms[..m]))
    ensures Keys(OptsOf(hs + ms[..m]) + ms[m].opts) == Keys(OptsOf(hs)) + Keys(OptsOf(ms[..m]) + ms[m].opts)
  {
    OptsOfConcat(hs, ms[..m]);
  }

  lemma EmptyCode()
    ensures Dedup(Keys(OptsOf([]))) == []
  {
    assert Keys([]) == [];
  }

  /** The merging branch of hol_append, for two lists that have entries. */
  method Merge(hol: Hol, more: Hol) returns (es: array<Entry>, buf: array<int>, so: nat)
    requires hol.Valid() && more.Valid() && hol.num > 0 && more.num > 0
    ensures fresh(es) && fresh(buf)
    ensures es.Length == hol.num + more.num
    ensures Items(es[..]) == hol.Listing() + more.Listing()
    ensures so < buf.Length && Holds(buf[..], buf[..so]) && Coded(es[..], buf[..so])
  {
    ghost var hs, ms, own := hol.Listing(), more.Listing(), hol.entries[..hol.num];
    assert Coded(own, hol.text) && more.text == Dedup(Keys(OptsOf(ms)));
    var holLen := StrLen(hol.shorts, hol.text);
    var moreLen := StrLen(more.shorts, more.text);
    es := Joined(hol.entries, hol.num, more.entries, more.num);
    buf := CopyText(hol.shorts, hol.text, holLen, moreLen);
    assert es[..hol.num] == own;
    so := AppendEntries(es, hol.num, buf, holLen, more.shorts, hs, ms);
  }

  /** hol_append's outer loop, from entry n on; MORE's items are MS. */
  method AppendEntries(es: array<Entry>, n: nat, buf: array<int>, holLen: nat, moreShorts: array<int>,
                       ghost hs: seq<Item>, ghost ms: seq<Item>)
      returns (so: nat)
    requires es.Length == n + |ms| && forall k :: 0 <= k < |ms| ==> es[n + k].item == ms[k]
    requires Items(es[..n]) == hs
    requires Holds(moreShorts[..], Dedup(Keys(OptsOf(ms)))) && moreShorts != buf
    requires buf.Length == holLen + |Dedup(Keys(OptsOf(ms)))| + 1
    requires Coded(es[..n], buf[..holLen])
    modifies es, buf
    ensures Items(es[..]) == hs + ms
    ensures so < buf.Length && Holds(buf[..], buf[..so]) && Coded(es[..], buf[..so])
  {
    hide Dedup, Keys, OptsOf, Items;
    so := holLen;
    var e, moreSo := n, 0;
    assert Dedup(Keys(OptsOf(ms[..0]))) == [] by { EmptyCode(); assert ms[..0] == []; }
    while e < es.Length
      invariant n <= e <= es.Length == n + |ms|
      invariant holLen <= so <= holLen + moreSo && so < buf.Length
      invariant buf[..holLen] == Dedup(Keys(OptsOf(hs)))
      invariant Merging(hs, ms, e - n, es[..e], buf[..so], moreSo)
      invariant forall k :: e <= k < es.Length ==> es[k].item == ms[k - n]
    {
      so, moreSo := MergeEntry(es, e, buf, holLen, so, moreShorts, moreSo, hs, ms, e - n);
      e := e + 1;
      assert e - n == e - 1 - n + 1;
    }
    ghost var done := es[..e];
    assert done == es[..] && ms[..e - n] == ms;
    Terminate(buf, so, OptsOf(Items(done)));
  }

  method CopyText(src: array<int>, ghost text: seq<int>, n: nat, extra: nat) returns (buf: array<int>)
    requires Holds(src[..], text) && n == |text|
    ensures fresh(buf) && buf.Length == n + extra + 1 && buf[..n] == text
  {
    buf := new int[n + extra + 1];
    assert src[..][..n] == src[..n];
    forall i | 0 <= i < n {
      buf[i] := src[i];
    }
  }

  /** One turn of hol_append's outer loop, for MORE's m-th entry. */
  method MergeEntry(es: array<Entry>, e: nat, buf: array<int>, holLen: nat, so0: nat,
                    moreShorts: array<int>, moreSo0: nat,
                    ghost hs: seq<Item>, ghost ms: seq<Item>, ghost m: nat)
      returns (so: nat, moreSo: nat)
    requires m < |ms| && e < es.Length && es[e].item == ms[m]
    requires Holds(moreShorts[..], Dedup(Keys(OptsOf(ms)))) && moreShorts != buf
    requires buf.Length == holLen + |Dedup(Keys(OptsOf(ms)))| + 1
    requires holLen <= so0 <= holLen + moreSo0 && so0 < buf.Length
    requires buf[..holLen] == Dedup(Keys(OptsOf(hs)))
    requires Merging(hs, ms, m, es[..e], buf[..so0], moreSo0)
    modifies es, buf
    ensures holLen <= so <= holLen + moreSo && so < buf.Length
    ensures buf[..holLen] == old(buf[..holLen])
    ensures Merging(hs, ms, m + 1, es[..e + 1], buf[..so], moreSo)
    ensures forall k :: e < k < es.Length ==> es[k] == old(es[k])
  {
    hide Dedup, Keys, OptsOf, Items;
    ghost var done, text := es[..e], buf[..so0];
    MoreKeys(ms, m);
    MergedKeys(hs, ms, m);
    var opts := es[e].item.opts;
    ghost var hk, mk, off := Keys(OptsOf(hs)), Keys(OptsOf(ms)), |OptsOf(ms[..m])|;
    es[e] := Entry(es[e].item, so0);
    so, moreSo := MergeOne(opts, buf, holLen, so0, moreShorts, moreSo0, hk, mk, off);
    MergingStep(hs, ms, m, done, text, moreSo0, moreSo);
    assert buf[..so] == Dedup(hk + mk[..off + |opts|]);
    assert es[..e + 1] == done + [es[e]];
  }

  method Joined(a: array<Entry>, n: nat, b: array<Entry>, m: nat) returns (es: array<Entry>)
    requires n <= a.Length && m <= b.Length
    ensures fresh(es) && es[..] == a[..n] + b[..m]
  {
    es := new Entry[n + m](_ => Entry(Item([], 0, None, 0), 0));
    forall i | 0 <= i < n {
      es[i] := a[i];
    }
    forall i | 0 <= i < m {
      es[n + i] := b[i];
    }
  }

  /** What one more option of MORE adds to the merged string. */
  lemma MergeStep(hk: seq<Option<int>>, mk: seq<Option<int>>, x: nat)
    requires x < |mk|
    ensures Dedup(hk + mk[..x + 1])
            == if IsFirst(mk, x) && mk[x].value !in Dedup(hk)
               then Dedup(hk + mk[..x]) + [mk[x].value]
               else Dedup(hk + mk[..x])
  {
    assert hk + mk[..x + 1] == (hk + mk[..x]) + [mk[x]];
    DedupSnoc(hk + mk[..x], mk[x]);
    if mk[x].Some? {
      DedupMembers(hk, mk[x].value);
    }
  }

  /** The options of one of MORE's entries: decode them with MORE's own string
      and copy the characters that this list does not have yet. HK and MK are
      the keys of this list and of MORE. */
  method MergeOne(opts: seq<Opt>, buf: array<int>, holLen: nat, so0: nat, moreShorts: array<int>, moreSo0: nat,
                  ghost hk: seq<Option<int>>, ghost mk: seq<Option<int>>, ghost off: nat)
      returns (so: nat, moreSo: nat)
    requires off + |opts| <= |mk| && forall j :: 0 <= j < |opts| ==> mk[off + j] == ShortKey(opts[j])
    requires Holds(moreShorts[..], Dedup(mk)) && moreShorts != buf
    requires buf.Length == holLen + |Dedup(mk)| + 1
    requires holLen <= so0 <= holLen + moreSo0
    requires moreSo0 == |Dedup(mk[..off])| <= |Dedup(mk)|
    requires buf[..holLen] == Dedup(hk)
    requires buf[..so0] == Dedup(hk + mk[..off])
    modifies buf
    ensures holLen <= so <= holLen + moreSo
    ensures moreSo == |Dedup(mk[..off + |opts|])| <= |Dedup(mk)|
    ensures buf[..holLen] == Dedup(hk)
    ensures buf[..so] == Dedup(hk + mk[..off + |opts|])
  {
    so, moreSo := so0, moreSo0;
    for k := 0 to |opts|
      invariant holLen <= so <= holLen + moreSo
      invariant moreSo == |Dedup(mk[..off + k])| <= |Dedup(mk)|
      invariant buf[..holLen] == Dedup(hk)
      invariant buf[..so] == Dedup(hk + mk[..off + k])
    {
      so, moreSo := MergeKey(opts[k], buf, holLen, so, moreShorts, moreSo, hk, mk, off + k);
    }
  }

  method MergeKey(o: Opt, buf: array<int>, holLen: nat, so0: nat, moreShorts: array<int>, moreSo0: nat,
                  ghost hk: seq<Option<int>>, ghost mk: seq<Option<int>>, ghost x: nat)
      returns (so: nat, moreSo: nat)
    requires x < |mk| && mk[x] == ShortKey(o)
    requires Holds(moreShorts[..], Dedup(mk)) && moreShorts != buf
    requires buf.Length == holLen + |Dedup(mk)| + 1
    requires holLen <= so0 <= holLen + moreSo0
    requires moreSo0 == |Dedup(mk[..x])| <= |Dedup(mk)|
    requires buf[..holLen] == Dedup(hk)
    requires buf[..so0] == Dedup(hk + mk[..x])
    modifies buf
    ensures holLen <= so <= holLen + moreSo
    ensures moreSo == |Dedup(mk[..x + 1])| <= |Dedup(mk)|
    ensures buf[..holLen] == Dedup(hk)
    ensures buf[..so] == Dedup(hk + mk[..x + 1])
  {
    so, moreSo := so0, moreSo0;
    var ch := moreShorts[moreSo];
    TextChar(moreShorts[..], Dedup(mk), moreSo);
    AcceptedIffFirst(mk, x, o);
    MergeStep(hk, mk, x);
    DedupStep(mk, x);
    DedupPrefix(mk, x + 1);
    if IsShort(o) && ch == o.key {
      assert buf[0..holLen] == buf[..holLen];
      var shadowed := FindChar(ch, buf, 0, holLen);
      if !shadowed {
        buf[so] := ch;
        so := so + 1;
        assert buf[..so] == buf[..so - 1] + [ch];
      }
      moreSo := moreSo + 1;
    }
  }

  lemma TextChar(buf: seq<int>, text: seq<int>, p: nat)
    requires Holds(buf, text) && p <= |text|
    ensures buf[p] == CharAt(text, p)
  {
    assert p < |text| ==> buf[..|text|][p] == buf[p];
  }

  /** argp_hol: the list of a whole tree, the argp itself at preorder position
      at; children with a group or a header get a cluster of their own. */
  method ArgpHol(a: Argp, at: nat, cluster: Option<Cluster>) returns (h: Hol)
    requires HeadedTree(a)
    ensures fresh(h) && fresh(h.entries) && fresh(h.shorts)
    ensures h.Valid() && h.Listing() == TreeItems(a, at, cluster)
    decreases a
  {
    hide TreeItems, KidItems, NodeItems, HeadedTree, HeadedKids, Dedup, Keys, OptsOf, Items;
    TreeParts(a, at, cluster);
    h := MakeHol(a, at, cluster);
    var i: nat, kidAt: nat := 0, at + 1;
    ghost var all := TreeItems(a, at, cluster);
    while i < |a.children|
      invariant i <= |a.children| && HeadedKids(a.children[i..])
      invariant fresh(h) && fresh(h.entries) && fresh(h.shorts) && h.Valid()
      invariant h.Listing() + KidItems(a.children[i..], i, kidAt, cluster, at) == all
    {
      var c := a.children[i];
      var cc := ChildCluster(c, i, kidAt, cluster, at);
      KidsStep(a.children, i, kidAt, cluster, at);
      ghost var before := h.Listing();
      assert a decreases to c.argp by { assert a decreases to c; }
      var sub := ArgpHol(c.argp, kidAt, cc);
      h.Append(sub);
      ConcatAssoc(before, sub.Listing(), KidItems(a.children[i + 1..], i + 1, kidAt + Size(c.argp), cluster, at));
      i, kidAt := i + 1, kidAt + Size(c.argp);
    }
    NoKids(a.children, i, kidAt, cluster, at);
  }

  lemma TreeParts(a: Argp, at: nat, cluster: Option<Cluster>)
    requires HeadedTree(a)
    ensures Headed(a.Opts()) && HeadedKids(a.children[0..])
    ensures TreeItems(a, at, cluster)
            == NodeItems(a.Opts(), 0, cluster, at) + KidItems(a.children[0..], 0, at + 1, cluster, at)
  {
    assert a.children[0..] == a.children;
  }

  lemma KidsStep(cs: seq<Child>, i: nat, at: nat, cluster: Option<Cluster>, owner: nat)
    requires i < |cs| && HeadedKids(cs[i..])
    ensures HeadedTree(cs[i].argp) && HeadedKids(cs[i + 1..])
    ensures KidItems(cs[i..], i, at, cluster, owner)
            == TreeItems(cs[i].argp, at, ChildCluster(cs[i], i, at, cluster, owner))
               + KidItems(cs[i + 1..], i + 1, at + Size(cs[i].argp), cluster, owner)
  {
    assert cs[i..][0] == cs[i] && cs[i..][1..] == cs[i + 1..];
  }

  lemma NoKids(cs: seq<Child>, i: nat, at: nat, cluster: Option<Cluster>, owner: nat)
    requires i == |cs|
    ensures KidItems(cs[i..], i, at, cluster, owner) == []
  {}

  /** The list of _help, before it is sorted. */
  method HelpHol(a: Argp) returns (h: Hol)
    requires HeadedTree(a)
    ensures fresh(h) && h.Valid() && h.Listing() == HelpItems(a)
  {
    hide Coded, Holds, TreeItems, Regrouped, HeadedTree, Items;
    h := ArgpHol(a, 0, None);
    h.SetGroup("help", -1);
    h.SetGroup("version", -1);
  }

  /** hol_entry_short_iterate with a function that never stops it: the visible
      options that own a character of the string, in order. */
  method ShortIterate(e: Entry, buf: array<int>, ghost text: seq<int>) returns (visited: seq<nat>)
    requires Holds(buf[..], text) && e.so <= |text|
    ensures forall j: nat :: j in visited <==> j < |e.item.opts| && Visited(e, text, j)
    ensures forall j, k :: 0 <= j < k < |visited| ==> visited[j] < visited[k]
  {
    visited := [];
    var so := e.so;
    for j := 0 to |e.item.opts|
      invariant so == SoAt(e.item.opts, text, e.so, j) <= |text|
      invariant forall i: nat :: i in visited <==> i < j && Visited(e, text, i)
      invariant forall i, k :: 0 <= i < k < |visited| ==> visited[i] < visited[k]
    {
      TextChar(buf[..], text, so);
      if IsShort(e.item.opts[j]) && buf[so] == e.item.opts[j].key {
        if !e.item.opts[j].hidden {
          assert forall k :: 0 <= k < |visited| ==> visited[k] in visited;
          visited := visited + [j];
        }
        so := so + 1;
      }
    }
  }

  predicate Visited(e: Entry, text: seq<int>, j: nat)
    requires j < |e.item.opts|
  {
    Owns(e.item.opts, text, e.so, j) && !e.item.opts[j].hidden
  }

  /** An option that hol_usage lists among the short options without argument. */
  predicate Argless(o: Opt, base: Opt) {
    !o.hidden && o.arg.None? && base.arg.None? && !o.noUsage && !base.noUsage
  }

  function ArglessOwned(opts: seq<Opt>, str: seq<int>, so: nat, n: nat): seq<int>
    requires n <= |opts|
  {
    if n == 0 then []
    else
      ArglessOwned(opts, str, so, n - 1)
      + if Owns(opts, str, so, n - 1) && Argless(opts[n - 1], opts[0]) then [opts[n - 1].key] else []
  }

  function AllArgless(es: seq<Entry>, str: seq<int>): seq<int> {
    if es == [] then []
    else
      var e := es[|es| - 1];
      AllArgless(es[..|es| - 1], str) + ArglessOwned(e.item.opts, str, e.so, |e.item.opts|)
  }

  lemma {:induction false} ArglessOwnedIs(opts: seq<Opt>, str: seq<int>, so: nat, n: nat, x: int)
    requires n <= |opts|
    ensures x in ArglessOwned(opts, str, so, n) <==> exists j :: 0 <= j < n && PrintedBare(opts, str, so, j, x)
  {
    hide Owns;
    if n > 0 {
      ArglessOwnedIs(opts, str, so, n - 1, x);
      var last := if Owns(opts, str, so, n - 1) && Argless(opts[n - 1], opts[0]) then [opts[n - 1].key] else [];
      assert ArglessOwned(opts, str, so, n) == ArglessOwned(opts, str, so, n - 1) + last;
      assert x in last <==> PrintedBare(opts, str, so, n - 1, x);
      hide PrintedBare;
    }
  }

  /** The key X belongs to option j, which is visible and, like the option it is
      an alias of, takes no argument and is not kept out of the usage message. */
  ghost predicate PrintedBare(opts: seq<Opt>, str: seq<int>, so: nat, j: nat, x: int)
    requires j < |opts|
  {
    && Owns(opts, str, so, j) && opts[j].key == x && !opts[j].hidden
    && opts[j].arg.None? && !opts[j].noUsage && opts[0].arg.None? && !opts[0].noUsage
  }

  lemma {:induction false} AllArglessIs(es: seq<Entry>, str: seq<int>, x: int)
    ensures x in AllArgless(es, str)
            <==> exists i, j :: 0 <= i < |es| && 0 <= j < |es[i].item.opts|
                                && PrintedBare(es[i].item.opts, str, es[i].so, j, x)
  {
    hide PrintedBare;
    if es != [] {
      var n := |es| - 1;
      AllArglessIs(es[..n], str, x);
      ArglessOwnedIs(es[n].item.opts, str, es[n].so, |es[n].item.opts|, x);
      hide ArglessOwned;
    }
  }

  lemma ConcatAmong(a: seq<int>, b: seq<int>, c: seq<int>, d: seq<int>)
    requires multiset(a) <= multiset(c) && multiset(b) <= multiset(d)
    ensures multiset(a + b) <= multiset(c + d)
  {
    assert multiset(a + b) == multiset(a) + multiset(b);
    assert multiset(c + d) == multiset(c) + multiset(d);
  }

  lemma NoneAmong()
    ensures forall s: seq<int> :: multiset([]) <= multiset(s)
  {}

  lemma {:induction false} ArglessAmongOwned(opts: seq<Opt>, str: seq<int>, so: nat, n: nat)
    requires n <= |opts|
    ensures multiset(ArglessOwned(opts, str, so, n)) <= multiset(Owned(opts, str, so, n))
  {
    if n > 0 {
      hide Owns, Argless;
      ArglessAmongOwned(opts, str, so, n - 1);
      NoneAmong();
      var key := [opts[n - 1].key];
      var owns := Owns(opts, str, so, n - 1);
      ConcatAmong(ArglessOwned(opts, str, so, n - 1), if owns && Argless(opts[n - 1], opts[0]) then key else [],
                  Owned(opts, str, so, n - 1), if owns then key else []);
    }
  }

  lemma {:induction false} AllArglessAmongOwned(es: seq<Entry>, str: seq<int>)
    ensures multiset(AllArgless(es, str)) <= multiset(AllOwned(es, str))
  {
    if es != [] {
      var n := |es| - 1;
      var e := es[n];
      AllArglessAmongOwned(es[..n], str);
      ArglessAmongOwned(e.item.opts, str, e.so, |e.item.opts|);
      ConcatAmong(AllArgless(es[..n], str), ArglessOwned(e.item.opts, str, e.so, |e.item.opts|),
                  AllOwned(es[..n], str), OwnedBy(e, str));
    }
  }

  lemma {:induction false} AllArglessGrows(es: seq<Entry>, str: seq<int>, m: nat)
    requires m <= |es|
    ensures |AllArgless(es[..m], str)| <= |AllArgless(es, str)|
    decreases |es|
  {
    if m < |es| {
      AllArglessGrows(es[..|es| - 1], str, m);
      assert es[..|es| - 1][..m] == es[..m];
    } else {
      assert es[..m] == es;
    }
  }

  /** The printed keys are among the characters of the string, no more of each
      than the string has. */
  lemma ArglessFit(es: seq<Entry>, sorted: seq<Entry>, text: seq<int>)
    requires Coded(es, text) && multiset(sorted) == multiset(es)
    ensures multiset(AllArgless(sorted, text)) <= multiset(text)
    ensures |AllArgless(sorted, text)| <= |text|
  {
    SortingKeepsOwnership(es, sorted, text);
    AllArglessAmongOwned(sorted, text);
    var a, b := multiset(AllArgless(sorted, text)), multiset(text);
    assert b == a + (b - a);
    assert |b| == |a| + |b - a|;
  }

  /** The first part of hol_usage on the sorted entries: collect the short
      options without argument in a buffer as long as the string itself. No
      option is written twice, and every write stays inside the buffer. */
  method UsageShorts(sorted: seq<Entry>, buf: array<int>, ghost text: seq<int>, ghost es: seq<Entry>)
      returns (out: array<int>, end: nat)
    requires Holds(buf[..], text) && Coded(es, text) && multiset(sorted) == multiset(es)
    ensures end < out.Length == |text| + 1
    ensures out[..end] == AllArgless(sorted, text)
    ensures multiset(out[..end]) <= multiset(text)
    ensures forall x :: x in out[..end]
                        <==> exists i, j :: 0 <= i < |sorted| && 0 <= j < |sorted[i].item.opts|
                                            && PrintedBare(sorted[i].item.opts, text, sorted[i].so, j, x)
  {
    hide Holds, Coded, ArglessOwned, PrintedBare;
    var len := StrLen(buf, text);
    out := new int[len + 1];
    end := 0;
    ArglessFit(es, sorted, text);
    for i := 0 to |sorted|
      invariant end < out.Length == |text| + 1 && out[..end] == AllArgless(sorted[..i], text)
    {
      EntryStartsInside(es, text, sorted, i);
      AllArglessGrows(sorted, text, i + 1);
      assert sorted[..i + 1][..i] == sorted[..i];
      end := AddArgless(sorted[i], buf, text, out, end);
    }
    assert sorted[..|sorted|] == sorted;
    if end > 0 {
      out[end] := 0;
    }
    forall x
      ensures x in AllArgless(sorted, text)
              <==> exists i, j :: 0 <= i < |sorted| && 0 <= j < |sorted[i].item.opts|
                                  && PrintedBare(sorted[i].item.opts, text, sorted[i].so, j, x)
    {
      AllArglessIs(sorted, text, x);
    }
  }

  lemma EntryStartsInside(es: seq<Entry>, text: seq<int>, sorted: seq<Entry>, i: nat)
    requires Coded(es, text) && multiset(sorted) == multiset(es) && i < |sorted|
    ensures sorted[i].so <= |text|
  {
    assert sorted[i] in multiset(es);
    var k :| 0 <= k < |es| && es[k] == sorted[i];
    assert StartsInPlace(es, k);
    PrefixOfCode(es, text, k);
  }

  method AddArgless(e: Entry, buf: array<int>, ghost text: seq<int>, out: array<int>, end0: nat) returns (end: nat)
    requires Holds(buf[..], text) && e.so <= |text| && buf != out
    requires end0 + |ArglessOwned(e.item.opts, text, e.so, |e.item.opts|)| < out.Length
    modifies out
    ensures end < out.Length
    ensures out[..end] == old(out[..end0]) + ArglessOwned(e.item.opts, text, e.so, |e.item.opts|)
  {
    end := end0;
    var so, opts := e.so, e.item.opts;
    ghost var before := out[..end0];
    for j := 0 to |opts|
      invariant so == SoAt(opts, text, e.so, j) <= |text| && end < out.Length
      invariant out[..end] == before + ArglessOwned(opts, text, e.so, j)
    {
      ArglessGrows(opts, text, e.so, j + 1, |opts|);
      TextChar(buf[..], text, so);
      var o := opts[j];
      if IsShort(o) && buf[so] == o.key {
        so := so + 1;
        if Argless(o, opts[0]) {
          out[end] := o.key;
          end := end + 1;
          assert out[..end] == out[..end - 1] + [o.key];
        }
      }
    }
  }

  lemma {:induction false} ArglessGrows(opts: seq<Opt>, str: seq<int>, so: nat, n: nat, m: nat)
    requires n <= m <= |opts|
    ensures |ArglessOwned(opts, str, so, n)| <= |ArglessOwned(opts, str, so, m)|
  {
    if n < m {
      ArglessGrows(opts, str, so, n, m - 1);
    }
  }
}
