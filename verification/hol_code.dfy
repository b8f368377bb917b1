/** The short-option code of a help-option list (HOL).

    A HOL keeps one string of short options for all its entries. An entry
    only records where its own characters start; which of its options own a
    character is recovered by walking the entry's options and the string side
    by side. This module defines the code and proves that decoding recovers
    exactly the first declarations. */
module HolCode {
  import opened Wrappers
  import opened FirstOccurrence
  import opened ArgpTree
  import opened Sequences

  /** A struct hol_cluster. The id is the preorder position of the child argp
      the cluster was made for; no two clusters share it, so equality of
      clusters stands for equality of their addresses. */
  datatype Cluster = Cluster(
    id: nat,
    header: Option<string>,
    index: int,
    group: int,
    parent: Option<Cluster>,
    depth: nat,
    owner: nat)

  /** What an entry says apart from its place in the string: an option with
      its aliases, its help group, cluster and declaring argp. */
  datatype Item = Item(opts: seq<Opt>, group: int, cluster: Option<Cluster>, owner: nat)

  /** A struct hol_entry; so is the offset of its short_options pointer. */
  datatype Entry = Entry(item: Item, so: nat)

  function ShortKey(o: Opt): Option<int> {
    if IsShort(o) then Some(o.key) else None
  }

  function Keys(os: seq<Opt>): (r: seq<Option<int>>)
    ensures |r| == |os|
  {
    seq(|os|, i requires 0 <= i < |os| => ShortKey(os[i]))
  }

  function Items(es: seq<Entry>): (r: seq<Item>)
    ensures |r| == |es|
  {
    seq(|es|, i requires 0 <= i < |es| => es[i].item)
  }

  /** All options of some entries, in order. */
  function OptsOf(items: seq<Item>): seq<Opt> {
    if items == [] then []
    else OptsOf(items[..|items| - 1]) + items[|items| - 1].opts
  }

  /** The length the string had reached after the first m entries. */
  ghost function Mark(es: seq<Entry>, m: nat): nat
    requires m <= |es|
  {
    |Dedup(Keys(OptsOf(Items(es)[..m])))|
  }

  ghost predicate StartsInPlace(es: seq<Entry>, i: nat)
    requires i < |es|
  {
    es[i].so == Mark(es, i)
  }

  /** The invariant of a HOL: the string is the first-occurrence list of the
      short keys of all entries, and each entry points at the place the string
      had reached when the entry was added. */
  ghost predicate Coded(es: seq<Entry>, str: seq<int>) {
    && str == Dedup(Keys(OptsOf(Items(es))))
    && forall i :: 0 <= i < |es| ==> StartsInPlace(es, i)
  }

  /** The character under a pointer into the NUL-terminated string. */
  function CharAt(str: seq<int>, p: nat): int {
    if p < |str| then str[p] else 0
  }

  /** The walk of hol_entry_short_iterate: the pointer into the string before
      the n-th option, and whether the walk accepts option j. */
  function SoAt(opts: seq<Opt>, str: seq<int>, so: nat, n: nat): nat
    requires n <= |opts|
  {
    if n == 0 then so
    else
      var p := SoAt(opts, str, so, n - 1);
      if IsShort(opts[n - 1]) && CharAt(str, p) == opts[n - 1].key then p + 1 else p
  }

  predicate Owns(opts: seq<Opt>, str: seq<int>, so: nat, j: nat)
    requires j < |opts|
  {
    IsShort(opts[j]) && CharAt(str, SoAt(opts, str, so, j)) == opts[j].key
  }

  lemma OptsOfSnoc(items: seq<Item>, x: Item)
    ensures OptsOf(items + [x]) == OptsOf(items) + x.opts
  {
    assert (items + [x])[..|items|] == items;
  }

  lemma {:induction false} OptsOfConcat(a: seq<Item>, b: seq<Item>)
    ensures OptsOf(a + b) == OptsOf(a) + OptsOf(b)
  {
    if b == [] {
      ConcatEmpty(a);
      ConcatEmpty(OptsOf(a));
    } else {
      var n := |b| - 1;
      OptsOfConcat(a, b[..n]);
      ConcatLast(a, b);
      ConcatAssoc(OptsOf(a), OptsOf(b[..n]), b[n].opts);
    }
  }

  lemma KeysConcat(a: seq<Opt>, b: seq<Opt>)
    ensures Keys(a + b) == Keys(a) + Keys(b)
  {}

  /** Where entry i's options lie among all options. */
  lemma OptsOfAt(items: seq<Item>, i: nat, n: nat)
    requires i < |items| && n <= |items[i].opts|
    ensures var off := |OptsOf(items[..i])|;
            && off + n <= |OptsOf(items)|
            && OptsOf(items)[..off + n] == OptsOf(items[..i]) + items[i].opts[..n]
            && forall j :: 0 <= j < |items[i].opts| ==>
                 off + j < |OptsOf(items)| && OptsOf(items)[off + j] == items[i].opts[j]
  {
    assert items == items[..i] + [items[i]] + items[i + 1..];
    OptsOfConcat(items[..i] + [items[i]], items[i + 1..]);
    OptsOfSnoc(items[..i], items[i]);
  }

  /** The walk's test of one option, given that its pointer has passed the
      first occurrences before that option. */
  lemma AcceptedIffFirst(keys: seq<Option<int>>, x: nat, o: Opt)
    requires x < |keys| && keys[x] == ShortKey(o)
    ensures (IsShort(o) && CharAt(Dedup(keys), |Dedup(keys[..x])|) == o.key) <==> IsFirst(keys, x)
  {
    if IsShort(o) {
      DedupAt(keys, x);
    }
  }

  /** The pointer of the walk counts the first occurrences passed so far, over
      the whole list and not just over this entry. */
  lemma {:induction false} WalkCountsFirsts(keys: seq<Option<int>>, off: nat, opts: seq<Opt>, n: nat)
    requires n <= |opts| && off + n <= |keys|
    requires forall j :: 0 <= j < n ==> keys[off + j] == ShortKey(opts[j])
    ensures SoAt(opts, Dedup(keys), |Dedup(keys[..off])|, n) == |Dedup(keys[..off + n])|
  {
    if n > 0 {
      WalkCountsFirsts(keys, off, opts, n - 1);
      DedupStep(keys, off + n - 1);
      AcceptedIffFirst(keys, off + n - 1, opts[n - 1]);
    }
  }

  /** The walk over entry i of a coded list. */
  lemma WalkOfEntry(es: seq<Entry>, str: seq<int>, i: nat, n: nat)
    requires Coded(es, str) && i < |es| && n <= |es[i].item.opts|
    ensures var keys, off := Keys(OptsOf(Items(es))), |OptsOf(Items(es)[..i])|;
            && off + n <= |keys|
            && SoAt(es[i].item.opts, str, es[i].so, n) == |Dedup(keys[..off + n])|
  {
    hide OptsOf, SoAt, Dedup;
    var items := Items(es);
    var keys, off := Keys(OptsOf(items)), |OptsOf(items[..i])|;
    OptsOfAt(items, i, n);
    assert StartsInPlace(es, i);
    assert keys[..off] == Keys(OptsOf(items[..i])) by { OptsOfAt(items, i, 0); }
    WalkCountsFirsts(keys, off, es[i].item.opts, n);
  }

  /** Decoding inverts encoding: an entry owns exactly those of its short
      options that are the first declaration of their key in the list. */
  lemma DecodeInvertsEncode(es: seq<Entry>, str: seq<int>, i: nat, j: nat)
    requires Coded(es, str) && i < |es| && j < |es[i].item.opts|
    ensures var all, off := OptsOf(Items(es)), |OptsOf(Items(es)[..i])|;
            && off + j < |all| && all[off + j] == es[i].item.opts[j]
            && (Owns(es[i].item.opts, str, es[i].so, j) <==> IsFirst(Keys(all), off + j))
  {
    var items := Items(es);
    var keys, off := Keys(OptsOf(items)), |OptsOf(items[..i])|;
    OptsOfAt(items, i, j);
    WalkOfEntry(es, str, i, j);
    AcceptedIffFirst(keys, off + j, es[i].item.opts[j]);
  }

  /** Adding an entry whose options start where the string ends. */
  lemma CodedSnoc(es: seq<Entry>, str: seq<int>, e: Entry)
    requires Coded(es, str) && e.so == |str|
    ensures Coded(es + [e], Dedup(Keys(OptsOf(Items(es)) + e.item.opts)))
  {
    var es' := es + [e];
    assert Items(es') == Items(es) + [e.item];
    OptsOfSnoc(Items(es), e.item);
    forall i | 0 <= i < |es'|
      ensures StartsInPlace(es', i)
    {
      assert Items(es')[..i] == Items(es)[..i];
      if i == |es| {
        assert Items(es)[..i] == Items(es);
      } else {
        assert StartsInPlace(es, i);
      }
    }
  }

  /** A coded list with the given items. */
  ghost function Encode(items: seq<Item>): (es: seq<Entry>)
    ensures |es| == |items|
  {
    seq(|items|, i requires 0 <= i < |items| => Entry(items[i], |Dedup(Keys(OptsOf(items[..i])))|))
  }

  lemma EncodeIsCoded(items: seq<Item>)
    ensures Items(Encode(items)) == items
    ensures Coded(Encode(items), Dedup(Keys(OptsOf(items))))
  {
    var es := Encode(items);
    assert Items(es) == items;
    forall i | 0 <= i < |es|
      ensures StartsInPlace(es, i)
    {
    }
  }

  /** However two lists with the same items have come about, by whatever merges
      in whatever order, they have the same string and the same pointers. */
  lemma CodeIsUnique(es: seq<Entry>, str: seq<int>, fs: seq<Entry>, text: seq<int>)
    requires Coded(es, str) && Coded(fs, text) && Items(es) == Items(fs)
    ensures es == fs && str == text
  {
    forall i | 0 <= i < |es|
      ensures es[i] == fs[i]
    {
      assert StartsInPlace(es, i) && StartsInPlace(fs, i);
      assert Items(es)[i] == Items(fs)[i];
    }
  }

  /** The keys an entry owns, in the order of its options. */
  function Owned(opts: seq<Opt>, str: seq<int>, so: nat, n: nat): seq<int>
    requires n <= |opts|
  {
    if n == 0 then []
    else
      Owned(opts, str, so, n - 1)
      + if Owns(opts, str, so, n - 1) then [opts[n - 1].key] else []
  }

  function OwnedBy(e: Entry, str: seq<int>): seq<int> {
    Owned(e.item.opts, str, e.so, |e.item.opts|)
  }

  /** The keys owned by a list of entries, entry after entry. */
  function AllOwned(es: seq<Entry>, str: seq<int>): seq<int> {
    if es == [] then []
    else AllOwned(es[..|es| - 1], str) + OwnedBy(es[|es| - 1], str)
  }

  lemma {:induction false} OwnedIsSlice(e: Entry, str: seq<int>, n: nat)
    requires n <= |e.item.opts|
    requires SoAt(e.item.opts, str, e.so, n) <= |str|
    ensures e.so <= SoAt(e.item.opts, str, e.so, n)
    ensures Owned(e.item.opts, str, e.so, n) == str[e.so..SoAt(e.item.opts, str, e.so, n)]
  {
    if n > 0 {
      OwnedIsSlice(e, str, n - 1);
    }
  }

  /** What the string holds after the first m entries is a prefix of it. */
  lemma PrefixOfCode(es: seq<Entry>, str: seq<int>, m: nat)
    requires Coded(es, str) && m <= |es|
    ensures Dedup(Keys(OptsOf(Items(es)[..m]))) <= str
    ensures |OptsOf(Items(es)[..m])| <= |OptsOf(Items(es))|
    ensures Keys(OptsOf(Items(es)))[..|OptsOf(Items(es)[..m])|] == Keys(OptsOf(Items(es)[..m]))
  {
    var items := Items(es);
    OptsOfConcat(items[..m], items[m..]);
    assert items[..m] + items[m..] == items;
    DedupPrefix(Keys(OptsOf(items)), |OptsOf(items[..m])|);
    assert Keys(OptsOf(items))[..|OptsOf(items[..m])|] == Keys(OptsOf(items[..m]));
  }

  /** The characters an entry owns are those between its own start and the
      start of the next entry. */
  lemma EntryCode(es: seq<Entry>, str: seq<int>, i: nat)
    requires Coded(es, str) && i < |es|
    ensures Mark(es, i) <= Mark(es, i + 1) <= |str|
    ensures OwnedBy(es[i], str) == str[Mark(es, i)..Mark(es, i + 1)]
  {
    hide OptsOf, SoAt, Dedup;
    var items, e := Items(es), es[i];
    assert StartsInPlace(es, i);
    var n := |e.item.opts|;
    WalkOfEntry(es, str, i, n);
    assert items[..i + 1] == items[..i] + [e.item];
    OptsOfSnoc(items[..i], e.item);
    PrefixOfCode(es, str, i + 1);
    OwnedIsSlice(e, str, n);
  }

  /** Read in list order, the entries own the string's characters one by one. */
  lemma {:induction false} OwnedInOrder(es: seq<Entry>, str: seq<int>, m: nat)
    requires Coded(es, str) && m <= |es|
    ensures Mark(es, m) <= |str| && AllOwned(es[..m], str) == str[..Mark(es, m)]
  {
    hide Coded, Mark, OwnedBy, OptsOf;
    if m == 0 {
      MarkEnds(es, str);
      assert es[..m] == [];
    } else {
      var i, j := Mark(es, m - 1), Mark(es, m);
      assert AllOwned(es[..m - 1], str) == str[..i] by { OwnedInOrder(es, str, m - 1); }
      assert i <= j <= |str| && OwnedBy(es[m - 1], str) == str[i..j] by { EntryCode(es, str, m - 1); }
      AllOwnedStep(es, str, m - 1);
      assert str[..i] + str[i..j] == str[..j];
    }
  }

  lemma MarkEnds(es: seq<Entry>, str: seq<int>)
    requires Coded(es, str)
    ensures Mark(es, 0) == 0 && Mark(es, |es|) == |str|
  {
    assert Items(es)[..0] == [];
    assert Keys([]) == [];
    assert Items(es)[..|es|] == Items(es);
  }

  lemma AllOwnedStep(es: seq<Entry>, str: seq<int>, m: nat)
    requires m < |es|
    ensures AllOwned(es[..m + 1], str) == AllOwned(es[..m], str) + OwnedBy(es[m], str)
  {
    assert es[..m + 1][..m] == es[..m];
  }

  lemma {:induction false} AllOwnedPermuted(es: seq<Entry>, fs: seq<Entry>, str: seq<int>)
    requires multiset(es) == multiset(fs)
    ensures multiset(AllOwned(es, str)) == multiset(AllOwned(fs, str))
    decreases |es|
  {
    if es == [] {
      assert |multiset(fs)| == 0;
      assert fs == [];
    } else {
      var n := |es| - 1;
      var e := es[n];
      assert es == es[..n] + [e];
      assert e in multiset(fs);
      var k :| 0 <= k < |fs| && fs[k] == e;
      var rest := fs[..k] + fs[k + 1..];
      assert fs == fs[..k] + [e] + fs[k + 1..];
      assert multiset(rest) == multiset(fs) - multiset{e};
      assert multiset(es[..n]) == multiset(es) - multiset{e};
      AllOwnedPermuted(es[..n], rest, str);
      AllOwnedConcat(fs[..k] + [e], fs[k + 1..], str);
      AllOwnedConcat(fs[..k], [e], str);
      AllOwnedConcat(fs[..k], fs[k + 1..], str);
      assert [e][..0] == [];
      assert AllOwned([e], str) == OwnedBy(e, str);
    }
  }

  lemma {:induction false} AllOwnedConcat(a: seq<Entry>, b: seq<Entry>, str: seq<int>)
    ensures AllOwned(a + b, str) == AllOwned(a, str) + AllOwned(b, str)
  {
    hide OwnedBy;
    if b == [] {
      ConcatEmpty(a);
      ConcatEmpty(AllOwned(a, str));
    } else {
      var n := |b| - 1;
      AllOwnedConcat(a, b[..n], str);
      ConcatLast(a, b);
      ConcatAssoc(AllOwned(a, str), AllOwned(b[..n], str), OwnedBy(b[n], str));
    }
  }

  /** In any rearrangement of the entries, such as the sorted one, each short
      option is still owned exactly once, so what the entries own together
      fits the string's own length. */
  lemma SortingKeepsOwnership(es: seq<Entry>, sorted: seq<Entry>, str: seq<int>)
    requires Coded(es, str) && multiset(sorted) == multiset(es)
    ensures multiset(AllOwned(sorted, str)) == multiset(str)
    ensures |AllOwned(sorted, str)| == |str|
  {
    AllOwnedPermuted(es, sorted, str);
    MarkEnds(es, str);
    OwnedInOrder(es, str, |es|);
    assert es[..|es|] == es && str[..|str|] == str;
    assert |AllOwned(sorted, str)| == |multiset(AllOwned(sorted, str))|;
  }
}
