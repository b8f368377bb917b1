/** First occurrences in a sequence of optional keys.

    Both halves of argp resolve a key declared more than once in favour of its
    first declaration. A position without a key is None; Dedup lists the keys
    in the order in which they first occur. */
module FirstOccurrence {
  import opened Wrappers

  /** Position i holds a key, and no earlier position holds the same one. */
  predicate IsFirst<K(==)>(xs: seq<Option<K>>, i: nat)
    requires i < |xs|
  {
    xs[i].Some? && xs[i] !in xs[..i]
  }

  function Dedup<K(==)>(xs: seq<Option<K>>): seq<K> {
    if xs == [] then []
    else
      var n := |xs| - 1;
      if IsFirst(xs, n) then Dedup(xs[..n]) + [xs[n].value] else Dedup(xs[..n])
  }

  /** Appending one position. */
  lemma DedupSnoc<K>(xs: seq<Option<K>>, x: Option<K>)
    ensures Dedup(xs + [x])
            == if x.Some? && x !in xs then Dedup(xs) + [x.value] else Dedup(xs)
  {
    assert (xs + [x])[..|xs|] == xs;
  }

  lemma {:induction false} DedupMembers<K>(xs: seq<Option<K>>, v: K)
    ensures v in Dedup(xs) <==> Some(v) in xs
  {
    if xs != [] {
      var n := |xs| - 1;
      DedupMembers(xs[..n], v);
      assert xs == xs[..n] + [xs[n]];
    }
  }

  lemma {:induction false} DedupDistinct<K>(xs: seq<Option<K>>, i: nat, j: nat)
    requires i < j < |Dedup(xs)|
    ensures Dedup(xs)[i] != Dedup(xs)[j]
  {
    var n := |xs| - 1;
    if IsFirst(xs, n) {
      DedupMembers(xs[..n], xs[n].value);
      if j < |Dedup(xs[..n])| {
        DedupDistinct(xs[..n], i, j);
      }
    } else {
      DedupDistinct(xs[..n], i, j);
    }
  }

  /** Keys that are all different are all listed. */
  lemma {:induction false} DedupOfDistinct<K>(xs: seq<Option<K>>)
    requires forall i :: 0 <= i < |xs| ==> xs[i].Some?
    requires forall i, j :: 0 <= i < j < |xs| ==> xs[i] != xs[j]
    ensures |Dedup(xs)| == |xs| && forall i :: 0 <= i < |xs| ==> Dedup(xs)[i] == xs[i].value
  {
    if xs != [] {
      DedupOfDistinct(xs[..|xs| - 1]);
    }
  }

  lemma {:induction false} DedupPrefix<K>(xs: seq<Option<K>>, i: nat)
    requires i <= |xs|
    ensures Dedup(xs[..i]) <= Dedup(xs)
  {
    if i < |xs| {
      var n := |xs| - 1;
      assert xs[..n][..i] == xs[..i];
      DedupPrefix(xs[..n], i);
    } else {
      assert xs[..i] == xs;
    }
  }

  /** The code for decoding: the character that follows the keys already
      listed before position i is the key of i exactly when i is a first
      occurrence. */
  lemma DedupAt<K>(xs: seq<Option<K>>, i: nat)
    requires i < |xs| && xs[i].Some?
    ensures var p := |Dedup(xs[..i])|;
            IsFirst(xs, i) <==> p < |Dedup(xs)| && Dedup(xs)[p] == xs[i].value
  {
    var p := |Dedup(xs[..i])|;
    DedupPrefix(xs, i);
    if IsFirst(xs, i) {
      assert xs[..i + 1] == xs[..i] + [xs[i]];
      DedupSnoc(xs[..i], xs[i]);
      DedupPrefix(xs, i + 1);
    } else {
      DedupMembers(xs[..i], xs[i].value);
      var q :| 0 <= q < p && Dedup(xs[..i])[q] == xs[i].value;
      if p < |Dedup(xs)| {
        DedupDistinct(xs, q, p);
      }
    }
  }

  lemma DedupStep<K>(xs: seq<Option<K>>, i: nat)
    requires i < |xs|
    ensures Dedup(xs[..i + 1])
            == if IsFirst(xs, i) then Dedup(xs[..i]) + [xs[i].value] else Dedup(xs[..i])
  {
    assert xs[..i + 1] == xs[..i] + [xs[i]];
    DedupSnoc(xs[..i], xs[i]);
  }
}
