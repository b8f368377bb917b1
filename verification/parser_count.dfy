/** How many arguments a group has taken, read off the answers to the offers. */
module ParserCount {
  import opened Wrappers
  import opened Tables
  import opened Protocol
  import opened ParserTrace
  import opened ParserStep
  import opened Sequences

  predicate Refused(e: Event) {
    OffersArg(e) && e.reply.err == EBADKEY
  }

  /** No refused offer stands at the end. */
  predicate Settled(t: seq<Event>) {
    t == [] || !Refused(t[|t| - 1])
  }

  /** The first offer of the argument that event k offers: the refused offers
      right before it are about the same one. */
  function OfferStart(t: seq<Event>, k: nat): (r: nat)
    requires k < |t|
    ensures r <= k
  {
    if k > 0 && Refused(t[k - 1]) then OfferStart(t, k - 1) else k
  }

  /** The index of the argument that event k offers: the first offer is of the
      argument by itself, with next behind it. */
  function IndexOf(t: seq<Event>, k: nat): int
    requires k < |t|
  {
    var e := t[OfferStart(t, k)];
    if e.Called? then e.call.st.next - 1 else 0
  }

  /** What a group that accepts the offer of the argument at INDEX takes: all from
      there to where it leaves next, or all remaining ones if it was offered all. */
  function Amount(e: Event, index: int): nat
    requires OffersArg(e)
  {
    var after := if e.call.key.Args? then e.reply.st.argc else e.reply.st.next;
    if after > index then after - index else 0
  }

  /** The number of arguments that group g has taken with its accepted offers. */
  function Taken(t: seq<Event>, g: nat): nat {
    if t == [] then 0
    else
      var k := |t| - 1;
      var e := t[k];
      Taken(t[..k], g)
      + if OffersArg(e) && e.reply.err == 0 && e.call.group == g then
          Amount(e, IndexOf(t, k))
        else 0
  }

  ghost predicate SeesOwnCount(t: seq<Event>, k: nat)
    requires k < |t|
  {
    t[k].Called? ==> t[k].call.argNum == Taken(t[..k], t[k].call.group)
  }

  /** Every call shows a group the number of arguments it has taken. */
  ghost predicate CountsApart(t: seq<Event>) {
    forall k :: 0 <= k < |t| ==> SeesOwnCount(t, k)
  }

  lemma CountsAfter(t: seq<Event>, e: Event)
    requires CountsApart(t) && (e.Called? ==> e.call.argNum == Taken(t, e.call.group))
    ensures CountsApart(t + [e])
    ensures !(OffersArg(e) && e.reply.err == 0) ==> forall g :: Taken(t + [e], g) == Taken(t, g)
  {
    hide IndexOf, OffersArg;
    var t' := t + [e];
    assert t'[..|t|] == t;
    forall k | 0 <= k < |t'|
      ensures SeesOwnCount(t', k)
    {
      hide Taken;
      assert t'[..k] == t[..k] && t[..|t|] == t;
      assert k < |t| ==> SeesOwnCount(t, k);
    }
  }

  lemma {:induction false} RefusalsTakeNothing(t: seq<Event>, s: seq<Event>, g: nat)
    requires Refusals(s)
    ensures Taken(t + s, g) == Taken(t, g)
  {
    hide IndexOf;
    if s == [] {
      ConcatEmpty(t);
    } else {
      RefusalsTakeNothing(t, s[..|s| - 1], g);
      ConcatLast(t, s);
    }
  }

  lemma {:induction false} StartOfOffers(t: seq<Event>, s: seq<Event>, k: nat)
    requires Settled(t) && |t| <= k < |t| + |s| && forall i :: 0 <= i < |s| - 1 ==> Refused(s[i])
    ensures OfferStart(t + s, k) == |t|
  {
    hide Refused;
    if k > |t| {
      StartOfOffers(t, s, k - 1);
      assert (t + s)[k - 1] == s[k - 1 - |t|];
    } else {
      assert t != [] ==> (t + s)[k - 1] == t[|t| - 1];
    }
  }

  lemma TakenLast(t: seq<Event>, e: Event, g: nat)
    requires OffersArg(e) && e.reply.err == 0
    ensures Taken(t + [e], g) == Taken(t, g) + if e.call.group == g then Amount(e, IndexOf(t + [e], |t|)) else 0
  {
    assert (t + [e])[..|t|] == t;
  }

  /** The offers of the argument at index next. */
  lemma IndexOfOffers(t: seq<Event>, s: seq<Event>, st: Shared)
    requires Settled(t) && Threaded(s, st) && s != [] && OffersArg(s[0]) && s[0].call.key.Arg?
    requires forall i :: 0 <= i < |s| - 1 ==> Refused(s[i])
    ensures IndexOf(t + s, |t + s| - 1) == st.next
  {
    StartOfOffers(t, s, |t + s| - 1);
    assert (t + s)[|t|] == s[0] && s[..0] == [];
    assert Finds(s[0], LeftBy(s[..0], st));
  }

  /** One argument, at index next, offered until it is accepted: the accepting
      group takes what lies between. */
  lemma OffersCounted(t: seq<Event>, refused: seq<Event>, last: seq<Event>, st: Shared, g: nat)
    requires Settled(t) && Refusals(refused) && Threaded(refused + last, st)
    requires |last| == 1 && OffersArg(last[0]) && last[0].reply.err == 0 && (refused + last)[0].call.key.Arg?
    ensures Taken(t + refused + last, g)
            == Taken(t, g) + if last[0].call.group == g then Amount(last[0], st.next) else 0
  {
    hide Taken, IndexOf, Threaded, Settled, Amount;
    var s := refused + last;
    RefusalsTakeNothing(t, refused, g);
    TakenLast(t + refused, last[0], g);
    assert s[0] == if refused == [] then last[0] else refused[0];
    IndexOfOffers(t, s, st);
    ConcatAssoc(t, refused, last);
    assert last == [last[0]];
  }

  /** The first offer of an argument is of that argument by itself. */
  lemma {:induction false} OffersStart(nodes: seq<Node>, s: seq<Event>, n: nat)
    requires n <= |nodes| && s != [] && OffersArg(s[0]) && SlotsOf(s) <= Rota(nodes, n)
    ensures s[0].call.key.Arg?
  {
    RotaStarts(nodes, n);
    assert SlotOf(s[0]) == SlotsOf(s)[0];
  }

  lemma {:induction false} RotaStarts(nodes: seq<Node>, n: nat)
    requires n <= |nodes| && Rota(nodes, n) != []
    ensures !Rota(nodes, n)[0].1
  {
    if Rota(nodes, n - 1) != [] {
      RotaStarts(nodes, n - 1);
    }
  }
}
