/** What happens during a run of argp_parse, as a sequence of events: calls of
    the groups' parsers, and calls of getopt.

    User parsers and getopt are unknown functions of everything that has
    happened before, so a statement about all of them covers every behaviour. */
module ParserTrace {
  import opened Wrappers
  import opened ArgpTree
  import opened Tables
  import opened Protocol

  /** ARGP_ERR_UNKNOWN, and EINVAL. */
  const EBADKEY := 7
  const EINVAL := 22

  const KEY_END := -1
  const KEY_ARG := 1
  const KEY_ERR := '?' as int

  /** A pointer the library passes on without looking behind it; 0 is NULL. */
  type Ptr = int

  /** The fields of struct argp_state that parsers may modify; noArgs is the
      ARGP_NO_ARGS flag. */
  datatype Shared = Shared(argc: int, argv: seq<string>, next: int, quoted: int, noArgs: bool)

  /** A call of group's parser: the key and argument, the state as the parser
      finds it, and the storage of all child_inputs vectors. */
  datatype Call = Call(
    group: nat,
    key: Key,
    arg: Option<string>,
    st: Shared,
    hook: Ptr,
    input: Ptr,
    argNum: nat,
    slots: seq<Ptr>)

  datatype Reply = Reply(err: int, st: Shared, hook: Ptr, slots: seq<Ptr>)

  datatype Answer = Answer(opt: int, optopt: int, optarg: Option<string>, optind: int, argv: seq<string>)

  datatype Event = Called(call: Call, reply: Reply) | Asked(st: Shared, answer: Answer)

  type User = (seq<Event>, Call) -> Reply
  type Getopt = (seq<Event>, Shared) -> Answer

  // ---- per group ----

  /** The keys with which group g has been called. */
  function KeysOf(t: seq<Event>, g: nat): seq<Key> {
    if t == [] then []
    else
      var e := t[|t| - 1];
      KeysOf(t[..|t| - 1], g) + if e.Called? && e.call.group == g then [e.call.key] else []
  }

  function PhaseAt(t: seq<Event>, g: nat): Phase {
    PhaseOf(KeysOf(t, g))
  }

  lemma PhaseAfterCall(t: seq<Event>, e: Event, g: nat)
    ensures PhaseAt(t + [e], g)
            == if e.Called? && e.call.group == g then Next(PhaseAt(t, g), e.call.key) else PhaseAt(t, g)
  {
    assert (t + [e])[..|t|] == t;
    var ks := KeysOf(t, g);
    if e.Called? && e.call.group == g {
      assert (ks + [e.call.key])[..|ks|] == ks;
    } else {
      assert ks + [] == ks;
    }
  }

  /** What group g last left in the hook field. */
  function LastHook(t: seq<Event>, g: nat): Ptr {
    if t == [] then 0
    else
      var e := t[|t| - 1];
      if e.Called? && e.call.group == g then e.reply.hook else LastHook(t[..|t| - 1], g)
  }

  ghost predicate SeesOwnHook(t: seq<Event>, k: nat)
    requires k < |t|
  {
    t[k].Called? ==> t[k].call.hook == LastHook(t[..k], t[k].call.group)
  }

  /** Every call shows a group its own hook, as that group last left it. */
  ghost predicate HooksApart(t: seq<Event>) {
    forall k :: 0 <= k < |t| ==> SeesOwnHook(t, k)
  }

  lemma HooksAfter(t: seq<Event>, e: Event)
    requires HooksApart(t) && (e.Called? ==> e.call.hook == LastHook(t, e.call.group))
    ensures HooksApart(t + [e])
    ensures forall g :: LastHook(t + [e], g) == if e.Called? && e.call.group == g then e.reply.hook else LastHook(t, g)
  {
    var t' := t + [e];
    assert t'[..|t|] == t;
    forall k | 0 <= k < |t'|
      ensures SeesOwnHook(t', k)
    {
      assert t'[..k] == t[..k];
      assert t[..|t|] == t;
      if k < |t| {
        assert SeesOwnHook(t, k);
      }
    }
  }

  // ---- all groups ----

  /** The groups from lo up to hi are at a phase between options. */
  ghost predicate AllOpen(nodes: seq<Node>, t: seq<Event>, lo: int, hi: int) {
    forall g: nat :: lo <= g < hi && g < |nodes| && nodes[g].hasParser ==> Open(PhaseAt(t, g))
  }

  ghost predicate AllMayFinish(nodes: seq<Node>, t: seq<Event>) {
    forall g: nat :: g < |nodes| && nodes[g].hasParser ==> MayFinish(PhaseAt(t, g))
  }

  /** Every group has had its last call; every group has been told of an error,
      or none has. */
  ghost predicate AllDone(nodes: seq<Node>, t: seq<Event>, error: bool) {
    forall g: nat :: g < |nodes| && nodes[g].hasParser ==>
      PhaseAt(t, g).Done? && (PhaseAt(t, g).outcome.ToldError? <==> error)
  }

  ghost predicate AllToldSuccess(nodes: seq<Node>, t: seq<Event>) {
    forall g: nat :: g < |nodes| && nodes[g].hasParser ==> PhaseAt(t, g) == Done(ToldSuccess)
  }

  /** One call, of group g with KEY if g has a parser, lies between two traces. */
  ghost predicate Stepped(nodes: seq<Node>, t: seq<Event>, t': seq<Event>, key: Key, g: nat)
    requires g < |nodes|
  {
    forall i: nat :: PhaseAt(t', i) == if i == g && nodes[g].hasParser then Next(PhaseAt(t, i), key) else PhaseAt(t, i)
  }

  lemma OpenAfter(nodes: seq<Node>, t: seq<Event>, t': seq<Event>, key: Key, g: nat)
    requires g < |nodes| && AllOpen(nodes, t, 0, |nodes|) && Stepped(nodes, t, t', key, g)
    requires key.Opt? || key.Arg? || (key.Args? && (nodes[g].hasParser ==> PhaseAt(t, g).AfterArg?))
    ensures AllOpen(nodes, t', 0, |nodes|)
    ensures key.Arg? && nodes[g].hasParser ==> PhaseAt(t', g).AfterArg?
  {}

  /** Between two traces exactly the groups in [lo, hi), or those of them that
      are idle, have been called once, with KEY. */
  ghost predicate Swept(nodes: seq<Node>, t: seq<Event>, t': seq<Event>, key: Key, lo: int, hi: int,
                        onlyIdle: bool, processed: seq<nat>)
    requires |processed| == |nodes|
  {
    forall g: nat :: g < |nodes| ==>
      PhaseAt(t', g) == if lo <= g < hi && nodes[g].hasParser && (onlyIdle ==> processed[g] == 0)
                        then Next(PhaseAt(t, g), key) else PhaseAt(t, g)
  }

  lemma SweptStep(nodes: seq<Node>, t: seq<Event>, t1: seq<Event>, t2: seq<Event>, key: Key, lo: int, hi: int,
                  onlyIdle: bool, processed: seq<nat>, g: nat)
    requires |processed| == |nodes| && g < |nodes|
    requires Swept(nodes, t, t1, key, lo, hi, onlyIdle, processed)
    requires g == lo - 1 || g == hi
    requires if onlyIdle && processed[g] != 0 then t2 == t1 else Stepped(nodes, t1, t2, key, g)
    ensures g == lo - 1 && lo <= hi ==> Swept(nodes, t, t2, key, g, hi, onlyIdle, processed)
    ensures g == hi && lo <= hi ==> Swept(nodes, t, t2, key, lo, g + 1, onlyIdle, processed)
  {}

  /** A call to a group's parser in the middle of a run. */
  predicate InBody(e: Event) {
    e.Asked? || e.call.key.Opt? || e.call.key.Arg? || e.call.key.Args?
  }

  ghost predicate Body(s: seq<Event>) {
    forall i :: 0 <= i < |s| ==> InBody(s[i])
  }

  /** Calls with one key, to groups of ascending or of descending number. */
  ghost predicate SweepUp(s: seq<Event>, key: Key) {
    && (forall i :: 0 <= i < |s| ==> s[i].Called? && s[i].call.key == key)
    && forall i, j :: 0 <= i < j < |s| ==> s[i].call.group < s[j].call.group
  }

  ghost predicate SweepDown(s: seq<Event>, key: Key) {
    && (forall i :: 0 <= i < |s| ==> s[i].Called? && s[i].call.key == key)
    && forall i, j :: 0 <= i < j < |s| ==> s[i].call.group > s[j].call.group
  }

  predicate OffersArg(e: Event) {
    e.Called? && (e.call.key.Arg? || e.call.key.Args?)
  }

  /** Calls that offer the argument VAL by itself offer just that. */
  ghost predicate OfferOnly(s: seq<Event>, val: Option<string>) {
    forall i :: 0 <= i < |s| ==> OffersArg(s[i]) && (s[i].call.key.Arg? ==> s[i].call.arg == val)
  }

  /** The element of argv at index i, if there is one. */
  function ArgAt(argv: seq<string>, i: int): Option<string> {
    if 0 <= i < |argv| then Some(argv[i]) else None
  }

  /** One argument, offered until somebody does not refuse: all offers but the
      last are refused, and on success next is where the last one has left it,
      or at the end if all arguments were taken. */
  ghost predicate OneOffer(s: seq<Event>, err: int, st: Shared) {
    && (forall i :: 0 <= i < |s| ==> OffersArg(s[i]))
    && (forall i :: 0 <= i < |s| - 1 ==> s[i].reply.err == EBADKEY)
    && (err == 0 ==> s != [] && s[|s| - 1].reply.err == 0
                     && st.next == if s[|s| - 1].call.key.Arg? then s[|s| - 1].reply.st.next else st.argc)
  }

  /** Offers of the elements of argv in order. AT[i] is the index of the argument
      that the i-th offer is about: the one offered before if that was refused,
      and otherwise the one at which the accepting parser has left next. */
  ghost predicate Verbatim(s: seq<Event>, at: seq<int>, argv: seq<string>, start: int) {
    && |at| == |s| && (s != [] ==> at[0] == start)
    && (forall i :: 0 <= i < |s| ==> OffersArg(s[i]) && (s[i].call.key.Arg? ==> s[i].call.arg == ArgAt(argv, at[i])))
    && (forall i :: 0 <= i < |s| - 1 ==> Follows(s[i], at[i], at[i + 1]))
  }

  /** After offer E of the argument at index K comes an offer of the one at K'. */
  predicate Follows(e: Event, k: int, k': int) {
    && OffersArg(e)
    && if e.reply.err == EBADKEY then k' == k else e.call.key.Arg? && e.reply.err == 0 && k' == e.reply.st.next
  }

  /** Where next stands after the offers, as far as they have been accepted. */
  ghost predicate LeftAt(s: seq<Event>, start: int, st: Shared) {
    if s == [] then st.next == start
    else
      var e := s[|s| - 1];
      OffersArg(e) && e.reply.err == 0 && st.next == if e.call.key.Arg? then e.reply.st.next else st.argc
  }

  function Repeat(n: nat, x: int): (r: seq<int>)
    ensures |r| == n && forall i :: 0 <= i < n ==> r[i] == x
  {
    seq(n, _ => x)
  }

  lemma VerbatimStep(s: seq<Event>, at: seq<int>, tail: seq<Event>, argv: seq<string>, start: int, st: Shared,
                     st': Shared, err: int)
    requires Verbatim(s, at, argv, start) && LeftAt(s, start, st)
    requires OfferOnly(tail, ArgAt(argv, st.next)) && OneOffer(tail, err, st')
    requires st.next >= st.argc ==> tail == []
    ensures Verbatim(s + tail, at + Repeat(|tail|, st.next), argv, start)
    ensures err == 0 ==> LeftAt(s + tail, start, st')
  {
    var all, at' := s + tail, at + Repeat(|tail|, st.next);
    forall i | 0 <= i < |all|
      ensures OffersArg(all[i]) && (all[i].call.key.Arg? ==> all[i].call.arg == ArgAt(argv, at'[i]))
    {
      if i < |s| {
        assert all[i] == s[i] && at'[i] == at[i];
      } else {
        assert all[i] == tail[i - |s|] && at'[i] == st.next;
      }
    }
    assert all != [] ==> at'[0] == start;
    forall i | 0 <= i < |all| - 1
      ensures Follows(all[i], at'[i], at'[i + 1])
    {
      if i < |s| - 1 {
        assert all[i] == s[i] && at'[i + 1] == at[i + 1] && Follows(s[i], at[i], at[i + 1]);
      } else if i == |s| - 1 {
        assert all[i] == s[|s| - 1] && at'[i + 1] == st.next;
      } else {
        assert all[i] == tail[i - |s|] && at'[i + 1] == st.next == at'[i];
      }
    }
  }

  /** Offers of an argument, all refused. */
  ghost predicate Refusals(s: seq<Event>) {
    forall i :: 0 <= i < |s| ==> OffersArg(s[i]) && s[i].reply.err == EBADKEY
  }

  ghost predicate Between(s: seq<Event>, lo: int, hi: int) {
    forall i :: 0 <= i < |s| ==> s[i].Called? && lo <= s[i].call.group < hi
  }

  lemma SweepDownStep(s: seq<Event>, ev: seq<Event>, key: Key, g: nat, lo: int, hi: int)
    requires |ev| <= 1 && (ev != [] ==> ev[0].Called? && ev[0].call.key == key && ev[0].call.group == g)
    requires SweepDown(s, key) && Between(s, lo, hi) && g + 1 == lo <= hi
    ensures SweepDown(s + ev, key) && Between(s + ev, g, hi)
  {}

  lemma SweepUpStep(s: seq<Event>, ev: seq<Event>, key: Key, g: nat)
    requires |ev| <= 1 && (ev != [] ==> ev[0].Called? && ev[0].call.key == key && ev[0].call.group == g)
    requires SweepUp(s, key) && Between(s, 0, g)
    ensures SweepUp(s + ev, key) && Between(s + ev, 0, g + 1)
  {}

  // ---- accounting ----

  function Sum(xs: seq<nat>): nat {
    if xs == [] then 0 else Sum(xs[..|xs| - 1]) + xs[|xs| - 1]
  }

  lemma {:induction false} SumUpdate(xs: seq<nat>, i: nat, x: nat)
    requires i < |xs|
    ensures Sum(xs[i := x]) == Sum(xs) - xs[i] + x
  {
    var n := |xs| - 1;
    if i < n {
      SumUpdate(xs[..n], i, x);
      assert xs[i := x][..n] == xs[..n][i := x];
    } else {
      assert xs[i := x][..n] == xs[..n];
    }
  }

  /** How far an event by itself moves next, apart from the argument that getopt
      hands over or that is offered to the groups. */
  function Move(e: Event): int {
    match e
    case Asked(st, answer) => answer.optind - st.next - if answer.opt == KEY_ARG then 1 else 0
    case Called(call, reply) => if OffersArg(e) then 0 else reply.st.next - call.st.next
  }

  function Moves(t: seq<Event>): int {
    if t == [] then 0 else Moves(t[..|t| - 1]) + Move(t[|t| - 1])
  }

  lemma MovesSnoc(t: seq<Event>, e: Event)
    ensures Moves(t + [e]) == Moves(t) + Move(e)
  {
    assert (t + [e])[..|t|] == t;
  }

  lemma {:induction false} OffersDoNotMove(t: seq<Event>, s: seq<Event>)
    requires forall i :: 0 <= i < |s| ==> OffersArg(s[i])
    ensures Moves(t + s) == Moves(t)
  {
    if s == [] {
      assert t + s == t;
    } else {
      var n := |s| - 1;
      OffersDoNotMove(t, s[..n]);
      assert t + s == (t + s[..n]) + [s[n]];
      MovesSnoc(t + s[..n], s[n]);
    }
  }

  lemma {:induction false} SumOfNone(xs: seq<nat>)
    requires forall i :: 0 <= i < |xs| ==> xs[i] == 0
    ensures Sum(xs) == 0
  {
    if xs != [] {
      SumOfNone(xs[..|xs| - 1]);
    }
  }

  // ---- inputs ----

  /** Parents precede their children and have a slot for each of them. */
  ghost predicate LaidOut(nodes: seq<Node>) {
    forall j :: 0 <= j < |nodes| && nodes[j].parent.Some? ==>
      nodes[j].parent.value < j && nodes[j].parentIndex < nodes[nodes[j].parent.value].kids
  }

  /** The groups of every tree are laid out so. */
  lemma TreeIsLaidOut(a: Argp)
    ensures LaidOut(GroupsOf(a, 0, None, 0, 0))
  {
    var nodes := GroupsOf(a, 0, None, 0, 0);
    forall j | 0 <= j < |nodes| && nodes[j].parent.Some?
      ensures nodes[j].parent.value < j && nodes[j].parentIndex < nodes[nodes[j].parent.value].kids
    {
      GroupsAreLaidOut(a, j);
    }
  }

  /** The slot of a parent's child_inputs in which group g finds its input. */
  function InputSlot(nodes: seq<Node>, g: nat): nat
    requires g < |nodes| && nodes[g].parent.Some? && nodes[g].parent.value < |nodes|
  {
    InputSum(nodes[..nodes[g].parent.value]) + nodes[g].parentIndex
  }

  /** No two groups find their inputs in the same slot. */
  lemma SlotsDiffer(a: Argp, i: nat, j: nat)
    requires var nodes := GroupsOf(a, 0, None, 0, 0);
             i < j < |nodes| && nodes[i].parent.Some? && nodes[j].parent.Some?
    ensures var nodes := GroupsOf(a, 0, None, 0, 0);
            && nodes[i].parent.value < i && nodes[j].parent.value < j
            && InSlice(nodes, nodes[i].parent.value, InputSlot(nodes, i))
            && InSlice(nodes, nodes[j].parent.value, InputSlot(nodes, j))
            && InputSlot(nodes, i) != InputSlot(nodes, j)
  {
    var nodes := GroupsOf(a, 0, None, 0, 0);
    GroupsAreLaidOut(a, i);
    GroupsAreLaidOut(a, j);
    var p, q := nodes[i].parent.value, nodes[j].parent.value;
    if p < q {
      SlicesInOrder(nodes, p, q);
    } else if q < p {
      SlicesInOrder(nodes, q, p);
    }
  }

  /** Slot x lies in the child_inputs slice of group g. */
  predicate InSlice(nodes: seq<Node>, g: nat, x: int)
    requires g < |nodes|
  {
    InputSum(nodes[..g]) <= x < InputSum(nodes[..g]) + nodes[g].kids
  }

  /** SNAPS[p] is the storage as it was after the turn of group p in parser_init.
      Since then nobody has touched the slices of the groups that had a turn. */
  ghost predicate SlicesKept(nodes: seq<Node>, slots: seq<Ptr>, snaps: seq<seq<Ptr>>) {
    |snaps| <= |nodes| && forall p: nat, x: nat :: p < |snaps| && x < |slots| && InSlice(nodes, p, x) ==>
      x < |snaps[p]| && snaps[p][x] == slots[x]
  }

  lemma SlicesApart(nodes: seq<Node>, p: nat, g: nat, x: int)
    requires p < g < |nodes| && InSlice(nodes, p, x)
    ensures !InSlice(nodes, g, x)
  {
    SlicesInOrder(nodes, p, g);
  }

  /** A turn of group g that changes no more than g's own slice. */
  lemma SlicesStep(nodes: seq<Node>, slots: seq<Ptr>, slots': seq<Ptr>, snaps: seq<seq<Ptr>>)
    requires SlicesKept(nodes, slots, snaps) && |snaps| < |nodes| && |slots'| == |slots|
    requires forall x: nat :: x < |slots| && !InSlice(nodes, |snaps|, x) ==> slots'[x] == slots[x]
    ensures SlicesKept(nodes, slots', snaps + [slots'])
  {
    var all := snaps + [slots'];
    forall p: nat, x: nat | p < |all| && x < |slots'| && InSlice(nodes, p, x)
      ensures x < |all[p]| && all[p][x] == slots'[x]
    {
      if p < |snaps| {
        SlicesApart(nodes, p, |snaps|, x);
      }
    }
  }

  lemma {:induction false} SliceInside(nodes: seq<Node>, g: nat, x: int)
    requires g < |nodes| && InSlice(nodes, g, x)
    ensures 0 <= x < InputSum(nodes)
  {
    SlicesInOrder(nodes, g, |nodes|);
    assert nodes[..|nodes|] == nodes;
  }

  /** The input of group g comes from the place its parent had for it. */
  ghost predicate Inherits(nodes: seq<Node>, inputs: seq<Ptr>, snaps: seq<seq<Ptr>>, g: nat)
    requires g < |nodes| && |inputs| == |nodes|
  {
    nodes[g].parent.Some? ==>
      && nodes[g].parent.value < |nodes| && nodes[g].parent.value < |snaps|
      && InputSlot(nodes, g) < |snaps[nodes[g].parent.value]|
      && inputs[g] == snaps[nodes[g].parent.value][InputSlot(nodes, g)]
  }

  /** The storage after the turn of a group without a parser: it hands its input
      on to its first child. */
  ghost predicate HandedOn(nodes: seq<Node>, input: Ptr, slots: seq<Ptr>, g: nat)
    requires g < |nodes|
  {
    !nodes[g].hasParser && nodes[g].kids > 0 ==>
      InputSum(nodes[..g]) < |slots| && slots[InputSum(nodes[..g])] == input
  }

  /** SNAPS holds what the turns of parser_init have left in the storage. */
  ghost predicate SnapsOf(nodes: seq<Node>, inits: seq<Event>, inputs: seq<Ptr>, snaps: seq<seq<Ptr>>) {
    && (forall p: nat :: p < |snaps| && p < |nodes| && p < |inputs| ==> HandedOn(nodes, inputs[p], snaps[p], p))
    && forall i :: 0 <= i < |inits| ==>
      && inits[i].Called? && inits[i].call.group < |snaps| && inits[i].call.group < |inputs|
      && snaps[inits[i].call.group] == inits[i].reply.slots
      && inits[i].call.input == inputs[inits[i].call.group]
  }

  lemma InheritsStep(nodes: seq<Node>, inputs: seq<Ptr>, inputs': seq<Ptr>, snaps: seq<seq<Ptr>>, snap: seq<Ptr>,
                     g: nat)
    requires g < |nodes| == |inputs| == |inputs'| && |snaps| == g && LaidOut(nodes)
    requires inputs' == inputs[g := inputs'[g]]
    requires forall i: nat :: i < g ==> Inherits(nodes, inputs, snaps, i)
    requires Inherits(nodes, inputs', snaps, g)
    ensures forall i: nat :: i < g + 1 ==> Inherits(nodes, inputs', snaps + [snap], i)
  {
    forall i: nat | i < g + 1
      ensures Inherits(nodes, inputs', snaps + [snap], i)
    {
      assert i < g ==> Inherits(nodes, inputs, snaps, i);
    }
  }

  lemma SnapsStep(nodes: seq<Node>, inits: seq<Event>, ev: seq<Event>, inputs: seq<Ptr>, inputs': seq<Ptr>,
                  snaps: seq<seq<Ptr>>, snap: seq<Ptr>, g: nat)
    requires SnapsOf(nodes, inits, inputs, snaps) && |snaps| == g < |inputs| == |inputs'| == |nodes|
    requires inputs' == inputs[g := inputs'[g]] && HandedOn(nodes, inputs'[g], snap, g)
    requires |ev| <= 1
    requires ev != [] ==>
               ev[0].Called? && ev[0].call.group == g && ev[0].reply.slots == snap && ev[0].call.input == inputs'[g]
    ensures SnapsOf(nodes, inits + ev, inputs', snaps + [snap])
  {}

  /** So the first child of a group without a parser starts with that group's
      own input. */
  lemma WrapperPassesInput(nodes: seq<Node>, inits: seq<Event>, inputs: seq<Ptr>, snaps: seq<seq<Ptr>>, p: nat, g: nat)
    requires |inputs| == |nodes| && |snaps| == |nodes| && SnapsOf(nodes, inits, inputs, snaps)
    requires p < |nodes| && g < |nodes| && Inherits(nodes, inputs, snaps, g)
    requires nodes[g].parent == Some(p) && nodes[g].parentIndex == 0 && !nodes[p].hasParser && nodes[p].kids > 0
    ensures inputs[g] == inputs[p]
  {
    assert HandedOn(nodes, inputs[p], snaps[p], p);
  }

  lemma ReadyAfterInit(nodes: seq<Node>, t: seq<Event>, processed: seq<nat>)
    requires |processed| == |nodes| && Swept(nodes, [], t, Init, 0, |nodes|, false, processed)
    ensures AllOpen(nodes, t, 0, |nodes|)
  {
    forall g: nat | g < |nodes| && nodes[g].hasParser
      ensures Open(PhaseAt(t, g))
    {
      assert PhaseAt([], g) == Fresh;
    }
  }

  /** A finished run, from the beginning: the keys of each group follow the
      protocol, and SUCCESS and ERROR are in them as the outcome says. */
  lemma GroupProtocol(t: seq<Event>, g: nat)
      returns (body: seq<Key>, noArgs: seq<Key>, end: seq<Key>, told: seq<Key>)
    requires PhaseAt(t, g).Done?
    ensures InProtocol(KeysOf(t, g), body, noArgs, end, told)
    ensures told
            == match PhaseAt(t, g).outcome case Neither => [] case ToldSuccess => [Success] case ToldError => [Error]
  {
    body, noArgs, end, told := DoneMeansProtocol(KeysOf(t, g));
  }

  // ---- assumptions on callbacks that some statements need ----

  /** A parser that refuses an argument leaves next alone. */
  ghost predicate Polite(user: User) {
    forall h: seq<Event>, c: Call :: user(h, c).err == EBADKEY && (c.key.Arg? || c.key.Args?) ==>
        user(h, c).st.next == c.st.next
  }

  /** No parser moves next back or changes the other shared fields. */
  ghost predicate Forward(user: User) {
    forall h: seq<Event>, c: Call :: user(h, c).st == c.st.(next := user(h, c).st.next)
        && user(h, c).st.next >= c.st.next
  }

  ghost predicate WritesOwn(nodes: seq<Node>, c: Call, r: Reply)
    requires c.group < |nodes| && |r.slots| == |c.slots|
  {
    forall x :: 0 <= x < |c.slots| && !InSlice(nodes, c.group, x) ==> r.slots[x] == c.slots[x]
  }

  /** A parser writes only the child inputs of its own group. */
  ghost predicate OwnSlice(user: User, nodes: seq<Node>) {
    forall h: seq<Event>, c: Call :: c.group < |nodes| && |user(h, c).slots| == |c.slots| ==>
        WritesOwn(nodes, c, user(h, c))
  }

  /** A parser call cannot change the size of the storage. */
  ghost predicate KeepsSize(user: User) {
    forall h: seq<Event>, c: Call :: |user(h, c).slots| == |c.slots|
  }

  /** The values getopt can return for these groups: no more options, a
      non-option argument, a character of the short options string or one of
      '?' and ':' for an error, or a packed long option. It does not move optind
      behind the end of argv. */
  predicate KnownOpt(nodes: seq<Node>, opt: int) {
    || opt == KEY_END || opt == KEY_ARG
    || ' ' as int <= opt <= '~' as int
    || (USER_RANGE <= opt <= INT_MAX && GroupKeyOf(opt) <= |nodes|)
  }

  /** The tables of a tree with at most 127 groups contain no other long option. */
  lemma LongOptsAreKnown(nodes: seq<Node>, j: nat)
    requires |nodes| <= 127 && j < |FirstNames(AllCands(nodes))|
    ensures KnownOpt(nodes, FirstNames(AllCands(nodes))[j].val)
  {
    var k, key := CandsArePacked(nodes, FirstNames(AllCands(nodes))[j]);
    PackRoundTrip(k, key);
  }

  ghost predicate Sane(getopt: Getopt, nodes: seq<Node>) {
    forall h: seq<Event>, st: Shared :: KnownOpt(nodes, getopt(h, st).opt) && getopt(h, st).optind <= st.argc
  }
}
