/** One step of the main loop, as a relation between the states before and
    after it: what is asked of getopt, which calls are made, in which order and
    with which state, and how their answers are taken up. */
module ParserStep {
  import opened Wrappers
  import opened Tables
  import opened Protocol
  import opened ParserTrace

  // ---- where the answers come from ----

  ghost predicate GenuineAt(t: seq<Event>, user: User, getopt: Getopt, k: nat)
    requires k < |t|
  {
    match t[k]
    case Called(call, reply) => reply == user(t[..k], call)
    case Asked(st, answer) => answer == getopt(t[..k], st)
  }

  /** Every answer in the trace is the user's parser's, or getopt's, to what has
      happened before. */
  ghost predicate Genuine(t: seq<Event>, user: User, getopt: Getopt) {
    forall k :: 0 <= k < |t| ==> GenuineAt(t, user, getopt, k)
  }

  lemma GenuineAfter(t: seq<Event>, user: User, getopt: Getopt, e: Event)
    requires Genuine(t, user, getopt)
    requires match e
             case Called(call, reply) => reply == user(t, call)
             case Asked(st, answer) => answer == getopt(t, st)
    ensures Genuine(t + [e], user, getopt)
  {
    var t' := t + [e];
    forall k | 0 <= k < |t'|
      ensures GenuineAt(t', user, getopt, k)
    {
      assert t'[..k] == t[..k] && t[..|t|] == t;
      assert k < |t| ==> GenuineAt(t, user, getopt, k);
    }
  }

  // ---- whose turn it is ----

  /** A call's group, and whether it offers all remaining arguments. */
  function SlotOf(e: Event): (nat, bool) {
    if e.Called? then (e.call.group, e.call.key.Args?) else (0, false)
  }

  function SlotsOf(s: seq<Event>): (r: seq<(nat, bool)>)
    ensures |r| == |s|
  {
    seq(|s|, i requires 0 <= i < |s| => SlotOf(s[i]))
  }

  /** A group with a parser is offered an argument by itself, and then all. */
  function Turn(nodes: seq<Node>, g: nat): seq<(nat, bool)>
    requires g < |nodes|
  {
    if nodes[g].hasParser then [(g, false), (g, true)] else []
  }

  /** The order in which the first n groups are offered an argument. */
  function Rota(nodes: seq<Node>, n: nat): seq<(nat, bool)>
    requires n <= |nodes|
  {
    if n == 0 then [] else Rota(nodes, n - 1) + Turn(nodes, n - 1)
  }

  lemma {:induction false} RotaPrefix(nodes: seq<Node>, n: nat, m: nat)
    requires n <= m <= |nodes|
    ensures Rota(nodes, n) <= Rota(nodes, m)
  {
    if n < m {
      RotaPrefix(nodes, n, m - 1);
    }
  }

  /** The state as the last of some calls has left it. */
  function LeftBy(s: seq<Event>, st: Shared): Shared {
    if s != [] && s[|s| - 1].Called? then s[|s| - 1].reply.st else st
  }

  /** An offer finds the state as the call before it has left it, with next moved
      behind the argument, or, to offer all arguments, put back. */
  predicate Finds(e: Event, was: Shared) {
    e.Called? ==> e.call.st == was.(next := if e.call.key.Args? then was.next - 1 else was.next + 1)
  }

  ghost predicate Threaded(s: seq<Event>, st: Shared) {
    forall i :: 0 <= i < |s| ==> s[i].Called? && Finds(s[i], LeftBy(s[..i], st))
  }

  lemma ThreadedJoin(a: seq<Event>, b: seq<Event>, st: Shared)
    requires Threaded(a, st) && Threaded(b, LeftBy(a, st))
    ensures Threaded(a + b, st) && LeftBy(a + b, st) == LeftBy(b, LeftBy(a, st))
    ensures SlotsOf(a + b) == SlotsOf(a) + SlotsOf(b)
  {
    hide Finds;
    var all := a + b;
    forall i | 0 <= i < |all|
      ensures all[i].Called? && Finds(all[i], LeftBy(all[..i], st))
    {
      if i < |a| {
        assert all[..i] == a[..i] && all[i] == a[i];
      } else {
        var k := i - |a|;
        assert all[..i] == a + b[..k] && all[i] == b[k];
        LeftByJoin(a, b[..k], st);
        assert Finds(b[k], LeftBy(b[..k], LeftBy(a, st)));
      }
    }
    LeftByJoin(a, b, st);
  }

  lemma LeftByJoin(a: seq<Event>, b: seq<Event>, st: Shared)
    requires b != [] ==> b[|b| - 1].Called?
    ensures LeftBy(a + b, st) == LeftBy(b, LeftBy(a, st))
  {
    assert b == [] ==> a + b == a;
  }

  /** One turn: nothing without a parser; otherwise one offer, or two if the
      first is refused. */
  lemma TurnTaken(nodes: seq<Node>, g: nat, s: seq<Event>, st: Shared)
    requires g < |nodes| && |s| <= 2 && (s == [] <==> !nodes[g].hasParser)
    requires forall i :: 0 <= i < |s| ==> s[i].Called? && s[i].call.group == g
    requires |s| >= 1 ==> !s[0].call.key.Args? && Finds(s[0], st)
    requires |s| == 2 ==> s[1].call.key.Args? && Finds(s[1], s[0].reply.st)
    ensures Threaded(s, st) && SlotsOf(s) <= Turn(nodes, g)
    ensures LeftBy(s, st) == if s == [] then st else s[|s| - 1].reply.st
    ensures |s| != 1 ==> SlotsOf(s) == Turn(nodes, g)
    ensures forall val :: (|s| >= 1 ==> s[0].call.key.Arg? && s[0].call.arg == val) ==> OfferOnly(s, val)
    ensures (forall i :: 0 <= i < |s| ==> OffersArg(s[i]) && s[i].reply.err == EBADKEY) ==> Refusals(s)
  {
    assert |s| >= 1 ==> s[..0] == [] && s[..1] == [s[0]];
  }

  /** EV is the offer by KEY to group g, if that has a parser. */
  ghost predicate Offering(nodes: seq<Node>, ev: seq<Event>, g: nat, key: Key, was: Shared, err: int)
    requires g < |nodes|
  {
    if nodes[g].hasParser then
      && |ev| == 1 && ev[0].Called? && ev[0].call.group == g && ev[0].call.key == key
      && Finds(ev[0], was) && ev[0].reply.err == err
    else
      ev == [] && err == EBADKEY
  }

  lemma FirstTaken(nodes: seq<Node>, g: nat, ev: seq<Event>, st: Shared, now: Shared, err: int, val: Option<string>)
    requires g < |nodes| && Offering(nodes, ev, g, Arg, st, err) && err != EBADKEY
    requires ev != [] ==> ev[0].call.arg == val && ev[0].reply.st == now
    ensures Threaded(ev, st) && LeftBy(ev, st) == now && SlotsOf(ev) <= Turn(nodes, g) && OfferOnly(ev, val)
    ensures Refusals([]) && |ev| == 1 && ev[0].Called? && OffersArg(ev[0])
    ensures ev[0].call.group == g && ev[0].call.key == Arg && ev[0].reply.err == err && ev[0].reply.st == now
  {
    TurnTaken(nodes, g, ev, st);
  }

  lemma BothTaken(nodes: seq<Node>, g: nat, a: seq<Event>, b: seq<Event>, st: Shared, was: Shared, now: Shared,
                  err: int, val: Option<string>)
    requires g < |nodes| && Offering(nodes, a, g, Arg, st, EBADKEY) && Offering(nodes, b, g, Args, was, err)
    requires if a == [] then was == st.(next := st.next + 1) else a[0].call.arg == val && a[0].reply.st == was
    requires now == if b == [] then was.(next := was.next - 1) else b[0].reply.st
    ensures Threaded(a + b, st) && LeftBy(a + b, st) == now && SlotsOf(a + b) == Turn(nodes, g) && OfferOnly(a + b, val)
    ensures Refusals(a) && (err == EBADKEY ==> Refusals(a + b))
    ensures err != EBADKEY ==>
              && |b| == 1 && b[0].Called? && OffersArg(b[0])
              && b[0].call.group == g && b[0].call.key == Args && b[0].reply.err == err && b[0].reply.st == now
  {
    TurnTaken(nodes, g, a + b, st);
  }

  // ---- one step ----

  /** The part of a parser's state that the main loop works on. */
  datatype Snap = Snap(st: Shared, tryGetopt: bool, processed: seq<nat>, trace: seq<Event>)

  /** The argument VAL, at index next, has been offered by the calls S: to the
      groups in turn, until one does something else than refuse. That group is
      credited with the arguments it has taken, all of them if it was offered
      all; getopt gets another try if it has moved next back. */
  ghost predicate Offered(nodes: seq<Node>, s: Snap, s': Snap, offers: seq<Event>, val: Option<string>, err: int) {
    var n, rota := |offers|, Rota(nodes, |nodes|);
    && OfferOnly(offers, val) && Threaded(offers, s.st) && SlotsOf(offers) <= rota
    && (forall i :: 0 <= i < n - 1 ==> offers[i].reply.err == EBADKEY)
    && if err == EBADKEY || n == 0 then
         && err == EBADKEY && SlotsOf(offers) == rota && (n > 0 ==> offers[n - 1].reply.err == EBADKEY)
         && s' == s.(st := LeftBy(offers, s.st), trace := s'.trace)
       else
         var last := offers[n - 1];
         && last.reply.err == err
         && if err != 0 then s' == s.(st := last.reply.st, trace := s'.trace)
            else Credited(s, s', last)
  }

  /** What parser_parse_arg makes of a call that has accepted an argument. */
  ghost predicate Credited(s: Snap, s': Snap, e: Event) {
    && e.Called? && e.call.group < |s.processed|
    && var st, g := if e.call.key.Args? then e.reply.st.(next := e.reply.st.argc) else e.reply.st, e.call.group;
       && s'.st == st
       && s'.processed == (if st.next > s.st.next then s.processed[g := s.processed[g] + (st.next - s.st.next)]
                           else s.processed)
       && s'.tryGetopt == (st.next <= s.st.next || s.tryGetopt)
  }

  /** The group of an option: for a short one, the group that the scan over the
      tables finds, and for a long one the group whose number it carries. */
  function OptGroup(nodes: seq<Node>, prefix: seq<int>, opt: int): Option<int> {
    if GroupKeyOf(opt) == 0 then
      var g := ScannedGroup(prefix, nodes, opt);
      if g.Some? then Some(g.value) else None
    else Some(GroupKeyOf(opt) - 1)
  }

  /** The option OPT has been given to its group, if that has a parser. */
  ghost predicate OptionGiven(nodes: seq<Node>, prefix: seq<int>, s: Snap, s': Snap, calls: seq<Event>,
                              opt: int, val: Option<string>, err: int)
  {
    var g := OptGroup(nodes, prefix, opt);
    if g.Some? && 0 <= g.value < |nodes| && nodes[g.value].hasParser then
      && |calls| == 1 && calls[0].Called?
      && calls[0].call.group == g.value && calls[0].call.arg == val && calls[0].call.st == s.st
      && calls[0].call.key == Opt(if GroupKeyOf(opt) == 0 then opt else UserKeyOf(opt))
      && err == calls[0].reply.err
      && s' == s.(st := calls[0].reply.st, trace := s'.trace)
    else
      calls == [] && err == EBADKEY && s' == s
  }

  /** Getopt's answer taken up: a quoted region starts behind a "--" that ends
      the options. */
  function Consulted(s: Snap, a: Answer): Snap {
    var st := s.st.(next := a.optind, argv := a.argv);
    Snap(if a.opt == KEY_END && st.next > 1 && ArgAt(st.argv, st.next - 1) == Some("--") then
           st.(quoted := st.next)
         else
           st,
         s.tryGetopt && a.opt != KEY_END, s.processed, s.trace + [Asked(s.st, a)])
  }

  /** A quoted region that next has left again is forgotten. */
  function Unquoted(s: Snap): Snap {
    if s.st.quoted != 0 && s.st.next < s.st.quoted then s.(st := s.st.(quoted := 0)) else s
  }

  /** Getopt is consulted unless it has given up or next is in a quoted region,
      behind a "--". */
  predicate Asks(s: Snap) {
    s.tryGetopt && (s.st.quoted == 0 || s.st.next < s.st.quoted)
  }

  /** What follows getopt's answer, or comes without one. BAD is the final
      value of arg_ebadkey where it matters. */
  ghost predicate HandledAnswer(nodes: seq<Node>, prefix: seq<int>, a: Option<Answer>, s: Snap, s': Snap, err: int,
                                bad: bool)
  {
    var opt := if a.Some? then a.value.opt else KEY_END;
    && |s.trace| <= |s'.trace| && s'.trace[..|s.trace|] == s.trace
    && var calls := s'.trace[|s.trace|..];
       if a.Some? && opt == KEY_ERR && a.value.optopt != KEY_END then
         s' == s && err == EBADKEY && !bad
       else if opt == KEY_END && (s.st.next >= s.st.argc || s.st.noArgs) then
         s' == s && err == EBADKEY && bad
       else if opt == KEY_END then
         Offered(nodes, s, s', calls, ArgAt(s.st.argv, s.st.next), err) && (err == EBADKEY ==> bad)
       else if opt == KEY_ARG then
         Offered(nodes, s.(st := s.st.(next := s.st.next - 1)), s', calls, a.value.optarg, err)
             && (err == EBADKEY ==> bad)
       else
         OptionGiven(nodes, prefix, s, s', calls, opt, a.value.optarg, err) && (err == EBADKEY ==> !bad)
  }

  /** parser_parse_next. */
  ghost predicate Step(nodes: seq<Node>, prefix: seq<int>, getopt: Getopt, s: Snap, s': Snap, err: int, bad: bool) {
    var s0 := Unquoted(s);
    if Asks(s) then
      var a := getopt(s.trace, s0.st);
      HandledAnswer(nodes, prefix, Some(a), Consulted(s0, a), s', err, bad)
    else
      HandledAnswer(nodes, prefix, None, s0, s', err, bad)
  }

  /** A step from its parts: getopt's answer taken up in MID, and then CALLS. */
  lemma StepTaken(nodes: seq<Node>, prefix: seq<int>, getopt: Getopt, s: Snap, mid: Snap, s': Snap, calls: seq<Event>,
                  err: int, bad: bool)
    requires s'.trace == mid.trace + calls
    requires var a := getopt(s.trace, Unquoted(s).st);
             var opt := if Asks(s) then a.opt else KEY_END;
             && mid == (if Asks(s) then Consulted(Unquoted(s), a) else Unquoted(s))
             && if (Asks(s) && opt == KEY_ERR && a.optopt != KEY_END)
                   || (opt == KEY_END && (mid.st.next >= mid.st.argc || mid.st.noArgs)) then
                  s' == mid && err == EBADKEY && bad == (opt == KEY_END)
                else
                  && (err == EBADKEY ==> bad == (opt == KEY_END || opt == KEY_ARG))
                  && if opt == KEY_END then
                       Offered(nodes, mid, s', calls, ArgAt(mid.st.argv, mid.st.next), err)
                     else if opt == KEY_ARG then
                       Offered(nodes, mid.(st := mid.st.(next := mid.st.next - 1)), s', calls, a.optarg, err)
                     else
                       OptionGiven(nodes, prefix, mid, s', calls, opt, a.optarg, err)
    ensures Step(nodes, prefix, getopt, s, s', err, bad)
  {
    hide Offered, OptionGiven, Consulted, Unquoted;
    assert s'.trace[|mid.trace|..] == calls;
  }

  /** A step that does not consult getopt only offers the element of argv at
      next, or ends the loop. */
  lemma QuotedStep(nodes: seq<Node>, prefix: seq<int>, getopt: Getopt, s: Snap, s': Snap, calls: seq<Event>, err: int,
                   bad: bool)
    requires Step(nodes, prefix, getopt, s, s', err, bad) && s'.trace == s.trace + calls && !Asks(s)
    ensures OfferOnly(calls, ArgAt(s.st.argv, s.st.next)) && OneOffer(calls, err, s'.st)
    ensures s.st.next >= s.st.argc || s.st.noArgs ==> calls == [] && err == EBADKEY && bad
  {
    assert s'.trace[|s.trace|..] == calls;
  }

  function Last(run: seq<Snap>): Snap
    requires run != []
  {
    run[|run| - 1]
  }

  /** The states of a run of the main loop, one step from the next; ERR is the
      result of the last step. */
  ghost predicate Chain(nodes: seq<Node>, prefix: seq<int>, getopt: Getopt, run: seq<Snap>, err: int, bad: bool)
    ensures Chain(nodes, prefix, getopt, run, err, bad) ==> run != []
  {
    && run != []
    && forall i :: 0 <= i < |run| - 1 ==>
         Step(nodes, prefix, getopt, run[i], run[i + 1], if i == |run| - 2 then err else 0, bad)
  }

  lemma ChainStarts(nodes: seq<Node>, prefix: seq<int>, getopt: Getopt, s: Snap)
    ensures forall bad :: Chain(nodes, prefix, getopt, [s], 0, bad)
  {}

  lemma ChainStep(nodes: seq<Node>, prefix: seq<int>, getopt: Getopt, run: seq<Snap>, s: Snap, err: int, bad: bool,
                  bad': bool)
    requires Chain(nodes, prefix, getopt, run, 0, bad) && Step(nodes, prefix, getopt, run[|run| - 1], s, err, bad')
    ensures Chain(nodes, prefix, getopt, run + [s], err, bad')
  {
    hide Step;
    var all := run + [s];
    forall i | 0 <= i < |all| - 1
      ensures Step(nodes, prefix, getopt, all[i], all[i + 1], if i == |all| - 2 then err else 0, bad')
    {
      if i < |all| - 2 {
        SmoothStep(nodes, prefix, getopt, run[i], run[i + 1], bad, bad');
      }
    }
  }

  /** The flag matters only for a step that fails. */
  lemma SmoothStep(nodes: seq<Node>, prefix: seq<int>, getopt: Getopt, s: Snap, s': Snap, bad: bool, bad': bool)
    requires Step(nodes, prefix, getopt, s, s', 0, bad)
    ensures Step(nodes, prefix, getopt, s, s', 0, bad')
  {}

  /** The events between two states. */
  function Since(s: Snap, s': Snap): seq<Event> {
    if |s.trace| <= |s'.trace| then s'.trace[|s.trace|..] else []
  }

  ghost predicate AllOffers(s: seq<Event>) {
    forall i :: 0 <= i < |s| ==> OffersArg(s[i])
  }

  /** Step k only offers, as a non-option, the element of argv at which the step
      before has left next. */
  ghost predicate StepOffers(run: seq<Snap>, k: nat, err: int)
    requires k + 1 < |run|
  {
    var s, s' := run[k], run[k + 1];
    && s.trace <= s'.trace && AllOffers(Since(s, s'))
    && OfferOnly(Since(s, s'), ArgAt(s.st.argv, s.st.next))
    && OneOffer(Since(s, s'), if k == |run| - 2 then err else 0, s'.st)
  }

  lemma QuotedStepOffers(nodes: seq<Node>, prefix: seq<int>, getopt: Getopt, run: seq<Snap>, err: int, bad: bool,
                         k: nat)
    requires Chain(nodes, prefix, getopt, run, err, bad) && k + 1 < |run| && !Asks(run[k])
    ensures StepOffers(run, k, err)
  {
    hide Step;
    var s, s', e := run[k], run[k + 1], if k == |run| - 2 then err else 0;
    assert Step(nodes, prefix, getopt, s, s', e, bad);
    QuotedExtends(nodes, prefix, getopt, s, s', e, bad);
    QuotedStep(nodes, prefix, getopt, s, s', Since(s, s'), e, bad);
  }

  lemma SinceJoin(a: Snap, b: Snap, c: Snap)
    requires a.trace <= b.trace <= c.trace && AllOffers(Since(a, b)) && AllOffers(Since(b, c))
    ensures a.trace <= c.trace && AllOffers(Since(a, c))
  {
    assert Since(a, c) == Since(a, b) + Since(b, c);
  }

  /** Whatever the parsers do: as long as they leave next in a quoted region, or
      getopt has given up and is given no other try, it is not consulted again,
      and the rest of argv is offered as it is. */
  lemma {:induction false} QuotedRun(nodes: seq<Node>, prefix: seq<int>, getopt: Getopt, run: seq<Snap>, err: int,
                                     bad: bool, i: nat, j: nat)
    requires Chain(nodes, prefix, getopt, run, err, bad) && i <= j < |run|
    requires forall k :: i <= k < j ==> !Asks(run[k])
    ensures run[i].trace <= run[j].trace && AllOffers(Since(run[i], run[j]))
    ensures forall k :: i <= k < j ==> StepOffers(run, k, err)
    decreases j - i
  {
    hide Chain, Since, AllOffers, OfferOnly, OneOffer, Asks;
    if i < j {
      QuotedRun(nodes, prefix, getopt, run, err, bad, i, j - 1);
      QuotedStepOffers(nodes, prefix, getopt, run, err, bad, j - 1);
      SinceJoin(run[i], run[j - 1], run[j]);
    } else {
      SinceNone(run[i]);
    }
  }

  lemma SinceNone(s: Snap)
    ensures AllOffers(Since(s, s))
  {}

  lemma QuotedExtends(nodes: seq<Node>, prefix: seq<int>, getopt: Getopt, s: Snap, s': Snap, err: int, bad: bool)
    requires Step(nodes, prefix, getopt, s, s', err, bad) && !Asks(s)
    ensures s.trace <= s'.trace && s'.trace == s.trace + Since(s, s')
  {}

  // ---- the calls before and after the main loop ----

  /** The groups that have been called. */
  function CalledIn(s: seq<Event>): set<nat> {
    set i | 0 <= i < |s| && s[i].Called? :: s[i].call.group
  }

  /** The groups from lo up to hi that have a parser, or those of them that have
      processed no argument. */
  function Due(nodes: seq<Node>, processed: seq<nat>, lo: int, hi: int, onlyIdle: bool): set<nat>
    requires |processed| == |nodes|
  {
    set g | 0 <= g < |nodes| && lo <= g < hi && nodes[g].hasParser && (onlyIdle ==> processed[g] == 0) :: g
  }

  function AllDue(nodes: seq<Node>): set<nat> {
    set g | 0 <= g < |nodes| && nodes[g].hasParser :: g
  }

  /** A sweep goes on after a success or a refusal. */
  predicate Fine(err: int) {
    err == 0 || err == EBADKEY
  }

  /** The calls S stop at the first that fails, */
  ghost predicate Halts(s: seq<Event>) {
    forall i :: 0 <= i < |s| - 1 ==> s[i].Called? && Fine(s[i].reply.err)
  }

  /** and this is the error of that call, or 0. */
  function ErrorOf(s: seq<Event>): (err: int)
    ensures err == 0 || !Fine(err)
  {
    if s != [] && s[|s| - 1].Called? && !Fine(s[|s| - 1].reply.err) then s[|s| - 1].reply.err else 0
  }

  /** Each call finds the state as the one before has left it. */
  ghost predicate Relayed(s: seq<Event>, st: Shared) {
    forall i :: 0 <= i < |s| ==> s[i].Called? && s[i].call.arg.None? && s[i].call.st == LeftBy(s[..i], st)
  }

  /** How far a sweep has come: the groups from lo to hi have been called, the
      state has been handed on, and, if STRICT, it has not gone on after an error. */
  ghost predicate Sweeping(nodes: seq<Node>, processed: seq<nat>, s: seq<Event>, st0: Shared, st: Shared,
                           lo: int, hi: int, onlyIdle: bool, strict: bool, err: int)
    requires |processed| == |nodes|
  {
    && CalledIn(s) == Due(nodes, processed, lo, hi, onlyIdle)
    && Relayed(s, st0) && st == LeftBy(s, st0)
    && (strict ==> Halts(s) && if ErrorOf(s) != 0 then err == ErrorOf(s) else Fine(err))
  }

  lemma SweepingStep(nodes: seq<Node>, processed: seq<nat>, s: seq<Event>, st0: Shared, st: Shared, lo: int, hi: int,
                     onlyIdle: bool, strict: bool, err: int, ev: seq<Event>, st': Shared, err': int, g: nat)
    requires |processed| == |nodes| && g < |nodes| && lo <= hi && (g == lo - 1 || g == hi)
    requires Sweeping(nodes, processed, s, st0, st, lo, hi, onlyIdle, strict, err) && (strict ==> Fine(err))
    requires if nodes[g].hasParser && (onlyIdle ==> processed[g] == 0) then
               && |ev| == 1 && ev[0].Called? && ev[0].call.group == g && ev[0].call.arg.None?
               && ev[0].call.st == st && ev[0].reply.st == st' && ev[0].reply.err == err'
             else
               ev == [] && st' == st && (err' == err || err' == EBADKEY)
    ensures g == lo - 1 ==> Sweeping(nodes, processed, s + ev, st0, st', g, hi, onlyIdle, strict, err')
    ensures g == hi ==> Sweeping(nodes, processed, s + ev, st0, st', lo, g + 1, onlyIdle, strict, err')
  {
    hide CalledIn, Due, Relayed, LeftBy;
    CalledStep(nodes, processed, lo, hi, onlyIdle, s, ev, g);
    RelayedStep(s, ev, st0);
    assert ev == [] ==> s + ev == s;
    assert strict ==> ErrorOf(s) == 0;
    forall i | strict && 0 <= i < |s + ev| - 1
      ensures (s + ev)[i].Called? && Fine((s + ev)[i].reply.err)
    {
      assert (s + ev)[i] == s[i];
    }
  }

  lemma CalledStep(nodes: seq<Node>, processed: seq<nat>, lo: int, hi: int, onlyIdle: bool,
                   s: seq<Event>, ev: seq<Event>, g: nat)
    requires |processed| == |nodes| && g < |nodes| && lo <= hi && (g == lo - 1 || g == hi)
    requires CalledIn(s) == Due(nodes, processed, lo, hi, onlyIdle)
    requires if nodes[g].hasParser && (onlyIdle ==> processed[g] == 0) then |ev| == 1 && ev[0].Called?
            && ev[0].call.group == g
             else ev == []
    ensures g == lo - 1 ==> CalledIn(s + ev) == Due(nodes, processed, g, hi, onlyIdle)
    ensures g == hi ==> CalledIn(s + ev) == Due(nodes, processed, lo, g + 1, onlyIdle)
  {
    forall x: nat
      ensures x in CalledIn(s + ev) <==> x in CalledIn(s) || x in CalledIn(ev)
    {
      if x in CalledIn(s) {
        var i :| 0 <= i < |s| && s[i].Called? && s[i].call.group == x;
        assert (s + ev)[i] == s[i];
      }
      if x in CalledIn(ev) {
        var i :| 0 <= i < |ev| && ev[i].Called? && ev[i].call.group == x;
        assert (s + ev)[|s| + i] == ev[i];
      }
    }
    assert ev != [] ==> g in CalledIn(ev);
  }

  lemma RelayedStep(s: seq<Event>, ev: seq<Event>, st: Shared)
    requires Relayed(s, st) && |ev| <= 1
    requires ev != [] ==> ev[0].Called? && ev[0].call.arg.None? && ev[0].call.st == LeftBy(s, st)
    ensures Relayed(s + ev, st)
    ensures LeftBy(s + ev, st) == if ev == [] then LeftBy(s, st) else ev[0].reply.st
  {
    var all := s + ev;
    assert ev == [] ==> all == s;
    forall i | 0 <= i < |all|
      ensures all[i].Called? && all[i].call.arg.None? && all[i].call.st == LeftBy(all[..i], st)
    {
      if i < |s| {
        assert all[..i] == s[..i] && all[i] == s[i];
      } else {
        assert all[..i] == s && all[i] == ev[0];
      }
    }
  }

  lemma RelayedJoin(a: seq<Event>, b: seq<Event>, st: Shared)
    requires Relayed(a, st) && Relayed(b, LeftBy(a, st))
    ensures Relayed(a + b, st) && LeftBy(a + b, st) == LeftBy(b, LeftBy(a, st))
  {
    var all := a + b;
    forall i | 0 <= i < |all|
      ensures all[i].Called? && all[i].call.arg.None? && all[i].call.st == LeftBy(all[..i], st)
    {
      if i < |a| {
        assert all[..i] == a[..i] && all[i] == a[i];
      } else {
        var k := i - |a|;
        assert all[..i] == a + b[..k] && all[i] == b[k];
        LeftByJoin(a, b[..k], st);
      }
    }
    LeftByJoin(a, b, st);
  }

  /** parser_init's calls: INIT has gone, parents first, to all groups, up to the
      first error. */
  ghost predicate Introduced(nodes: seq<Node>, st: Shared, inits: seq<Event>, err: int) {
    && SweepUp(inits, Init) && Relayed(inits, st) && Halts(inits) && err == ErrorOf(inits)
    && (err == 0 ==> CalledIn(inits) == AllDue(nodes))
  }

  /** The result so far, after all arguments have been parsed and the groups have
      been told: the first error of a parser. */
  function EndError(noArgs: seq<Event>, ends: seq<Event>): int {
    if ErrorOf(noArgs) != 0 then ErrorOf(noArgs) else ErrorOf(ends)
  }

  /** NO_ARGS has gone, parents first, to the groups without arguments, and END,
      children first, to all, up to the first error. */
  ghost predicate AllParsed(nodes: seq<Node>, processed: seq<nat>, st: Shared, noArgs: seq<Event>, ends: seq<Event>)
    requires |processed| == |nodes|
  {
    && SweepUp(noArgs, NoArgs) && SweepDown(ends, End) && Relayed(noArgs + ends, st)
    && Halts(noArgs) && Halts(ends)
    && CalledIn(noArgs) <= Due(nodes, processed, 0, |nodes|, true)
    && if ErrorOf(noArgs) != 0 then ends == []
       else
         && CalledIn(noArgs) == Due(nodes, processed, 0, |nodes|, true)
         && (ErrorOf(ends) == 0 ==> CalledIn(ends) == AllDue(nodes))
  }

  /** The groups have been told how it ended: of ERR0, all of them, or of success,
      children first, up to the first error; and all have been called once more. */
  ghost predicate Concluded(nodes: seq<Node>, st: Shared, told: seq<Event>, finis: seq<Event>, err0: int, err: int) {
    && Relayed(told + finis, st)
    && SweepDown(finis, Fini) && CalledIn(finis) == AllDue(nodes)
    && if err0 != 0 then
         && SweepUp(told, Error) && CalledIn(told) == AllDue(nodes)
         && err == if err0 == EBADKEY then EINVAL else err0
       else
         && SweepDown(told, Success) && Halts(told) && err == ErrorOf(told)
         && (err == 0 ==> CalledIn(told) == AllDue(nodes))
  }

  /** parser_finalize, from the state ST in which the main loop has stopped. */
  ghost predicate Ending(nodes: seq<Node>, processed: seq<nat>, st: Shared, err0: int, bad: bool, wantIndex: bool,
                        noArgs: seq<Event>, ends: seq<Event>, told: seq<Event>, finis: seq<Event>,
                        err: int, endIndex: Option<int>)
    requires |processed| == |nodes|
  {
    var stopped := if err0 == EBADKEY && bad then 0 else err0;
    if stopped == 0 && st.next == st.argc then
      && AllParsed(nodes, processed, st, noArgs, ends)
      && Concluded(nodes, LeftBy(noArgs + ends, st), told, finis, EndError(noArgs, ends), err)
      && endIndex == if wantIndex then Some(LeftBy(noArgs + ends, st).next) else None
    else
      && noArgs == [] && ends == []
      && Concluded(nodes, st, told, finis, if stopped != 0 then stopped else if wantIndex then 0 else EBADKEY, err)
      && endIndex == if stopped == 0 && wantIndex then Some(st.next) else None
  }

  // ---- whole runs ----

  /** The events of a run, part by part. */
  datatype Calls = Calls(
    inits: seq<Event>,
    body: seq<Event>,
    noArgs: seq<Event>,
    ends: seq<Event>,
    told: seq<Event>,
    finis: seq<Event>)
  {
    function All(): seq<Event> {
      inits + body + noArgs + ends + told + finis
    }
  }

  /** The states of the main loop, and what its last step has reported. */
  datatype Loop = Loop(states: seq<Snap>, err: int, bad: bool)

  /** parser_finalize after the main loop. */
  ghost predicate Final(nodes: seq<Node>, processed: seq<nat>, loop: Loop, wantIndex: bool, calls: Calls,
                        err: int, endIndex: Option<int>)
    requires |processed| == |nodes|
  {
    && loop.states != []
    && Ending(nodes, processed, Last(loop.states).st, loop.err, loop.bad, wantIndex,
              calls.noArgs, calls.ends, calls.told, calls.finis, err, endIndex)
  }
}
