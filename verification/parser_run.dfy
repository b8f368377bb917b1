/** The driver of argp-parse.c: parser_init, parser_parse_next and what it
    calls, parser_finalize and argp_parse itself. */
module ParserRun {
  import opened Wrappers
  import opened Tables
  import opened Convert
  import opened Protocol
  import opened ParserTrace
  import opened ParserStep
  import opened ParserCount
  import opened ParserOutcome
  import opened Sequences

  class Parser {
    /** The tables, the groups in them, and the character the short options
        string starts with. */
    const tables: Conversion
    const nodes: seq<Node>
    const prefix: seq<int>
    const user: User
    const getopt: Getopt
    var st: Shared
    var tryGetopt: bool
    var optarg: Option<string>
    var hooks: seq<Ptr>
    var inputs: seq<Ptr>
    var processed: seq<nat>
    var slots: seq<Ptr>
    var trace: seq<Event>

    /** The storage fits the groups, the hook fields are the groups' own, and so
        are the numbers of arguments. */
    ghost predicate Valid()
      reads this, tables, tables.shortOpts, tables.longOpts, tables.groups
    {
      Sound() && Counted()
    }

    /** Each group is credited with the arguments it has taken. */
    ghost predicate Counted()
      reads this
    {
      |processed| == |nodes| && forall g: nat :: g < |nodes| ==> processed[g] == Taken(trace, g)
    }

    /** What also holds between the acceptance of an argument and its crediting. */
    ghost predicate Sound()
      reads this, tables, tables.shortOpts, tables.longOpts, tables.groups
    {
      && Compiled()
      && |hooks| == |inputs| == |processed| == |nodes|
      && |slots| >= InputSum(nodes)
      && KeepsSize(user) && Sane(getopt, nodes)
      && HooksApart(trace) && CountsApart(trace) && Genuine(trace, user, getopt)
      && forall g: nat :: g < |nodes| ==> hooks[g] == LastHook(trace, g)
    }

    /** The tables are those of the groups. */
    ghost predicate Compiled()
      reads tables, tables.shortOpts, tables.longOpts, tables.groups
    {
      tables.Valid() && tables.nodes == nodes && tables.prefix == prefix && 0 !in prefix && |prefix| <= 1
    }

    constructor (tables: Conversion, nodes: seq<Node>, prefix: seq<int>, user: User, getopt: Getopt,
                 argc: int, argv: seq<string>, noArgs: bool)
      requires tables.Valid() && tables.nodes == nodes && tables.prefix == prefix && 0 !in prefix && |prefix| <= 1
      requires KeepsSize(user) && Sane(getopt, nodes)
      ensures Valid() && this.tables == tables && this.nodes == nodes && this.prefix == prefix && this.user == user
              && this.getopt == getopt
      ensures st == Shared(argc, argv, 0, 0, noArgs) && tryGetopt && trace == []
      ensures processed == seq(|nodes|, _ => 0) && inputs == seq(|nodes|, _ => 0)
      ensures slots == seq(InputSum(nodes), _ => 0)
    {
      this.tables, this.nodes, this.prefix, this.user, this.getopt := tables, nodes, prefix, user, getopt;
      st := Shared(argc, argv, 0, 0, noArgs);
      tryGetopt, optarg := true, None;
      hooks, inputs := seq(|nodes|, _ => 0), seq(|nodes|, _ => 0);
      processed := seq(|nodes|, _ => 0);
      slots := seq(InputSum(nodes), _ => 0);
      trace := [];
    }

    /** What the main loop works on, at this moment. */
    ghost function Now(): Snap
      reads this
    {
      Snap(st, tryGetopt, processed, trace)
    }

    /** The state as group_parse prepares it for a call of group g. */
    function CallOf(g: nat, key: Key, arg: Option<string>): Call
      requires |hooks| == |inputs| == |processed| == |nodes| && g < |nodes|
      reads this
    {
      Call(g, key, arg, st, hooks[g], inputs[g], processed[g], slots)
    }

    /** group_parse; EV is the call made, if the group has a parser. */
    method GroupParse(g: nat, key: Key, arg: Option<string>) returns (err: int, ghost ev: seq<Event>)
      requires Valid() && g < |nodes|
      modifies this`st, this`hooks, this`slots, this`trace
      ensures Sound() && (!(key.Arg? || key.Args?) || err != 0 ==> Counted())
      ensures |slots| == old(|slots|) && trace == old(trace) + ev
      ensures nodes[g].hasParser ==>
                ev == [Called(old(CallOf(g, key, arg)), user(old(trace), old(CallOf(g, key, arg))))]
      ensures ev != [] ==>
                && nodes[g].hasParser && |ev| == 1 && ev[0].Called?
                && ev[0].call.group == g && ev[0].call.key == key && ev[0].call.arg == arg && ev[0].call.st == old(st)
                && ev[0].reply == user(old(trace), ev[0].call)
                && ev[0].call.argNum == old(processed)[g] && ev[0].call.hook == old(hooks)[g]
                && ev[0].call.slots == old(slots) && ev[0].call.input == inputs[g]
                && ev[0].reply.err == err && ev[0].reply.st == st && ev[0].reply.slots == slots
      ensures ev == [] ==> !nodes[g].hasParser && err == EBADKEY && st == old(st) && slots == old(slots)
      ensures Stepped(nodes, old(trace), trace, key, g)
    {
      hide Compiled, Taken;
      ev := [];
      if nodes[g].hasParser {
        var call := CallOf(g, key, arg);
        var reply := user(trace, call);
        var event := Called(call, reply);
        HooksAfter(trace, event);
        CountsAfter(trace, event);
        GenuineAfter(trace, user, getopt, event);
        forall i: nat
          ensures PhaseAt(trace + [event], i) == if i == g then Next(PhaseAt(trace, i), key) else PhaseAt(trace, i)
        {
          PhaseAfterCall(trace, event, i);
        }
        st, slots, hooks := reply.st, reply.slots, hooks[g := reply.hook];
        trace, ev := trace + [event], [event];
        err := reply.err;
      } else {
        err := EBADKEY;
      }
    }

    // ---- arguments ----

    /** LAST is group g's answer ERR to an offer by KEY, unless that too was a
        refusal. */
    ghost predicate Answered(last: seq<Event>, g: int, key: Key, err: int)
      reads this
    {
      if err == EBADKEY then last == []
      else
        && |last| == 1 && OffersArg(last[0])
        && last[0].call.group == g && last[0].call.key == key && last[0].reply.err == err && last[0].reply.st == st
    }

    /** Offer an argument by itself, with next behind it. */
    method OfferOne(g: nat, val: Option<string>) returns (err: int, ghost ev: seq<Event>)
      requires Valid() && g < |nodes| && AllOpen(nodes, trace, 0, |nodes|)
      modifies this`st, this`hooks, this`slots, this`trace
      ensures Sound() && (err != 0 ==> Counted()) && AllOpen(nodes, trace, 0, |nodes|) && trace == old(trace) + ev
      ensures Offering(nodes, ev, g, Arg, old(st), err)
      ensures if ev == [] then st == old(st).(next := old(st.next) + 1)
              else ev[0].call.arg == val && ev[0].reply.st == st
      ensures nodes[g].hasParser ==> PhaseAt(trace, g).AfterArg?
      ensures Polite(user) && err == EBADKEY ==> st.next == old(st.next) + 1
      ensures Forward(user) ==> st == old(st).(next := st.next) && st.next >= old(st.next) + 1
    {
      hide Compiled, PhaseAt, LastHook, InputSum, HooksApart, Sane, KeepsSize, CountsApart, Taken, AllOpen, Stepped;
      hide Genuine;
      st := st.(next := st.next + 1);
      err, ev := GroupParse(g, Arg, val);
      OpenAfter(nodes, old(trace), trace, Arg, g);
    }

    /** Put a refused argument back, and offer it together with all that remain. */
    method OfferRest(g: nat) returns (err: int, ghost ev: seq<Event>)
      requires Valid() && g < |nodes| && AllOpen(nodes, trace, 0, |nodes|)
      requires nodes[g].hasParser ==> PhaseAt(trace, g).AfterArg?
      modifies this`st, this`hooks, this`slots, this`trace
      ensures Sound() && (err != 0 ==> Counted()) && AllOpen(nodes, trace, 0, |nodes|) && trace == old(trace) + ev
      ensures Offering(nodes, ev, g, Args, old(st), err)
      ensures st == if ev == [] then old(st).(next := old(st.next) - 1) else ev[0].reply.st
      ensures Polite(user) && err == EBADKEY ==> st.next == old(st.next) - 1
      ensures Forward(user) ==> st == old(st).(next := st.next) && st.next >= old(st.next) - 1
    {
      hide Compiled, PhaseAt, LastHook, InputSum, HooksApart, Sane, KeepsSize, CountsApart, Taken, AllOpen, Stepped;
      hide Genuine;
      st := st.(next := st.next - 1);
      err, ev := GroupParse(g, Args, None);
      OpenAfter(nodes, old(trace), trace, Args, g);
    }

    /** Offer an argument to one group, first by itself and then, with the
        pointer put back, together with all that remain. */
    method TryGroup(g: nat, val: Option<string>)
        returns (err: int, key: Key, ghost refused: seq<Event>, ghost last: seq<Event>)
      requires Valid() && g < |nodes| && AllOpen(nodes, trace, 0, |nodes|)
      modifies this`st, this`hooks, this`slots, this`trace
      ensures Sound() && (err != 0 ==> Counted()) && AllOpen(nodes, trace, 0, |nodes|)
      ensures trace == old(trace) + refused + last && Refusals(refused) && Answered(last, g, key, err)
      ensures OfferOnly(refused + last, val)
      ensures Threaded(refused + last, old(st)) && st == LeftBy(refused + last, old(st))
      ensures if err == EBADKEY then SlotsOf(refused + last) == Turn(nodes, g)
              else SlotsOf(refused + last) <= Turn(nodes, g)
      ensures Polite(user) && err == EBADKEY ==> st.next == old(st.next)
      ensures Forward(user) ==>
                st == old(st).(next := st.next) && st.next >= old(st.next)
                && (err != EBADKEY && key.Arg? ==> st.next > old(st.next))
    {
      hide Compiled, PhaseAt, LastHook, InputSum, HooksApart, Sane, KeepsSize, CountsApart, Taken, AllOpen, Stepped;
      hide Genuine, Sound, Counted, Threaded, SlotsOf, Turn, LeftBy, OfferOnly, Polite, Forward, Refusals, Offering;
      key, refused := Arg, [];
      err, last := OfferOne(g, val);
      if err == EBADKEY {
        ghost var first, was := last, st;
        err, last := OfferRest(g);
        BothTaken(nodes, g, first, last, old(st), was, st, err, val);
        ConcatAssoc(old(trace), first, last);
        key, refused := Args, first;
        if err == EBADKEY {
          refused, last := first + last, [];
          ConcatEmpty(refused);
          ConcatEmpty(trace);
        }
      } else {
        FirstTaken(nodes, g, last, old(st), st, err, val);
        ConcatEmpty(last);
        ConcatEmpty(old(trace));
      }
    }

    /** The loop of parser_parse_arg: ask one group after the other until one
        does something else than refuse. */
    method OfferAll(val: Option<string>)
        returns (err: int, key: Key, g: nat, ghost refused: seq<Event>, ghost last: seq<Event>)
      requires Valid() && AllOpen(nodes, trace, 0, |nodes|)
      modifies this`st, this`hooks, this`slots, this`trace
      ensures Sound() && (err != 0 ==> Counted()) && AllOpen(nodes, trace, 0, |nodes|)
      ensures trace == old(trace) + refused + last && Refusals(refused) && OfferOnly(refused + last, val)
      ensures g <= |nodes| && Answered(last, g - 1, key, err) && (err != EBADKEY ==> g > 0)
      ensures Threaded(refused + last, old(st)) && st == LeftBy(refused + last, old(st))
      ensures SlotsOf(refused + last) <= Rota(nodes, |nodes|)
      ensures err == EBADKEY ==> SlotsOf(refused + last) == Rota(nodes, |nodes|)
      ensures Polite(user) && err == EBADKEY ==> st.next == old(st.next)
      ensures Forward(user) ==>
                st == old(st).(next := st.next) && st.next >= old(st.next)
                && (err != EBADKEY && key.Arg? ==> st.next > old(st.next))
    {
      hide Compiled, PhaseAt, LastHook, InputSum, HooksApart, Sane, KeepsSize, CountsApart, Taken, OfferOnly, Genuine;
      hide Threaded, SlotsOf;
      hide Turn, LeftBy;
      err, key, g, refused, last := EBADKEY, Opt(0), 0, [], [];
      NothingOffered(val);
      while g < |nodes| && err == EBADKEY
        invariant g <= |nodes| && Sound() && (err != 0 ==> Counted()) && AllOpen(nodes, trace, 0, |nodes|)
        invariant trace == old(trace) + refused + last && Refusals(refused) && OfferOnly(refused + last, val)
        invariant Answered(last, g - 1, key, err) && (err != EBADKEY ==> g > 0)
        invariant Threaded(refused + last, old(st)) && st == LeftBy(refused + last, old(st))
        invariant SlotsOf(refused + last) <= Rota(nodes, g)
                && (err == EBADKEY ==> SlotsOf(refused + last) == Rota(nodes, g))
        invariant Polite(user) && err == EBADKEY ==> st.next == old(st.next)
        invariant Forward(user) ==> st == old(st).(next := st.next) && st.next >= old(st.next)
                                    && (err != EBADKEY && key.Arg? ==> st.next > old(st.next))
        decreases |nodes| - g
      {
        ghost var r, l;
        err, key, r, l := TryGroup(g, val);
        OffersJoin(refused + last, r + l, val);
        ThreadedJoin(refused + last, r + l, old(st));
        assert refused + r + l == refused + last + (r + l);
        refused, last := refused + r, l;
        g := g + 1;
      }
      RotaPrefix(nodes, g, |nodes|);
    }

    lemma NothingOffered(val: Option<string>)
      ensures OfferOnly([] + [], val) && SlotsOf([] + []) == []
      ensures forall s :: Threaded([] + [], s) && LeftBy([] + [], s) == s
    {}

    lemma OffersJoin(a: seq<Event>, b: seq<Event>, val: Option<string>)
      requires OfferOnly(a, val) && OfferOnly(b, val)
      ensures OfferOnly(a + b, val)
    {}

    /** parser_parse_arg; next points behind the argument VAL. Only the last
        group that was asked may have done something else than refuse. */
    method ParseArg(val: Option<string>) returns (err: int, ghost refused: seq<Event>, ghost last: seq<Event>)
      requires Valid() && AllOpen(nodes, trace, 0, |nodes|) && Settled(trace)
      modifies this
      ensures Valid() && AllOpen(nodes, trace, 0, |nodes|) && inputs == old(inputs) && optarg == old(optarg)
      ensures err == 0 ==> Settled(trace)
      ensures trace == old(trace) + refused + last && Refusals(refused) && OfferOnly(refused + last, val)
      ensures Offered(nodes, old(Now()).(st := old(st).(next := old(st.next) - 1)), Now(), refused + last, val, err)
      ensures if err == EBADKEY then last == []
              else |last| == 1 && OffersArg(last[0]) && last[0].reply.err == err && last[0].call.group < |nodes|
      ensures err != 0 ==> processed == old(processed) && tryGetopt == old(tryGetopt)
      ensures err == 0 ==>
                var after, m, index := last[0].reply.st, last[0].call.group, old(st.next) - 1;
                && st == (if last[0].call.key.Args? then after.(next := after.argc) else after)
                && processed == (if st.next > index then old(processed)[m := old(processed)[m] + (st.next - index)]
                                 else old(processed))
                && tryGetopt == (st.next <= index || old(tryGetopt))
      ensures Polite(user) && err == EBADKEY ==> st.next == old(st.next) - 1
      ensures Forward(user) ==> st == old(st).(next := st.next)
      ensures Forward(user) && old(st.next) <= old(st.argc) ==>
                st.next >= old(st.next) - 1 && (err == 0 ==> st.next >= old(st.next) && tryGetopt == old(tryGetopt))
    {
      hide Compiled, PhaseAt, LastHook, InputSum, HooksApart, Sane, KeepsSize, OfferOnly, Refusals, Polite, Forward;
      hide Genuine, Threaded, SlotsOf, Rota, CountsApart, Taken, Offered, Settled, Amount, Credited;
      st := st.(next := st.next - 1);
      var index := st.next;
      var key, g;
      err, key, g, refused, last := OfferAll(val);
      if err == 0 {
        AcceptedCounts(old(trace), refused, last, old(st).(next := index));
        Credit(g - 1, key, index, last[0]);
      }
      OfferedWhen(old(Now()).(st := old(st).(next := old(st.next) - 1)), Now(), refused, last, val, err);
    }

    /** After an accepted argument, what is still to be credited is what the last
        group has taken. */
    lemma AcceptedCounts(t: seq<Event>, refused: seq<Event>, last: seq<Event>, st0: Shared)
      requires Settled(t) && Refusals(refused) && Threaded(refused + last, st0)
      requires |last| == 1 && OffersArg(last[0]) && last[0].reply.err == 0
      requires SlotsOf(refused + last) <= Rota(nodes, |nodes|)
      ensures Settled(t + refused + last)
      ensures forall g: nat :: Taken(t + refused + last, g)
                               == Taken(t, g) + if last[0].call.group == g then Amount(last[0], st0.next) else 0
    {
      hide Taken, Threaded, SlotsOf, Rota, Amount;
      assert (refused + last)[0] == if refused == [] then last[0] else refused[0];
      OffersStart(nodes, refused + last, |nodes|);
      forall g: nat
        ensures Taken(t + refused + last, g)
                == Taken(t, g) + if last[0].call.group == g then Amount(last[0], st0.next) else 0
      {
        OffersCounted(t, refused, last, st0, g);
      }
    }

    lemma OfferedWhen(s: Snap, s': Snap, refused: seq<Event>, last: seq<Event>, val: Option<string>, err: int)
      requires Refusals(refused) && OfferOnly(refused + last, val) && Threaded(refused + last, s.st)
      requires SlotsOf(refused + last) <= Rota(nodes, |nodes|)
      requires if err == EBADKEY then
                 && last == [] && SlotsOf(refused + last) == Rota(nodes, |nodes|)
                 && s' == s.(st := LeftBy(refused + last, s.st), trace := s'.trace)
               else
                 && |last| == 1 && OffersArg(last[0]) && last[0].reply.err == err
                 && if err != 0 then s' == s.(st := last[0].reply.st, trace := s'.trace) else Credited(s, s', last[0])
      ensures Offered(nodes, s, s', refused + last, val, err)
    {
      hide Threaded, SlotsOf, Rota, OfferOnly, Credited;
      var offers := refused + last;
      assert forall i :: 0 <= i < |refused| ==> offers[i] == refused[i];
      assert last != [] ==> offers[|offers| - 1] == last[0];
    }

    /** The argument at INDEX was accepted: move next, and credit what it has
        passed, or give getopt another try. */
    method Credit(g: nat, key: Key, index: int, ghost e: Event)
      requires Sound() && g < |nodes| && OffersArg(e) && e.call.group == g && e.call.key == key && e.reply.st == st
      requires forall i: nat :: i < |nodes| ==>
                 Taken(trace, i) == processed[i] + if e.call.group == i then Amount(e, index) else 0
      modifies this`st, this`processed, this`tryGetopt
      ensures Valid()
      ensures st == if key.Args? then old(st).(next := old(st).argc) else old(st)
      ensures processed == if st.next > index then old(processed)[g := old(processed)[g] + (st.next - index)]
                           else old(processed)
      ensures tryGetopt == (st.next <= index || old(tryGetopt))
      ensures forall s: Snap :: s.st.next == index && s.processed == old(processed) && s.tryGetopt == old(tryGetopt) ==>
                Credited(s, Now(), e)
    {
      hide Compiled, LastHook, InputSum, HooksApart, Sane, KeepsSize, Genuine, CountsApart, Taken;
      if key.Args? {
        st := st.(next := st.argc);
      }
      if st.next > index {
        processed := processed[g := processed[g] + (st.next - index)];
      } else {
        tryGetopt := true;
      }
    }

    // ---- options ----

    /** parser_parse_opt: the group of a short option is found in the tables; a
        long option carries its group's number. */
    method ParseOpt(opt: int, val: Option<string>) returns (err: int, ghost tail: seq<Event>)
      requires Valid() && AllOpen(nodes, trace, 0, |nodes|) && Settled(trace)
      requires KnownOpt(nodes, opt) && opt != KEY_END && opt != KEY_ARG
      modifies this`st, this`hooks, this`slots, this`trace
      ensures Valid() && AllOpen(nodes, trace, 0, |nodes|) && Settled(trace)
      ensures trace == old(trace) + tail && |tail| <= 1 && Body(tail)
      ensures st.next - old(st.next) == Moves(trace) - Moves(old(trace))
      ensures Forward(user) ==> st == old(st).(next := st.next)
      ensures tail != [] ==>
                && tail[0].Called? && tail[0].call.arg == val && tail[0].reply.err == err
                && if opt < USER_RANGE
                   then ScannedGroup(prefix, nodes, opt) == Some(tail[0].call.group) && tail[0].call.key == Opt(opt)
                   else GroupKeyOf(opt) == tail[0].call.group + 1 && tail[0].call.key == Opt(UserKeyOf(opt))
      ensures tail == [] ==> err == EBADKEY
      ensures OptionGiven(nodes, prefix, old(Now()), Now(), tail, opt, val, err)
    {
      hide Compiled, PhaseAt, LastHook, CountsApart, Taken, InputSum, Moves, ScannedGroup, Genuine, HooksApart;
      var groupKey := GroupKeyOf(opt);
      err, tail := EBADKEY, [];
      if groupKey == 0 {
        var g := FindGroup(opt);
        if g.Some? {
          err, tail := GroupParse(g.value, Opt(opt), val);
        }
      } else {
        err, tail := GroupParse(groupKey - 1, Opt(UserKeyOf(opt)), val);
      }
      if tail == [] {
        assert trace == old(trace);
      } else {
        MovesSnoc(old(trace), tail[0]);
      }
    }

    /** The scan for the group of a short option, on the tables. */
    method FindGroup(opt: int) returns (g: Option<nat>)
      requires Compiled() && opt != 0
      ensures g == ScannedGroup(prefix, nodes, opt)
    {
      g := ShortGroup(tables, |nodes|, opt);
    }

    // ---- one step of the main loop ----

    /** Argument indices, getopt's moves and the parsers' own add up to next. */
    ghost predicate Balanced()
      reads this
    {
      st.next == Moves(trace) + Sum(processed)
    }

    /** Parsing has passed a "--" and next has not been moved back before it. */
    predicate InQuoted()
      reads this
    {
      st.quoted != 0 && st.next >= st.quoted
    }

    /** The part of parser_parse_next that consults getopt. */
    method AskGetopt() returns (opt: int, optopt: int)
      requires Valid()
      modifies this`st, this`trace, this`optarg, this`tryGetopt
      ensures Valid() && KnownOpt(nodes, opt) && Settled(trace)
      ensures var answer := getopt(old(trace), old(st));
              && Now() == Consulted(old(Now()), answer)
              && opt == answer.opt && optopt == answer.optopt && optarg == answer.optarg
      ensures forall i: nat :: PhaseAt(trace, i) == PhaseAt(old(trace), i)
      ensures st.argc == old(st.argc) && st.next <= st.argc && st.noArgs == old(st.noArgs)
      ensures st.next - old(st.next) == Moves(trace) - Moves(old(trace)) + if opt == KEY_ARG then 1 else 0
      ensures if opt == KEY_END && 1 < st.next <= |st.argv| && st.argv[st.next - 1] == "--"
              then st.quoted == st.next else st.quoted == old(st.quoted)
      ensures tryGetopt == (old(tryGetopt) && opt != KEY_END)
    {
      hide Compiled, PhaseAt, LastHook, CountsApart, Taken, Moves, HooksApart, Genuine;
      var answer := getopt(trace, st);
      var event := Asked(st, answer);
      HooksAfter(trace, event);
      CountsAfter(trace, event);
      GenuineAfter(trace, user, getopt, event);
      MovesSnoc(trace, event);
      forall i: nat
        ensures PhaseAt(trace + [event], i) == PhaseAt(trace, i)
      {
        PhaseAfterCall(trace, event, i);
      }
      trace := trace + [event];
      opt, optopt, optarg := answer.opt, answer.optopt, answer.optarg;
      st := st.(next := answer.optind, argv := answer.argv);
      if opt == KEY_END {
        tryGetopt := false;
        if st.next > 1 && ArgAt(st.argv, st.next - 1) == Some("--") {
          st := st.(quoted := st.next);
        }
      }
    }

    /** The beginning of parser_parse_next: forget a quoted region that next has
        left, and consult getopt unless next is in one. */
    method Consult() returns (asked: bool, opt: int, optopt: int)
      requires Valid() && AllOpen(nodes, trace, 0, |nodes|) && Settled(trace)
      modifies this`st, this`trace, this`optarg, this`tryGetopt
      ensures Valid() && AllOpen(nodes, trace, 0, |nodes|) && Settled(trace) && asked == old(Asks(Now()))
      ensures Now() == if asked then Consulted(Unquoted(old(Now())), AnswerTo(old(Now()))) else Unquoted(old(Now()))
      ensures if asked then
                && opt == AnswerTo(old(Now())).opt && optopt == AnswerTo(old(Now())).optopt
                && optarg == AnswerTo(old(Now())).optarg
                && KnownOpt(nodes, opt) && st.next <= st.argc
              else opt == KEY_END && st.next == old(st.next)
      ensures st.next - old(st.next) == Moves(trace) - Moves(old(trace)) + if opt == KEY_ARG then 1 else 0
    {
      hide Compiled, PhaseAt, LastHook, CountsApart, Taken, InputSum, Moves, HooksApart, Sane, KeepsSize, Genuine;
      if st.quoted != 0 && st.next < st.quoted {
        st := st.(quoted := 0);
      }
      asked, opt, optopt := tryGetopt && st.quoted == 0, KEY_END, KEY_END;
      if asked {
        opt, optopt := AskGetopt();
      }
    }

    /** What getopt says in this state. */
    function AnswerTo(s: Snap): Answer {
      getopt(s.trace, Unquoted(s).st)
    }

    /** parser_parse_next. ARGEBADKEY tells, for a result of EBADKEY, that it is
        due to an argument or to the end of what can be parsed. */
    method ParseNext() returns (err: int, argEbadkey: bool, ghost tail: seq<Event>)
      requires Valid() && AllOpen(nodes, trace, 0, |nodes|) && Settled(trace)
      modifies this
      ensures Valid() && AllOpen(nodes, trace, 0, |nodes|) && (err == 0 ==> Settled(trace)) && inputs == old(inputs)
      ensures trace == old(trace) + tail && Body(tail)
      ensures Step(nodes, prefix, getopt, old(Now()), Now(), err, argEbadkey)
      // Getopt is asked first, or not at all.
      ensures old(tryGetopt && !InQuoted()) <==> tail != [] && tail[0].Asked?
      ensures forall i :: 0 < i < |tail| ==> tail[i].Called?
      ensures tail != [] && tail[0].Asked? ==>
                var st0 := old(st).(quoted := 0); tail[0] == Asked(st0, getopt(old(trace), st0))
      // An argument is the one getopt hands over, or else the element of argv at next.
      ensures forall i :: 0 <= i < |tail| && tail[i].Called? && tail[i].call.key.Arg? ==>
                if tail[0].Called? then OffersElement(tail[i], old(st.argv), old(st.next))
                else if tail[0].answer.opt == KEY_ARG then tail[i].call.arg == tail[0].answer.optarg
                else OffersElement(tail[i], tail[0].answer.argv, tail[0].answer.optind)
      ensures Polite(user) && Forward(user) && old(Balanced()) && (err == 0 || err == EBADKEY) ==> Balanced()
      ensures old(!Asks(Now())) && Forward(user) ==>
                && st == old(Unquoted(Now())).st.(next := st.next) && (err == 0 ==> st.next > old(st.next))
                && (old(!tryGetopt) ==> !tryGetopt)
    {
      hide Compiled, PhaseAt, LastHook, CountsApart, Taken, InputSum, Moves, Sum, HooksApart, Sane, KeepsSize, Polite;
      hide Forward, Genuine, Offered, OptionGiven, AllOpen, Step, HandledAnswer, OffersElement, Settled;
      err, argEbadkey := EBADKEY, true;
      var asked, opt, optopt := Consult();
      ghost var mid, more := Now(), [];
      if asked && opt == KEY_ERR && optopt != KEY_END {
        argEbadkey := false;
      } else if opt == KEY_END && (st.next >= st.argc || st.noArgs) {
      } else {
        err, argEbadkey, more := Proceed(opt);
      }
      tail := (if asked then [mid.trace[|mid.trace| - 1]] else []) + more;
      assert trace == mid.trace + more;
      StepTaken(nodes, prefix, getopt, old(Now()), mid, Now(), more, err, argEbadkey);
    }

    /** E offers the element of argv at index n, if there is one. */
    ghost predicate OffersElement(e: Event, argv: seq<string>, n: int) {
      e.Called? && e.call.arg == if 0 <= n < |argv| then Some(argv[n]) else None
    }

    /** The rest of it: take the next argument itself if getopt does not, and
        hand OPT and optarg on. */
    method Proceed(opt0: int) returns (err: int, argEbadkey: bool, ghost tail: seq<Event>)
      requires Valid() && AllOpen(nodes, trace, 0, |nodes|) && Settled(trace) && KnownOpt(nodes, opt0)
      modifies this
      ensures Valid() && AllOpen(nodes, trace, 0, |nodes|) && (err == 0 ==> Settled(trace)) && inputs == old(inputs)
      ensures trace == old(trace) + tail && Body(tail)
      ensures if opt0 == KEY_END then
                Offered(nodes, old(Now()), Now(), tail, ArgAt(old(st.argv), old(st.next)), err)
              else if opt0 == KEY_ARG then
                Offered(nodes, old(Now()).(st := old(st).(next := old(st.next) - 1)), Now(), tail, old(optarg), err)
              else
                OptionGiven(nodes, prefix, old(Now()), Now(), tail, opt0, old(optarg), err)
      ensures forall i :: 0 <= i < |tail| ==>
                && tail[i].Called?
                && (tail[i].call.key.Arg? ==>
                      if opt0 == KEY_ARG then tail[i].call.arg == old(optarg)
                      else OffersElement(tail[i], old(st.argv), old(st.next)))
      ensures err == EBADKEY ==> argEbadkey == (opt0 == KEY_END || opt0 == KEY_ARG)
      ensures Forward(user) ==> st == old(st).(next := st.next)
      ensures Forward(user) && opt0 == KEY_END && old(st.next) < old(st.argc) ==>
                tryGetopt == old(tryGetopt) && (err == 0 ==> st.next > old(st.next))
      ensures Polite(user) && Forward(user) && (err == 0 || err == EBADKEY)
              && (if opt0 == KEY_END then old(st.next) < old(st.argc) else old(st.next) <= old(st.argc))
              && old(st.next) == Moves(old(trace)) + Sum(old(processed)) + (if opt0 == KEY_ARG then 1 else 0)
              ==> Balanced()
    {
      hide Compiled, PhaseAt, LastHook, CountsApart, Taken, InputSum, Moves, Sum, HooksApart, Sane, KeepsSize, Polite;
      hide Forward;
      hide Genuine, Offered, OptionGiven, Body, AllOpen;
      var opt := opt0;
      if opt == KEY_END {
        opt := KEY_ARG;
        optarg := ArgAt(st.argv, st.next);
        st := st.(next := st.next + 1);
      }
      err, tail := ParseOne(opt);
      argEbadkey := opt == KEY_ARG;
    }

    /** The end of parser_parse_next: hand OPT and optarg on. */
    method ParseOne(opt: int) returns (err: int, ghost tail: seq<Event>)
      requires Valid() && AllOpen(nodes, trace, 0, |nodes|) && Settled(trace) && KnownOpt(nodes, opt) && opt != KEY_END
      modifies this
      ensures Valid() && AllOpen(nodes, trace, 0, |nodes|) && (err == 0 ==> Settled(trace)) && inputs == old(inputs)
      ensures trace == old(trace) + tail && Body(tail)
      ensures forall i :: 0 <= i < |tail| ==>
                tail[i].Called? && (tail[i].call.key.Arg? ==> opt == KEY_ARG && tail[i].call.arg == old(optarg))
      ensures if opt == KEY_ARG
              then Offered(nodes, old(Now()).(st := old(st).(next := old(st.next) - 1)), Now(), tail, old(optarg), err)
              else OptionGiven(nodes, prefix, old(Now()), Now(), tail, opt, old(optarg), err)
      ensures Forward(user) ==> st == old(st).(next := st.next)
      ensures Forward(user) && opt == KEY_ARG && old(st.next) <= old(st.argc) ==>
                tryGetopt == old(tryGetopt) && (err == 0 ==> st.next >= old(st.next))
      ensures Polite(user) && Forward(user) && old(st.next) <= old(st.argc) && (err == 0 || err == EBADKEY)
              && old(st.next) == Moves(old(trace)) + Sum(old(processed)) + (if opt == KEY_ARG then 1 else 0)
              ==> Balanced()
    {
      hide Compiled, PhaseAt, LastHook, CountsApart, Taken, InputSum, Moves, Sum, HooksApart, Sane, KeepsSize, Polite;
      hide Forward;
      hide Genuine, Offered, OptionGiven;
      if opt == KEY_ARG {
        ghost var refused, last;
        err, refused, last := ParseArg(optarg);
        tail := refused + last;
        assert trace == old(trace) + tail;
        OffersDoNotMove(old(trace), tail);
        if processed != old(processed) {
          ghost var m := last[0].call.group;
          SumUpdate(old(processed), m, processed[m]);
        }
      } else {
        err, tail := ParseOpt(opt, optarg);
      }
    }

    // ---- the sweeps of parser_init and parser_finalize ----

    /** A sweep over the groups in descending order; unless ALL is set it stops
        at an error other than EBADKEY. REACHED is the last group asked. */
    method SendDown(key: Key, err0: int, all: bool) returns (err: int, ghost sweep: seq<Event>, ghost reached: nat)
      requires Valid() && !key.Arg? && !key.Args?
      modifies this`st, this`hooks, this`slots, this`trace
      ensures Valid() && trace == old(trace) + sweep && SweepDown(sweep, key) && reached <= |nodes|
      ensures Swept(nodes, old(trace), trace, key, reached, |nodes|, false, processed)
      ensures Sweeping(nodes, processed, sweep, old(st), st, reached, |nodes|, false, !all && Fine(err0), err)
      ensures all || Fine(err) ==> reached == 0
      ensures !all && !Fine(err0) ==> sweep == [] && err == err0
    {
      hide Compiled, PhaseAt, LastHook, CountsApart, Taken, InputSum, HooksApart, Sane, KeepsSize, Next, SweepDown;
      hide Stepped, Sweeping;
      hide Genuine;
      err, sweep := err0, [];
      var g: nat := |nodes|;
      NoSweep(key);
      NoSweeping(st, |nodes|, false, !all && Fine(err0), err);
      while g > 0 && (all || Fine(err))
        invariant g <= |nodes| && Valid() && trace == old(trace) + sweep
        invariant SweepDown(sweep, key) && Between(sweep, g, |nodes|)
        invariant Swept(nodes, old(trace), trace, key, g, |nodes|, false, processed)
        invariant Sweeping(nodes, processed, sweep, old(st), st, g, |nodes|, false, !all && Fine(err0), err)
        invariant !all && !Fine(err0) ==> sweep == [] && err == err0
        decreases g
      {
        g := g - 1;
        ghost var ev, t, before, e := [], trace, st, err;
        err, ev := GroupParse(g, key, None);
        SweptStep(nodes, old(trace), t, trace, key, g + 1, |nodes|, false, processed, g);
        SweepingStep(nodes, processed, sweep, old(st), before, g + 1, |nodes|, false, !all && Fine(err0), e,
                     ev, st, err, g);
        SweepDownStep(sweep, ev, key, g, g + 1, |nodes|);
        sweep := sweep + ev;
      }
      reached := g;
    }

    lemma NoSweep(key: Key)
      ensures SweepDown([], key) && SweepUp([], key)
    {}

    lemma NoSweeping(st: Shared, at: nat, onlyIdle: bool, strict: bool, err: int)
      requires |processed| == |nodes| && (strict ==> Fine(err))
      ensures Sweeping(nodes, processed, [], st, st, at, at, onlyIdle, strict, err)
    {}

    /** A sweep in ascending order over all groups, or over those that have not
        processed an argument. */
    method SendUp(key: Key, onlyIdle: bool, all: bool) returns (err: int, ghost sweep: seq<Event>, ghost reached: nat)
      requires Valid() && !key.Arg? && !key.Args?
      modifies this`st, this`hooks, this`slots, this`trace
      ensures Valid() && trace == old(trace) + sweep && SweepUp(sweep, key) && reached <= |nodes|
      ensures Swept(nodes, old(trace), trace, key, 0, reached, onlyIdle, processed)
      ensures Sweeping(nodes, processed, sweep, old(st), st, 0, reached, onlyIdle, !all, err)
      ensures all || Fine(err) ==> reached == |nodes|
    {
      hide Compiled, PhaseAt, LastHook, CountsApart, Taken, InputSum, HooksApart, Sane, KeepsSize, Next, SweepUp;
      hide Stepped, Sweeping;
      hide Genuine;
      err, sweep := 0, [];
      var g: nat := 0;
      NoSweep(key);
      NoSweeping(st, 0, onlyIdle, !all, err);
      while g < |nodes| && (all || Fine(err))
        invariant g <= |nodes| && Valid() && trace == old(trace) + sweep
        invariant SweepUp(sweep, key) && Between(sweep, 0, g)
        invariant Swept(nodes, old(trace), trace, key, 0, g, onlyIdle, processed)
        invariant Sweeping(nodes, processed, sweep, old(st), st, 0, g, onlyIdle, !all, err)
      {
        ghost var ev, t, before, e := [], trace, st, err;
        if !onlyIdle || processed[g] == 0 {
          err, ev := GroupParse(g, key, None);
        }
        SweptStep(nodes, old(trace), t, trace, key, 0, g, onlyIdle, processed, g);
        SweepingStep(nodes, processed, sweep, old(st), before, 0, g, onlyIdle, !all, e, ev, st, err, g);
        SweepUpStep(sweep, ev, key, g);
        sweep := sweep + ev;
        g := g + 1;
      }
      reached := g;
    }

    /** The calls parser_finalize makes when everything has been parsed. */
    method FinishArgs() returns (err: int, ghost noArgs: seq<Event>, ghost ends: seq<Event>)
      requires Valid() && AllOpen(nodes, trace, 0, |nodes|)
      modifies this`st, this`hooks, this`slots, this`trace
      ensures Valid() && trace == old(trace) + noArgs + ends
      ensures AllParsed(nodes, processed, old(st), noArgs, ends) && st == LeftBy(noArgs + ends, old(st))
      ensures AllMayFinish(nodes, trace)
      ensures err == EndError(noArgs, ends)
    {
      hide Compiled, PhaseAt, LastHook, CountsApart, Taken, InputSum, HooksApart, Sane, KeepsSize, SweepUp, SweepDown;
      hide Genuine;
      hide Relayed, Halts, CalledIn, Due, AllDue, LeftBy, ErrorOf;
      ghost var r1, r2, t;
      err, noArgs, r1 := SendUp(NoArgs, true, false);
      t := trace;
      err, ends, r2 := SendDown(End, err, false);
      EndedPhases(nodes, old(trace), t, trace, r1, r2, processed);
      RelayedJoin(noArgs, ends, old(st));
      DueAll(nodes, processed, r1);
      NoErrors();
      if err == EBADKEY {
        err := 0;
      }
    }

    lemma NoErrors()
      ensures ErrorOf([]) == 0 && Halts([]) && CalledIn([]) == {}
    {}

    lemma DueAll(nodes: seq<Node>, processed: seq<nat>, n: nat)
      requires |processed| == |nodes| && n <= |nodes|
      ensures Due(nodes, processed, 0, |nodes|, false) == AllDue(nodes)
      ensures Due(nodes, processed, 0, n, true) <= Due(nodes, processed, 0, |nodes|, true)
    {}

    /** The rest of parser_finalize, once it is known whether ERR is to be told
        to the groups. */
    method Conclude(err0: int) returns (err: int, ghost told: seq<Event>, ghost finis: seq<Event>)
      requires Valid() && AllMayFinish(nodes, trace)
      modifies this`st, this`hooks, this`slots, this`trace
      ensures Valid() && trace == old(trace) + told + finis
      ensures Concluded(nodes, old(st), told, finis, err0, err)
      ensures AllDone(nodes, trace, err0 != 0)
      ensures err == 0 ==> AllToldSuccess(nodes, trace)
      ensures err != EBADKEY && (err0 != 0 ==> err == if err0 == EBADKEY then EINVAL else err0)
    {
      hide Compiled, PhaseAt, LastHook, CountsApart, Taken, InputSum, HooksApart, Sane, KeepsSize, SweepUp, SweepDown;
      hide Swept, Genuine;
      hide Relayed, Halts, CalledIn, Due, AllDue, LeftBy, ErrorOf;
      err := err0;
      ghost var r1, r2, t;
      var ignored;
      if err != 0 {
        ignored, told, r1 := SendUp(Error, false, true);
      } else {
        err, told, r1 := SendDown(Success, err, false);
        if err == EBADKEY {
          err := 0;
        }
      }
      t := trace;
      ignored, finis, r2 := SendDown(Fini, 0, true);
      DonePhases(nodes, old(trace), t, trace, r1, err0 != 0, processed);
      RelayedJoin(told, finis, old(st));
      DueAll(nodes, processed, |nodes|);
      if err == EBADKEY {
        err := EINVAL;
      }
    }

    /** parser_finalize after a run that ended with ERR. WANTINDEX tells whether
        the caller has a place for the index of the first unparsed argument. */
    method Finalize(err0: int, argEbadkey: bool, wantIndex: bool)
        returns (err: int, endIndex: Option<int>,
                 ghost noArgs: seq<Event>, ghost ends: seq<Event>, ghost told: seq<Event>, ghost finis: seq<Event>)
      requires Valid() && AllOpen(nodes, trace, 0, |nodes|)
      modifies this`st, this`hooks, this`slots, this`trace
      ensures Valid() && trace == old(trace) + noArgs + ends + told + finis
      ensures Ending(nodes, processed, old(st), err0, argEbadkey, wantIndex, noArgs, ends, told, finis, err, endIndex)
      ensures AllDone(nodes, trace, true) || AllDone(nodes, trace, false)
      ensures err == 0 ==> AllToldSuccess(nodes, trace)
      ensures err != EBADKEY
      // Success means that all has been parsed, or that the caller is told how far.
      ensures err == 0 ==> wantIndex || old(st.next) == old(st.argc)
      ensures err == 0 ==> err0 == 0 || (err0 == EBADKEY && argEbadkey)
      ensures err0 == EBADKEY && argEbadkey && !wantIndex && old(st.next) != old(st.argc) ==>
                err == EINVAL && AllDone(nodes, trace, true)
      ensures err0 == EBADKEY && !argEbadkey ==> err == EINVAL && AllDone(nodes, trace, true)
      ensures err0 != EBADKEY && err0 != 0 ==> err == err0 && AllDone(nodes, trace, true)
      ensures endIndex.Some? <==> wantIndex && (err0 == 0 || (err0 == EBADKEY && argEbadkey))
      ensures endIndex.Some? && old(st.next) != old(st.argc) ==> endIndex.value == old(st.next)
    {
      hide Compiled, PhaseAt, LastHook, CountsApart, Taken, InputSum, HooksApart, Sane, KeepsSize, AllDone;
      hide AllToldSuccess, Genuine;
      hide AllParsed, Concluded;
      err, endIndex, noArgs, ends := err0, None, [], [];
      if err == EBADKEY && argEbadkey {
        err := 0;
      }
      if err == 0 {
        if st.next == st.argc {
          err, noArgs, ends := FinishArgs();
          if wantIndex {
            endIndex := Some(st.next);
          }
        } else if wantIndex {
          endIndex := Some(st.next);
        } else {
          err := EBADKEY;
        }
      }
      err, told, finis := Conclude(err);
    }

    // ---- parser_init ----

    /** One turn of parser_init's loop: take the input from the parent's slot,
        hand it on if there is no parser, and call the group. */
    method InitGroup(g: nat, ghost snaps: seq<seq<Ptr>>) returns (err: int, ghost ev: seq<Event>)
      requires Valid() && LaidOut(nodes) && g == |snaps| < |nodes|
      requires OwnSlice(user, nodes) ==> SlicesKept(nodes, slots, snaps)
      requires st.next == Moves(trace)
      modifies this`st, this`hooks, this`slots, this`trace, this`inputs
      ensures Valid() && trace == old(trace) + ev && |ev| <= 1 && |slots| == old(|slots|)
      ensures st.next == Moves(trace)
      ensures Stepped(nodes, old(trace), trace, Init, g)
      ensures inputs == old(inputs)[g := inputs[g]] && (nodes[g].parent.None? ==> inputs == old(inputs))
      ensures nodes[g].parent.Some? ==>
              InputSlot(nodes, g) < old(|slots|) && inputs[g] == old(slots)[InputSlot(nodes, g)]
      ensures if nodes[g].hasParser then
                && ev != [] && ev[0].Called? && ev[0].call.group == g && ev[0].call.key == Init && ev[0].call.arg.None?
                && ev[0].call.st == old(st) && ev[0].call.input == inputs[g] && ev[0].call.slots == old(slots)
                && ev[0].reply.st == st && ev[0].reply.slots == slots && ev[0].reply.err == err
              else
                && ev == [] && err == EBADKEY && st == old(st) && HandedOn(nodes, inputs[g], slots, g)
                && forall x :: 0 <= x < |slots| && (x != InputSum(nodes[..g]) || nodes[g].kids == 0) ==>
                    slots[x] == old(slots)[x]
      ensures OwnSlice(user, nodes) ==> SlicesKept(nodes, slots, snaps + [slots])
                                        && Inherits(nodes, inputs, snaps, g)
    {
      hide Compiled, PhaseAt, LastHook, CountsApart, Taken, InputSum, HooksApart, Sane, Stepped, Moves, OwnSlice;
      if nodes[g].parent.Some? {
        ghost var p := nodes[g].parent.value;
        var x := InputSlot(nodes, g);
        assert InSlice(nodes, p, x);
        SliceInside(nodes, p, x);
        inputs := inputs[g := slots[x]];
      }
      ghost var before := slots;
      if !nodes[g].hasParser && nodes[g].kids > 0 {
        var x := InputSum(nodes[..g]);
        assert InSlice(nodes, g, x);
        SliceInside(nodes, g, x);
        slots := slots[x := inputs[g]];
      }
      err, ev := GroupParse(g, Init, None);
      if ev == [] {
        assert trace == old(trace);
      } else {
        MovesSnoc(old(trace), ev[0]);
      }
      if OwnSlice(user, nodes) {
        assert ev != [] ==> WritesOwn(nodes, ev[0].call, ev[0].reply) by {
          OwnSliceAt(user, nodes);
        }
        SlicesStep(nodes, before, slots, snaps);
      }
    }

    /** parser_init's calls; INPUT goes to the first group. */
    method InitAll(input: Ptr) returns (err: int, ghost inits: seq<Event>, ghost snaps: seq<seq<Ptr>>)
      requires Valid() && LaidOut(nodes) && trace == [] && st.next == 0
      modifies this`st, this`hooks, this`slots, this`trace, this`inputs
      ensures Valid() && trace == inits && st.next == Moves(trace)
      ensures Introduced(nodes, old(st), inits, err) && st == LeftBy(inits, old(st))
      ensures err == 0 ==> AllOpen(nodes, trace, 0, |nodes|) && Settled(trace) && |snaps| == |nodes|
      ensures SnapsOf(nodes, inits, inputs, snaps)
      ensures forall g: nat :: g < |nodes| && nodes[g].parent.None? ==>
              inputs[g] == if g == 0 then input else old(inputs)[g]
      ensures OwnSlice(user, nodes) && err == 0 ==> forall g: nat :: g < |nodes| ==> Inherits(nodes, inputs, snaps, g)
      ensures err != EBADKEY
    {
      hide Compiled, PhaseAt, LastHook, CountsApart, Taken, InputSum, HooksApart, Sane, Stepped, Moves, OwnSlice;
      hide SlicesKept, Inherits;
      hide SnapsOf, SweepUp;
      hide LaidOut, KeepsSize, Genuine, Sweeping, HandedOn;
      InitStart();
      NoSweeping(st, 0, false, true, 0);
      err, inits, snaps := 0, [], [];
      if |nodes| > 0 {
        inputs := inputs[0 := input];
      }
      var g: nat := 0;
      while g < |nodes| && Fine(err)
        invariant Valid() && |snaps| == g <= |nodes| && trace == inits && st.next == Moves(trace)
        invariant SweepUp(inits, Init) && Between(inits, 0, g)
        invariant Swept(nodes, [], trace, Init, 0, g, false, processed)
        invariant Sweeping(nodes, processed, inits, old(st), st, 0, g, false, true, err)
        invariant SnapsOf(nodes, inits, inputs, snaps)
        invariant forall i: nat :: i < |nodes| && (i >= g || nodes[i].parent.None?) ==>
                    inputs[i] == if i == 0 then input else old(inputs)[i]
        invariant OwnSlice(user, nodes) ==> SlicesKept(nodes, slots, snaps)
        invariant OwnSlice(user, nodes) ==> forall i: nat :: i < g ==> Inherits(nodes, inputs, snaps, i)
      {
        ghost var ev, t, before, was, e := [], trace, inputs, st, err;
        err, ev := InitGroup(g, snaps);
        SweepingStep(nodes, processed, inits, old(st), was, 0, g, false, true, e, ev, st, err, g);
        SweptStep(nodes, [], t, trace, Init, 0, g, false, processed, g);
        SweepUpStep(inits, ev, Init, g);
        SnapsStep(nodes, inits, ev, before, inputs, snaps, slots, g);
        if OwnSlice(user, nodes) {
          InheritsStep(nodes, before, inputs, snaps, slots, g);
        }
        inits, snaps := inits + ev, snaps + [slots];
        g := g + 1;
      }
      if Fine(err) {
        ReadyAfterInit(nodes, trace, processed);
      }
      DueAll(nodes, processed, |nodes|);
      SweptError(inits, old(st), g, err);
      InitsAreSettled(inits);
      if err == EBADKEY {
        err := 0;
      }
    }

    lemma InitsAreSettled(s: seq<Event>)
      requires SweepUp(s, Init)
      ensures Settled(s)
    {}

    lemma SweptError(s: seq<Event>, st0: Shared, g: nat, err: int)
      requires |processed| == |nodes| && Sweeping(nodes, processed, s, st0, st, 0, g, false, true, err)
      ensures Relayed(s, st0) && st == LeftBy(s, st0) && Halts(s)
      ensures ErrorOf(s) == (if Fine(err) then 0 else err) && CalledIn(s) == Due(nodes, processed, 0, g, false)
    {}

    lemma InitStart()
      ensures SweepUp([], Init) && Moves([]) == 0
      ensures forall ins: seq<Ptr> :: SnapsOf(nodes, [], ins, [])
      ensures forall ss: seq<Ptr> :: SlicesKept(nodes, ss, [])
    {}

    // ---- argp_parse ----

    /** The main loop, for at most FUEL steps. FINISHED tells that a step ended
        it; ERR and ARGEBADKEY are then what that step reported. STATES are the
        states before and after each step. */
    method Run(fuel: nat)
        returns (finished: bool, err: int, argEbadkey: bool, ghost body: seq<Event>, ghost states: seq<Snap>)
      requires Valid() && AllOpen(nodes, trace, 0, |nodes|) && Settled(trace)
      modifies this
      ensures Valid() && AllOpen(nodes, trace, 0, |nodes|) && inputs == old(inputs)
      ensures trace == old(trace) + body && Body(body)
      ensures finished <==> err != 0
      ensures Chain(nodes, prefix, getopt, states, err, argEbadkey) && states[0] == old(Now())
              && states[|states| - 1] == Now()
      ensures !finished ==> |states| == fuel + 1
      ensures old(!tryGetopt || InQuoted()) && Forward(user) && fuel > 0 && fuel > old(st.argc) - old(st.next) ==>
              finished
      ensures Polite(user) && Forward(user) && old(Balanced()) && (err == 0 || err == EBADKEY) ==> Balanced()
    {
      hide Compiled, PhaseAt, LastHook, CountsApart, Taken, InputSum, HooksApart, Sane, Moves, Sum, KeepsSize, Polite;
      hide Forward, Genuine;
      hide Step, Chain;
      err, argEbadkey, body, states := 0, false, [], [Now()];
      ChainStarts(nodes, prefix, getopt, Now());
      var left := fuel;
      while err == 0 && left > 0
        invariant Valid() && AllOpen(nodes, trace, 0, |nodes|) && (err == 0 ==> Settled(trace)) && inputs == old(inputs)
        invariant trace == old(trace) + body && Body(body)
        invariant states != [] && states[0] == old(Now()) && states[|states| - 1] == Now()
        invariant Chain(nodes, prefix, getopt, states, err, argEbadkey) && |states| == fuel - left + 1
        invariant old(!tryGetopt || InQuoted()) && Forward(user) && err == 0 ==>
                    && (!tryGetopt || InQuoted()) && st.argc == old(st.argc) && st.next >= old(st.next) + (fuel - left)
                    && (fuel > left ==> old(st.next) + (fuel - left) - 1 < st.argc)
        invariant Polite(user) && Forward(user) && old(Balanced()) && (err == 0 || err == EBADKEY) ==> Balanced()
        decreases left
      {
        ghost var tail, bad, before := [], argEbadkey, Now();
        err, argEbadkey, tail := ParseNext();
        if !Asks(before) {
          QuotedStep(nodes, prefix, getopt, before, Now(), tail, err, argEbadkey);
        }
        ChainStep(nodes, prefix, getopt, states, Now(), err, bad, argEbadkey);
        body, states := body + tail, states + [Now()];
        left := left - 1;
      }
      finished := err != 0;
    }

    /** The main loop once parsing has passed a "--", for parsers that do not
        move next back: getopt is not consulted again, every event is the offer
        of the argument at which the last accepting parser has left next, and the
        loop ends. */
    method RunQuoted() returns (err: int, argEbadkey: bool, ghost body: seq<Event>, ghost at: seq<int>)
      requires Valid() && AllOpen(nodes, trace, 0, |nodes|) && Settled(trace)
      requires InQuoted() && Forward(user)
      modifies this
      ensures Valid() && AllOpen(nodes, trace, 0, |nodes|) && err != 0
      ensures trace == old(trace) + body && st == old(st).(next := st.next)
      ensures Verbatim(body, at, st.argv, old(st.next))
    {
      hide Compiled, PhaseAt, LastHook, CountsApart, Taken, InputSum, HooksApart, Sane, Moves, Sum, KeepsSize, Polite;
      hide Forward, Verbatim;
      hide OneOffer;
      hide Step, OfferOnly, LeftAt, AllOpen, Genuine;
      err, argEbadkey, body, at := 0, false, [], [];
      NothingYetOffered(st);
      while err == 0
        invariant Valid() && AllOpen(nodes, trace, 0, |nodes|) && (err == 0 ==> Settled(trace))
        invariant trace == old(trace) + body && Verbatim(body, at, st.argv, old(st.next))
        invariant err == 0 ==> LeftAt(body, old(st.next), st)
        invariant st == old(st).(next := st.next) && (err == 0 ==> InQuoted())
        decreases err == 0, st.argc - st.next
      {
        ghost var tail, before, state := [], st, Now();
        err, argEbadkey, tail := ParseNext();
        ghost var after := Now();
        QuotedStep(nodes, prefix, getopt, state, after, tail, err, argEbadkey);
        VerbatimStep(body, at, tail, st.argv, old(st.next), before, st, err);
        body, at := body + tail, at + Repeat(|tail|, before.next);
      }
    }

    lemma NothingYetOffered(s: Shared)
      ensures Verbatim([], [], s.argv, s.next) && LeftAt([], s.next, s)
    {}

    /** argp_parse from parser_init on. If the main loop needs more than FUEL
        steps the run is not FINISHED, and nothing is said about its end. */
    method Parse(input: Ptr, wantIndex: bool, fuel: nat)
        returns (started: bool, finished: bool, err: int, endIndex: Option<int>,
                 ghost calls: Calls, ghost loop: Loop, ghost snaps: seq<seq<Ptr>>)
      requires Valid() && LaidOut(nodes) && trace == [] && st.next == 0
      requires forall g :: 0 <= g < |nodes| ==> processed[g] == 0
      modifies this
      ensures HooksApart(trace) && CountsApart(trace) && Genuine(trace, user, getopt)
      ensures trace == calls.All() && Body(calls.body)
      ensures Introduced(nodes, old(st), calls.inits, if started then 0 else err)
      ensures !started ==> trace == calls.inits && err != 0
      ensures |processed| == |nodes| && forall g: nat :: g < |nodes| ==> processed[g] == Taken(trace, g)
      ensures |inputs| == |nodes| && SnapsOf(nodes, calls.inits, inputs, snaps)
      ensures forall g: nat :: g < |nodes| && nodes[g].parent.None? ==>
                inputs[g] == if g == 0 then input else old(inputs)[g]
      ensures started && OwnSlice(user, nodes) ==>
                |snaps| == |nodes| && forall g: nat :: g < |nodes| ==> Inherits(nodes, inputs, snaps, g)
      ensures started ==>
                && Chain(nodes, prefix, getopt, loop.states, loop.err, loop.bad) && (finished <==> loop.err != 0)
                && loop.states[0] == old(Now()).(st := LeftBy(calls.inits, old(st)), trace := calls.inits)
                && Last(loop.states).trace == calls.inits + calls.body && Last(loop.states).processed == processed
      ensures started && !finished ==> trace == calls.inits + calls.body && |loop.states| == fuel + 1
      ensures started && finished ==>
                && Final(nodes, processed, loop, wantIndex, calls, err, endIndex)
                && (AllDone(nodes, trace, true) || AllDone(nodes, trace, false))
                && (err == 0 ==> AllToldSuccess(nodes, trace))
      // The result, from how the main loop has ended.
      ensures started && finished && err == 0 ==>
                && loop.err == EBADKEY && loop.bad
                && (wantIndex || Last(loop.states).st.next == Last(loop.states).st.argc)
      ensures started && loop.err == EBADKEY && (!loop.bad || (Last(loop.states).st.next != Last(loop.states).st.argc
                                                               && !wantIndex)) ==>
                err == EINVAL && AllDone(nodes, trace, true)
      ensures started && finished && loop.err != EBADKEY ==> err == loop.err && AllDone(nodes, trace, true)
      ensures endIndex.Some? <==> started && finished && wantIndex && loop.err == EBADKEY && loop.bad
      ensures endIndex.Some? && Last(loop.states).st.next != Last(loop.states).st.argc ==>
                endIndex.value == Last(loop.states).st.next
      ensures started && finished && err == 0 ==> forall g: nat :: g < |nodes| && nodes[g].hasParser ==>
                && (End in KeysOf(trace, g) <==> Last(loop.states).st.next == Last(loop.states).st.argc)
                && (NoArgs in KeysOf(trace, g) <==>
                    Last(loop.states).st.next == Last(loop.states).st.argc && Taken(trace, g) == 0)
      // Parents are called first at the beginning and children at the end.
      ensures forall i, j :: 0 <= i < j < |trace| && trace[i].Called? && trace[j].Called?
                             && trace[i].call.key == trace[j].call.key ==>
                && (trace[i].call.key in {Init, NoArgs, Error} ==> trace[i].call.group < trace[j].call.group)
                && (trace[i].call.key in {End, Success, Fini} ==> trace[i].call.group > trace[j].call.group)
      ensures !started || finished ==> err != EBADKEY
      ensures started && Polite(user) && Forward(user) && Fine(loop.err) ==>
                Last(loop.states).st.next == Moves(calls.inits + calls.body) + Sum(processed)
    {
      hide Compiled, PhaseAt, LastHook, CountsApart, Taken, InputSum, Sane, Moves, Sum, KeepsSize, LaidOut, Polite;
      hide Forward, Genuine;
      hide AllDone, AllToldSuccess, AllOpen, SweepUp, KeysOf, Parted, Body, SnapsOf, Inherits, OwnSlice, HooksApart;
      hide Chain, Ending, Introduced;
      NothingYet();
      SumOfNone(processed);
      started, finished, endIndex := false, false, None;
      ghost var inits, body, noArgs, ends, told, finis := [], [], [], [], [], [];
      err, inits, snaps := InitAll(input);
      loop := Loop([], 1, false);
      if err == 0 {
        started := true;
        var argEbadkey;
        ghost var states;
        finished, err, argEbadkey, body, states := Run(fuel);
        loop := Loop(states, err, argEbadkey);
        if finished {
          err, endIndex, noArgs, ends, told, finis := Finalize(err, argEbadkey, wantIndex);
        }
      }
      calls := Calls(inits, body, noArgs, ends, told, finis);
      RunIsParted(processed, loop, wantIndex, calls, err, endIndex, old(st), started, finished);
      if started && finished && err == 0 {
        forall g: nat | g < |nodes| && nodes[g].hasParser
          ensures
            && (End in KeysOf(trace, g) <==> Last(loop.states).st.next == Last(loop.states).st.argc)
            && (NoArgs in KeysOf(trace, g) <==>
                Last(loop.states).st.next == Last(loop.states).st.argc && processed[g] == 0)
        {
          SuccessMeansEnd(nodes, processed, loop, wantIndex, calls, endIndex, g);
        }
      }
    }

    lemma RunIsParted(processed: seq<nat>, loop: Loop, wantIndex: bool, calls: Calls, err: int, endIndex: Option<int>,
                      st0: Shared, started: bool, finished: bool)
      requires |processed| == |nodes| && Introduced(nodes, st0, calls.inits, if started then 0 else err)
      requires Body(calls.body)
      requires if started && finished then Final(nodes, processed, loop, wantIndex, calls, err, endIndex)
               else calls.noArgs == calls.ends == calls.told == calls.finis == []
      ensures Parted(calls) && Ordered(calls.All())
    {
      hide Relayed, Halts;
      if started && finished {
        hide SweepUp, SweepDown, Body;
        FinalIsParted(nodes, processed, loop, wantIndex, calls, err, endIndex);
      }
      hide Ordered;
      CallsAreOrdered(calls);
    }

    lemma NothingYet()
      ensures Body([])
    {}

    lemma OwnSliceAt(user: User, nodes: seq<Node>)
      requires OwnSlice(user, nodes)
      ensures forall h: seq<Event>, c: Call ::
                c.group < |nodes| && |user(h, c).slots| == |c.slots| ==> WritesOwn(nodes, c, user(h, c))
    {}
  }

  lemma EndedPhases(nodes: seq<Node>, t: seq<Event>, t1: seq<Event>, t2: seq<Event>, r1: nat, r2: nat,
                    processed: seq<nat>)
    requires |processed| == |nodes| && AllOpen(nodes, t, 0, |nodes|)
    requires Swept(nodes, t, t1, NoArgs, 0, r1, true, processed)
    requires Swept(nodes, t1, t2, End, r2, |nodes|, false, processed)
    ensures AllMayFinish(nodes, t2)
    ensures r2 == 0 ==> forall g: nat :: g < |nodes| && nodes[g].hasParser ==> PhaseAt(t2, g).Ended?
  {
    hide PhaseAt;
    forall g: nat | g < |nodes| && nodes[g].hasParser
      ensures MayFinish(PhaseAt(t2, g)) && (r2 == 0 ==> PhaseAt(t2, g).Ended?)
    {
      assert MayEnd(PhaseAt(t1, g));
    }
  }

  lemma DonePhases(nodes: seq<Node>, t: seq<Event>, t1: seq<Event>, t2: seq<Event>, r: nat, error: bool,
                   processed: seq<nat>)
    requires |processed| == |nodes| && AllMayFinish(nodes, t)
    requires if error then Swept(nodes, t, t1, Error, 0, |nodes|, false, processed)
             else Swept(nodes, t, t1, Success, r, |nodes|, false, processed)
    requires Swept(nodes, t1, t2, Fini, 0, |nodes|, false, processed)
    ensures AllDone(nodes, t2, error)
    ensures !error && r == 0 ==> AllToldSuccess(nodes, t2)
  {
    hide PhaseAt;
    forall g: nat | g < |nodes| && nodes[g].hasParser
      ensures PhaseAt(t2, g).Done? && (PhaseAt(t2, g).outcome.ToldError? <==> error)
      ensures !error && r == 0 ==> PhaseAt(t2, g) == Done(ToldSuccess)
    {
      assert MayFinish(PhaseAt(t, g));
      assert MayFini(PhaseAt(t1, g));
    }
  }
}
