/** argp_parse for a tree: the tables are compiled from the tree, and the driver
    runs on them. */
module ArgpRun {
  import opened Wrappers
  import opened ArgpTree
  import opened Tables
  import opened Convert
  import opened Protocol
  import opened ParserTrace
  import opened ParserStep
  import opened ParserCount
  import opened ParserRun
  import Preorder

  /** The keys group g has received are a word of the documented protocol. */
  ghost predicate FollowsProtocol(t: seq<Event>, g: nat) {
    exists body, noArgs, end, told :: InProtocol(KeysOf(t, g), body, noArgs, end, told)
  }

  /** A whole run on the groups of tree A. */
  method Run(a: Argp, argc: int, argv: seq<string>, inOrder: bool, noArgs: bool, user: User, getopt: Getopt,
             input: Ptr, wantIndex: bool, fuel: nat)
      returns (p: Parser, started: bool, finished: bool, err: int, endIndex: Option<int>,
               ghost loop: Loop)
    requires StringFits(a, inOrder, noArgs)
    requires KeepsSize(user) && Sane(getopt, GroupsOf(a, 0, None, 0, 0))
    ensures p.nodes == GroupsOf(a, 0, None, 0, 0)
    ensures HooksApart(p.trace) && CountsApart(p.trace) && Genuine(p.trace, user, getopt)
    ensures !started || finished ==> err != EBADKEY
    ensures !started ==> err != 0
    ensures started && finished ==> forall g: nat :: g < |p.nodes| && p.nodes[g].hasParser ==>
            FollowsProtocol(p.trace, g)
    ensures started && finished ==> forall x: nat :: x < Size(a) && Preorder.All(a)[x].argp.hasParser ==>
              exists g: nat :: g < |p.nodes| && p.nodes[g].owner == x && p.nodes[g].hasParser
                  && FollowsProtocol(p.trace, g)
    ensures started && finished ==> AllDone(p.nodes, p.trace, true) || AllDone(p.nodes, p.trace, false)
    ensures started && finished && err == 0 ==> AllToldSuccess(p.nodes, p.trace)
    // LOOP is the main loop; a run that returns 0 has parsed everything, or has told the caller how far it came.
    ensures started ==> Chain(p.nodes, Prefix(inOrder, noArgs), getopt, loop.states, loop.err, loop.bad)
    ensures started && finished && err == 0 ==>
              && loop.err == EBADKEY && loop.bad
              && (wantIndex || Last(loop.states).st.next == Last(loop.states).st.argc)
    ensures started && loop.err == EBADKEY && (!loop.bad || (Last(loop.states).st.next != Last(loop.states).st.argc
                                                             && !wantIndex)) ==>
              err == EINVAL && AllDone(p.nodes, p.trace, true)
    ensures started && finished && loop.err != EBADKEY ==> err == loop.err && AllDone(p.nodes, p.trace, true)
  {
    hide *;
    NoNulInPrefix(inOrder, noArgs);
    TreeIsLaidOut(a);
    var nodes := GroupsOf(a, 0, None, 0, 0);
    var c, egroup := ConvertTree(a, inOrder, noArgs);
    p := new Parser(c, nodes, Prefix(inOrder, noArgs), user, getopt, argc, argv, noArgs);
    ghost var calls, snaps;
    started, finished, err, endIndex, calls, loop, snaps := p.Parse(input, wantIndex, fuel);
    if started && finished {
      AllFollow(nodes, p.trace);
      ParsersFollow(a, p.trace);
    }
  }

  lemma NoNulInPrefix(inOrder: bool, noArgs: bool)
    ensures 0 !in Prefix(inOrder, noArgs) && |Prefix(inOrder, noArgs)| <= 1
  {}

  lemma AllFollow(nodes: seq<Node>, t: seq<Event>)
    requires AllDone(nodes, t, true) || AllDone(nodes, t, false)
    ensures forall g: nat :: g < |nodes| && nodes[g].hasParser ==> FollowsProtocol(t, g)
  {
    forall g: nat | g < |nodes| && nodes[g].hasParser
      ensures FollowsProtocol(t, g)
    {
      var body, noArgs, end, told := GroupProtocol(t, g);
    }
  }

  /** Every argp with a parser has a group, so its parser is called as documented. */
  lemma ParsersFollow(a: Argp, t: seq<Event>)
    requires var nodes := GroupsOf(a, 0, None, 0, 0);
             forall g: nat :: g < |nodes| && nodes[g].hasParser ==> FollowsProtocol(t, g)
    ensures forall x: nat :: x < Size(a) && Preorder.All(a)[x].argp.hasParser ==>
              var nodes := GroupsOf(a, 0, None, 0, 0);
              exists g: nat :: g < |nodes| && nodes[g].owner == x && nodes[g].hasParser && FollowsProtocol(t, g)
  {
    forall x: nat | x < Size(a) && Preorder.All(a)[x].argp.hasParser
      ensures var nodes := GroupsOf(a, 0, None, 0, 0);
              exists g: nat :: g < |nodes| && nodes[g].owner == x && nodes[g].hasParser && FollowsProtocol(t, g)
    {
      var g := Preorder.ParserHasGroup(a, x);
    }
  }
}
