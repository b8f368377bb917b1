/** What a whole run of the driver comes to, read off its events. */
module ParserOutcome {
  import opened Wrappers
  import opened Tables
  import opened Protocol
  import opened ParserTrace
  import opened ParserStep
  import opened Sequences

  // ---- which groups come first ----

  /** INIT, NO_ARGS and ERROR go to parents before children, and END, SUCCESS and
      FINI to children before parents. */
  ghost predicate Ordered(t: seq<Event>) {
    forall i, j :: 0 <= i < j < |t| && t[i].Called? && t[j].Called? && t[i].call.key == t[j].call.key ==>
      && (t[i].call.key in {Init, NoArgs, Error} ==> t[i].call.group < t[j].call.group)
      && (t[i].call.key in {End, Success, Fini} ==> t[i].call.group > t[j].call.group)
  }

  /** The part of a run that an event belongs to. */
  function Part(e: Event): nat {
    if e.Asked? then 1
    else
      match e.call.key
      case Init => 0
      case Opt(_) => 1
      case Arg => 1
      case Args => 1
      case NoArgs => 2
      case End => 3
      case Success => 4
      case Error => 4
      case Fini => 5
  }

  ghost predicate InPart(s: seq<Event>, n: nat) {
    Ordered(s) && forall i :: 0 <= i < |s| ==> Part(s[i]) == n
  }

  ghost predicate Before(s: seq<Event>, n: nat) {
    Ordered(s) && forall i :: 0 <= i < |s| ==> Part(s[i]) < n
  }

  lemma PartJoin(a: seq<Event>, b: seq<Event>, n: nat)
    requires Before(a, n) && InPart(b, n)
    ensures Before(a + b, n + 1)
  {
    var t := a + b;
    assert forall i :: 0 <= i < |b| ==> t[|a| + i] == b[i];
    forall i | 0 <= i < |t|
      ensures if i < |a| then t[i] == a[i] && Part(t[i]) < n else t[i] == b[i - |a|] && Part(t[i]) == n
    {
      if i >= |a| {
        assert Part(b[i - |a|]) == n;
      }
    }
  }

  lemma UpIsPart(s: seq<Event>, key: Key)
    requires SweepUp(s, key) && (key.Init? || key.NoArgs? || key.Error?)
    ensures if key.Init? then Before(s, 1) else InPart(s, if key.NoArgs? then 2 else 4)
  {}

  lemma DownIsPart(s: seq<Event>, key: Key)
    requires SweepDown(s, key) && (key.End? || key.Success? || key.Fini?)
    ensures InPart(s, if key.End? then 3 else if key.Success? then 4 else 5)
  {}

  lemma BodyIsPart(s: seq<Event>)
    requires Body(s)
    ensures InPart(s, 1)
  {}

  /** The calls of a run have the keys that their part is for. */
  ghost predicate Parted(calls: Calls) {
    && SweepUp(calls.inits, Init) && Body(calls.body) && SweepUp(calls.noArgs, NoArgs)
    && SweepDown(calls.ends, End) && (SweepDown(calls.told, Success) || SweepUp(calls.told, Error))
    && SweepDown(calls.finis, Fini)
  }

  /** The calls of a run, part by part, are so ordered as a whole. */
  lemma CallsAreOrdered(calls: Calls)
    requires Parted(calls)
    ensures Ordered(calls.All())
  {
    hide SweepUp, SweepDown, Body, InPart;
    UpIsPart(calls.inits, Init);
    BodyIsPart(calls.body);
    UpIsPart(calls.noArgs, NoArgs);
    DownIsPart(calls.ends, End);
    if SweepDown(calls.told, Success) {
      DownIsPart(calls.told, Success);
    } else {
      UpIsPart(calls.told, Error);
    }
    DownIsPart(calls.finis, Fini);
    var t := calls.inits + calls.body;
    PartJoin(calls.inits, calls.body, 1);
    PartJoin(t, calls.noArgs, 2);
    PartJoin(t + calls.noArgs, calls.ends, 3);
    PartJoin(t + calls.noArgs + calls.ends, calls.told, 4);
    PartJoin(t + calls.noArgs + calls.ends + calls.told, calls.finis, 5);
  }

  // ---- who is told that all arguments have been parsed ----

  /** Group g is called with KEY. */
  ghost predicate Receives(s: seq<Event>, g: nat, key: Key) {
    exists i :: 0 <= i < |s| && s[i].Called? && s[i].call.group == g && s[i].call.key == key
  }

  lemma ReceivesJoin(a: seq<Event>, b: seq<Event>, g: nat, key: Key)
    ensures Receives(a + b, g, key) <==> Receives(a, g, key) || Receives(b, g, key)
  {
    var t := a + b;
    if Receives(a, g, key) {
      var i :| 0 <= i < |a| && a[i].Called? && a[i].call.group == g && a[i].call.key == key;
      assert t[i] == a[i];
    }
    if Receives(b, g, key) {
      var i :| 0 <= i < |b| && b[i].Called? && b[i].call.group == g && b[i].call.key == key;
      assert t[|a| + i] == b[i];
    }
  }

  lemma {:induction false} KeysAreReceived(t: seq<Event>, g: nat, key: Key)
    ensures key in KeysOf(t, g) <==> Receives(t, g, key)
  {
    if t != [] {
      KeysAreReceived(t[..|t| - 1], g, key);
    }
  }

  lemma ReceivesOnly(s: seq<Event>, g: nat, key: Key)
    ensures (forall i :: 0 <= i < |s| && s[i].Called? ==> s[i].call.key == key) ==>
              (Receives(s, g, key) <==> g in CalledIn(s))
    ensures (forall i :: 0 <= i < |s| && s[i].Called? ==> s[i].call.key != key) ==> !Receives(s, g, key)
  {}

  /** END and NO_ARGS are received in their own parts of a run only. */
  lemma ReceivedInPart(calls: Calls, g: nat)
    requires Parted(calls)
    ensures End in KeysOf(calls.All(), g) <==> g in CalledIn(calls.ends)
    ensures NoArgs in KeysOf(calls.All(), g) <==> g in CalledIn(calls.noArgs)
  {
    hide KeysOf, CalledIn, Receives;
    var t1 := calls.inits + calls.body;
    var t2 := t1 + calls.noArgs;
    var t3 := t2 + calls.ends;
    var t4 := t3 + calls.told;
    forall key: Key | key.End? || key.NoArgs?
      ensures key in KeysOf(calls.All(), g) <==> g in CalledIn(if key.End? then calls.ends else calls.noArgs)
    {
      KeysAreReceived(calls.All(), g, key);
      ReceivesJoin(t4, calls.finis, g, key);
      ReceivesJoin(t3, calls.told, g, key);
      ReceivesJoin(t2, calls.ends, g, key);
      ReceivesJoin(t1, calls.noArgs, g, key);
      ReceivesJoin(calls.inits, calls.body, g, key);
      ReceivesOnly(calls.inits, g, key);
      ReceivesOnly(calls.body, g, key);
      ReceivesOnly(calls.noArgs, g, key);
      ReceivesOnly(calls.ends, g, key);
      ReceivesOnly(calls.told, g, key);
      ReceivesOnly(calls.finis, g, key);
    }
  }

  // ---- from the end of a run to its parts ----

  lemma FinalIsParted(nodes: seq<Node>, processed: seq<nat>, loop: Loop, wantIndex: bool, calls: Calls,
                      err: int, endIndex: Option<int>)
    requires |processed| == |nodes| && Final(nodes, processed, loop, wantIndex, calls, err, endIndex)
    requires SweepUp(calls.inits, Init) && Body(calls.body)
    ensures Parted(calls)
  {
    hide Relayed, Halts;
  }

  /** After success, END has gone to all groups if everything was parsed, and
      NO_ARGS to those without arguments, and otherwise neither to any. */
  lemma SuccessMeansEnd(nodes: seq<Node>, processed: seq<nat>, loop: Loop, wantIndex: bool, calls: Calls,
                        endIndex: Option<int>, g: nat)
    requires |processed| == |nodes| && Final(nodes, processed, loop, wantIndex, calls, 0, endIndex) && Parted(calls)
    requires g < |nodes| && nodes[g].hasParser
    ensures var stop, ks := Last(loop.states).st, KeysOf(calls.All(), g);
            && (End in ks <==> stop.next == stop.argc)
            && (NoArgs in ks <==> stop.next == stop.argc && processed[g] == 0)
  {
    hide Relayed, Halts, ErrorOf, Parted, KeysOf;
    ReceivedInPart(calls, g);
    NoError();
  }

  lemma NoError()
    ensures ErrorOf([]) == 0 && CalledIn([]) == {}
  {}
}
