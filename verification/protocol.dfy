/** The keys a group's parser is called with over a run, and the order in which
    argp.h documents them. */
module Protocol {
  import opened Wrappers

  /** ARGP_KEY_INIT and so on; Opt is the key of a user's option. */
  datatype Key = Init | Opt(key: int) | Arg | Args | NoArgs | End | Success | Error | Fini

  /** Where a sequence of keys stands. After Arg, an Args for the same argument
      may follow. */
  datatype Phase =
    | Fresh
    | Ready
    | AfterArg
    | SawNoArgs
    | Ended
    | Succeeded
    | Failed
    | Done(outcome: Outcome)
    | Wrong

  /** How the last call but Fini left a group: told of success, told of an
      error, or neither. */
  datatype Outcome = Neither | ToldSuccess | ToldError

  predicate Open(p: Phase) {
    p.Ready? || p.AfterArg?
  }

  predicate MayEnd(p: Phase) {
    Open(p) || p.SawNoArgs?
  }

  predicate MayFinish(p: Phase) {
    MayEnd(p) || p.Ended?
  }

  predicate MayFini(p: Phase) {
    MayFinish(p) || p.Succeeded? || p.Failed?
  }

  function OutcomeOf(p: Phase): Outcome {
    if p.Succeeded? then ToldSuccess else if p.Failed? then ToldError else Neither
  }

  function Next(p: Phase, k: Key): Phase {
    match k
    case Init => if p.Fresh? then Ready else Wrong
    case Opt(_) => if Open(p) then Ready else Wrong
    case Arg => if Open(p) then AfterArg else Wrong
    case Args => if p.AfterArg? then Ready else Wrong
    case NoArgs => if Open(p) then SawNoArgs else Wrong
    case End => if MayEnd(p) then Ended else Wrong
    case Success => if MayFinish(p) then Succeeded else Wrong
    case Error => if MayFinish(p) then Failed else Wrong
    case Fini => if MayFini(p) then Done(OutcomeOf(p)) else Wrong
  }

  function PhaseOf(ks: seq<Key>): Phase {
    if ks == [] then Fresh else Next(PhaseOf(ks[..|ks| - 1]), ks[|ks| - 1])
  }

  // ---- the same language, written out ----

  /** (opt | ARG | ARG ARGS)* */
  ghost predicate IsBody(b: seq<Key>) {
    forall i :: 0 <= i < |b| ==> FitsBody(b, i)
  }

  predicate FitsBody(b: seq<Key>, i: nat)
    requires i < |b|
  {
    (b[i].Opt? || b[i].Arg? || b[i].Args?) && (b[i].Args? ==> i > 0 && b[i - 1].Arg?)
  }

  /** INIT (opt | ARG | ARG ARGS)* NO_ARGS? END? (SUCCESS? | ERROR) FINI */
  ghost predicate InProtocol(ks: seq<Key>, body: seq<Key>, noArgs: seq<Key>, end: seq<Key>, told: seq<Key>) {
    && ks == [Init] + body + noArgs + end + told + [Fini]
    && IsBody(body)
    && (noArgs == [] || noArgs == [NoArgs])
    && (end == [] || end == [End])
    && (told == [] || told == [Success] || told == [Error])
  }

  lemma EmptyBody()
    ensures IsBody([])
  {}

  lemma BodySnoc(b: seq<Key>, k: Key)
    requires IsBody(b) && (k.Opt? || k.Arg? || k.Args?) && (k.Args? ==> b != [] && b[|b| - 1].Arg?)
    ensures IsBody(b + [k])
  {
    var all := b + [k];
    forall i | 0 <= i < |all|
      ensures FitsBody(all, i)
    {
      assert i > 0 ==> all[i - 1] == b[i - 1];
      if i < |b| {
        assert FitsBody(b, i) && all[i] == b[i];
      } else {
        assert all[i] == k;
      }
    }
  }

  /** How far a key sequence has come, part by part. */
  lemma {:induction false} Parts(ks: seq<Key>)
      returns (body: seq<Key>, noArgs: seq<Key>, end: seq<Key>, told: seq<Key>)
    requires MayFini(PhaseOf(ks))
    ensures ks == [Init] + body + noArgs + end + told && IsBody(body)
    ensures noArgs == [] || noArgs == [NoArgs]
    ensures end == [] || end == [End]
    ensures told
            == match OutcomeOf(PhaseOf(ks)) case Neither => [] case ToldSuccess => [Success] case ToldError => [Error]
    ensures Open(PhaseOf(ks)) ==> noArgs == end == []
    ensures PhaseOf(ks).AfterArg? ==> body != [] && body[|body| - 1].Arg?
    ensures MayEnd(PhaseOf(ks)) ==> end == []
  {
    hide IsBody;
    var n := |ks| - 1;
    var front, k := ks[..n], ks[n];
    body, noArgs, end, told := [], [], [], [];
    if PhaseOf(front).Fresh? {
      FreshIsEmpty(front);
      EmptyBody();
      assert ks == [k];
    } else {
      body, noArgs, end, told := Parts(front);
      if k.Opt? || k.Arg? || k.Args? {
        BodySnoc(body, k);
        body := body + [k];
      } else if k.NoArgs? {
        noArgs := [k];
      } else if k.End? {
        end := [k];
      } else {
        told := [k];
      }
      assert ks == front + [k];
    }
  }

  lemma {:induction false} FreshIsEmpty(ks: seq<Key>)
    requires PhaseOf(ks).Fresh?
    ensures ks == []
  {}

  /** A sequence that reaches Done is in the protocol, and its outcome says
      which of SUCCESS and ERROR it contains. */
  lemma DoneMeansProtocol(ks: seq<Key>)
      returns (body: seq<Key>, noArgs: seq<Key>, end: seq<Key>, told: seq<Key>)
    requires PhaseOf(ks).Done?
    ensures InProtocol(ks, body, noArgs, end, told)
    ensures told == match PhaseOf(ks).outcome case Neither => [] case ToldSuccess => [Success] case ToldError => [Error]
  {
    var n := |ks| - 1;
    body, noArgs, end, told := Parts(ks[..n]);
    assert ks == ks[..n] + [ks[n]];
  }
}
