/** What getopt makes of one short option character, and so which group an
    option letter on the command line reaches. */
module GetoptShort {
  import opened Wrappers
  import opened ArgpTree
  import opened Tables
  import opened Sequences

  /** getopt takes a leading '-' or '+' for its ordering flag, whoever has
      written it there, and skips it. */
  function Body(s: seq<int>): seq<int> {
    if s != [] && (s[0] == '-' as int || s[0] == '+' as int) then s[1..] else s
  }

  /** The first C in the string stands before a D. */
  predicate StandsBefore(s: seq<int>, c: int, d: int) {
    exists x :: 0 <= x < |s| - 1 && s[x] == c && c !in s[..x] && s[x + 1] == d
  }

  /** getopt returns C for the option -C: it is in the string and is not one of
      the two characters with a meaning there, and not the W that makes the next
      word a long option. */
  predicate Returns(s: seq<int>, c: int) {
    && c in Body(s) && c != ':' as int && c != ';' as int
    && !(c == 'W' as int && StandsBefore(Body(s), c, ';' as int))
  }

  function OptString(prefix: seq<int>, nodes: seq<Node>): seq<int> {
    prefix + ShortString(nodes)
  }

  /** The group to which parser_parse_opt gives the option -C, if getopt returns
      it at all. */
  function CalledGroup(prefix: seq<int>, nodes: seq<Node>, c: int): (g: Option<nat>)
    ensures g.Some? ==> g.value < |nodes|
  {
    if Returns(OptString(prefix, nodes), c) then ScannedGroup(prefix, nodes, c) else None
  }

  /** A key that getopt returns has been declared as an option. */
  lemma ReturnedIsDeclared(prefix: seq<int>, nodes: seq<Node>, c: int)
    requires |prefix| <= 1 && (prefix != [] ==> prefix[0] == '-' as int || prefix[0] == '+' as int)
    requires Returns(OptString(prefix, nodes), c)
    ensures nodes != [] && FirstGroup(nodes, c, 0).Some?
  {
    hide ShortString, Declares;
    var s := OptString(prefix, nodes);
    if prefix != [] {
      assert s[0] == prefix[0] && s[1..] == ShortString(nodes);
    } else {
      assert s == ShortString(nodes);
    }
    assert c in ShortString(nodes);
    ShortStringMembers(nodes, c);
  }

  /** For a key other than the leading character the group called is the first
      one that declares it. */
  lemma CalledIsFirst(prefix: seq<int>, nodes: seq<Node>, c: int)
    requires c !in prefix && Returns(OptString(prefix, nodes), c)
    ensures CalledGroup(prefix, nodes, c) == FirstGroup(nodes, c, 0)
  {
    HolderDeclares(nodes, c, 0);
  }

  /** getopt has a meaning of its own for this key. */
  predicate Special(c: int) {
    c == ':' as int || c == ';' as int || c == '-' as int || c == '+' as int
  }

  /** Where no special key is declared, every declared key reaches the first group
      that declares it. */
  lemma OrdinaryIsReturned(prefix: seq<int>, nodes: seq<Node>, c: int)
    requires forall x :: x in prefix ==> Special(x)
    requires forall k, x :: 0 <= k < |nodes| && Special(x) ==> !Declares(nodes[k], x)
    requires FirstGroup(nodes, c, 0).Some?
    ensures Returns(OptString(prefix, nodes), c)
    ensures CalledGroup(prefix, nodes, c) == FirstGroup(nodes, c, 0)
  {
    hide ShortString, Declares;
    var s, k := OptString(prefix, nodes), FirstGroup(nodes, c, 0).value;
    assert Declares(nodes[k], c) && !Special(c);
    ShortStringMembers(nodes, c);
    assert c in s && c in Body(s) by {
      BodyKeeps(s, c);
    }
    ShortStringMembers(nodes, ';' as int);
    assert Special(';' as int) && ';' as int !in ShortString(nodes);
    if c == 'W' as int && StandsBefore(Body(s), c, ';' as int) {
      var x :| 0 <= x < |Body(s)| - 1 && Body(s)[x] == c && c !in Body(s)[..x] && Body(s)[x + 1] == ';' as int;
      BodyIsEnd(prefix, ShortString(nodes), x, c);
    }
    CalledIsFirst(prefix, nodes, c);
  }

  lemma BodyKeeps(s: seq<int>, c: int)
    requires c in s && !Special(c)
    ensures c in Body(s)
  {
    var x :| 0 <= x < |s| && s[x] == c;
    if Body(s) != s {
      assert Body(s)[x - 1] == c;
    }
  }

  /** Behind a key that is not special comes the declared part of the string. */
  lemma BodyIsEnd(prefix: seq<int>, text: seq<int>, x: nat, c: int)
    requires forall y :: y in prefix ==> Special(y)
    requires var b := Body(prefix + text); x + 1 < |b| && b[x] == c && !Special(c)
    ensures Body(prefix + text)[x + 1] in text
  {
    var s := prefix + text;
    var i := if Body(s) == s then x else x + 1;
    assert s[i] == c && s[i + 1] == Body(s)[x + 1];
    forall y | 0 <= y < |prefix|
      ensures Special(s[y])
    {
      assert s[y] == prefix[y] && prefix[y] in prefix;
    }
    assert s[i + 1] == text[i + 1 - |prefix|];
  }

  // ---- arguments of short options ----

  /** The text does not begin with a colon. */
  predicate NoColonFirst(s: seq<int>) {
    s != [] ==> s[0] != ':' as int
  }

  /** What the options from i on add to the string. */
  lemma {:induction false} ShortToSplits(node: Node, i: nat, n: nat) returns (rest: seq<int>)
    requires i <= n <= |node.opts| && !Declares(node, ':' as int)
    ensures ShortTo(node.opts, n) == ShortTo(node.opts, i) + rest && NoColonFirst(rest)
    decreases n - i
  {
    if i == n {
      rest := [];
      ConcatEmpty(ShortTo(node.opts, i));
    } else {
      var front := ShortToSplits(node, i, n - 1);
      var last := ShortText(node.opts[n - 1], RealAt(node.opts, n - 1));
      assert last != [] ==> DeclaresAt(node, n - 1, last[0]);
      rest := front + last;
      ConcatAssoc(ShortTo(node.opts, i), front, last);
    }
  }

  lemma {:induction false} StringStarts(nodes: seq<Node>)
    requires forall k :: 0 <= k < |nodes| ==> !Declares(nodes[k], ':' as int)
    ensures NoColonFirst(ShortString(nodes))
  {
    hide Declares;
    if nodes != [] {
      var n := |nodes| - 1;
      StringStarts(nodes[..n]);
      var rest := ShortToSplits(nodes[n], 0, |nodes[n].opts|);
    }
  }

  lemma NodeSplits(nodes: seq<Node>, k: nat)
    requires k < |nodes|
    ensures ShortString(nodes)
            == ShortString(nodes[..k]) + ShortTo(nodes[k].opts, |nodes[k].opts|) + ShortString(nodes[k + 1..])
  {
    hide ShortString, ShortTo;
    assert nodes == (nodes[..k] + [nodes[k]]) + nodes[k + 1..];
    ShortStringConcat(nodes[..k] + [nodes[k]], nodes[k + 1..]);
    ShortStringConcat(nodes[..k], [nodes[k]]);
    ShortStringOne(nodes[k]);
  }

  lemma {:induction false} Regroup(p: seq<int>, a: seq<int>, text: seq<int>, rest: seq<int>, q: seq<int>)
    ensures p + (a + text + rest) + q == (p + a) + text + (rest + q)
  {}

  lemma NoColonJoin(a: seq<int>, b: seq<int>)
    requires NoColonFirst(a) && NoColonFirst(b)
    ensures NoColonFirst(a + b)
  {}

  /** The string around the text of option i of group k. */
  lemma StringSplits(nodes: seq<Node>, k: nat, i: nat) returns (before: seq<int>, after: seq<int>)
    requires k < |nodes| && i < |nodes[k].opts|
    requires forall k :: 0 <= k < |nodes| ==> !Declares(nodes[k], ':' as int)
    ensures before == ShortString(nodes[..k]) + ShortTo(nodes[k].opts, i) && NoColonFirst(after)
    ensures ShortString(nodes) == before + ShortText(nodes[k].opts[i], RealAt(nodes[k].opts, i)) + after
  {
    hide Declares, ShortText, ShortString, NoColonFirst;
    var node := nodes[k];
    var text, own := ShortText(node.opts[i], RealAt(node.opts, i)), ShortTo(node.opts, i);
    var rest := ShortToSplits(node, i + 1, |node.opts|);
    assert ShortTo(node.opts, i + 1) == own + text;
    hide ShortTo;
    var front, back := ShortString(nodes[..k]), ShortString(nodes[k + 1..]);
    NodeSplits(nodes, k);
    StringStarts(nodes[k + 1..]);
    NoColonJoin(rest, back);
    Regroup(front, own, text, rest, back);
    before, after := front + own, rest + back;
  }

  /** Behind a key getopt finds no colon, one or two, as the first option that
      declares the key takes no argument, requires one, or has an optional one. */
  lemma ShortArgument(prefix: seq<int>, nodes: seq<Node>, c: int, k: nat, i: nat) returns (x: nat)
    requires forall y :: y in prefix ==> Special(y)
    requires forall k, y :: 0 <= k < |nodes| && Special(y) ==> !Declares(nodes[k], y)
    requires FirstGroup(nodes, c, 0) == Some(k) && i < |nodes[k].opts| && DeclaresAt(nodes[k], i, c)
    requires forall j :: 0 <= j < i ==> !DeclaresAt(nodes[k], j, c)
    ensures var s, base := OptString(prefix, nodes), RealAt(nodes[k].opts, i);
            && x < |s| && s[x] == c && c !in s[..x]
            && (base.arg.Some? <==> x + 1 < |s| && s[x + 1] == ':' as int)
            && (base.arg.Some? && base.argOptional <==> x + 2 < |s| && s[x + 1] == s[x + 2] == ':' as int)
  {
    hide ShortString, ShortTo;
    assert Declares(nodes[k], c) && Special(':' as int) && !Special(c);
    var before, after := StringSplits(nodes, k, i);
    x := |prefix| + |before|;
    var text := ShortText(nodes[k].opts[i], RealAt(nodes[k].opts, i));
    assert OptString(prefix, nodes) == prefix + before + text + after;
    ShortStringMembers(nodes[..k], c);
    ShortToMembers(nodes[k], i, c);
    assert OptString(prefix, nodes)[..x] == prefix + before;
  }
}
