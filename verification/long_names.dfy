/** Which group an option with a long name reaches. */
module LongNames {
  import opened Wrappers
  import opened ArgpTree
  import opened Tables
  import opened ParserStep

  /** Option i of the node can be used under the long name. */
  predicate NamedAt(node: Node, i: nat, name: CString)
    requires i < |node.opts|
  {
    !RealAt(node.opts, i).doc && node.opts[i].name == Some(name)
  }

  /** Option i of node k is the first one of the name, in preorder. */
  ghost predicate FirstNamed(nodes: seq<Node>, k: nat, i: nat, name: CString) {
    && k < |nodes| && i < |nodes[k].opts| && NamedAt(nodes[k], i, name)
    && (forall m :: 0 <= m < i ==> !NamedAt(nodes[k], m, name))
    && forall l, m :: 0 <= l < k && 0 <= m < |nodes[l].opts| ==> !NamedAt(nodes[l], m, name)
  }

  ghost predicate Without(cands: seq<LongOpt>, name: CString) {
    forall x :: 0 <= x < |cands| ==> cands[x].name != Some(name)
  }

  /** Candidate x is the first of the name, and stands for option O. */
  ghost predicate FirstCand(cands: seq<LongOpt>, x: nat, name: CString, e: LongOpt) {
    x < |cands| && cands[x] == e && e.name == Some(name) && Without(cands[..x], name)
  }

  lemma {:induction false} NoCand(node: Node, n: nat, k: nat, name: CString)
    requires n <= |node.opts| && forall m :: 0 <= m < n ==> !NamedAt(node, m, name)
    ensures Without(LongCands(node.opts, n, k), name)
  {
    if n > 0 {
      NoCand(node, n - 1, k, name);
      assert !NamedAt(node, n - 1, name);
    }
  }

  lemma {:induction false} CandOfNode(node: Node, n: nat, k: nat, i: nat, name: CString) returns (x: nat)
    requires i < n <= |node.opts| && NamedAt(node, i, name) && forall m :: 0 <= m < i ==> !NamedAt(node, m, name)
    ensures FirstCand(LongCands(node.opts, n, k), x, name, LongOf(node.opts[i], RealAt(node.opts, i), k))
  {
    var front := LongCands(node.opts, n - 1, k);
    if i == n - 1 {
      NoCand(node, i, k, name);
      x := |front|;
      assert LongCands(node.opts, n, k)[..x] == front;
    } else {
      x := CandOfNode(node, n - 1, k, i, name);
      assert LongCands(node.opts, n, k)[..x] == front[..x];
    }
  }

  lemma {:induction false} NoCands(nodes: seq<Node>, name: CString)
    requires forall l, m :: 0 <= l < |nodes| && 0 <= m < |nodes[l].opts| ==> !NamedAt(nodes[l], m, name)
    ensures Without(AllCands(nodes), name)
  {
    if nodes != [] {
      var k := |nodes| - 1;
      NoCands(nodes[..k], name);
      NoCand(nodes[k], |nodes[k].opts|, k, name);
    }
  }

  lemma {:induction false} CandOfTree(nodes: seq<Node>, k: nat, i: nat, name: CString) returns (x: nat)
    requires FirstNamed(nodes, k, i, name)
    ensures FirstCand(AllCands(nodes), x, name, LongOf(nodes[k].opts[i], RealAt(nodes[k].opts, i), k))
  {
    var n := |nodes| - 1;
    var front, last := AllCands(nodes[..n]), LongCands(nodes[n].opts, |nodes[n].opts|, n);
    assert AllCands(nodes) == front + last;
    hide AllCands, LongCands, LongOf;
    if k == n {
      NoCands(nodes[..n], name);
      var y := CandOfNode(nodes[n], |nodes[n].opts|, n, i, name);
      x := |front| + y;
      assert (front + last)[..x] == front + last[..y];
    } else {
      x := CandOfTree(nodes[..n], k, i, name);
      assert (front + last)[..x] == front[..x];
    }
  }

  /** The table's entry for a name is that of the first option of the name, and
      it is the only one. In a tree with at most 127 groups its value leads the
      parser to that option's group, with the option's own key if this has 24
      bits. */
  lemma LongNameReaches(nodes: seq<Node>, prefix: seq<int>, k: nat, i: nat, name: CString) returns (j: nat)
    requires |nodes| <= 127 && FirstNamed(nodes, k, i, name)
    ensures j < |FirstNames(AllCands(nodes))| && FirstNames(AllCands(nodes))[j].name == Some(name)
    ensures forall l :: 0 <= l < |FirstNames(AllCands(nodes))| && FirstNames(AllCands(nodes))[l].name == Some(name) ==>
              l == j
    ensures var o, base, e := nodes[k].opts[i], RealAt(nodes[k].opts, i), FirstNames(AllCands(nodes))[j];
            var key := if o.key != 0 then o.key else base.key;
            && OptGroup(nodes, prefix, e.val) == Some(k)
            && (UserKeyOf(e.val) == key <==> -USER_HALF <= key < USER_HALF)
            && (e.hasArg == NoArgument <==> base.arg.None?)
            && (e.hasArg == OptionalArgument <==> base.arg.Some? && base.argOptional)
  {
    var cands, o, base := AllCands(nodes), nodes[k].opts[i], RealAt(nodes[k].opts, i);
    var table := FirstNames(cands);
    var x := CandOfTree(nodes, k, i, name);
    assert forall m :: 0 <= m < x ==> cands[m] == cands[..x][m];
    FirstNamesNames(cands, Some(name));
    assert HasName(cands, Some(name));
    j :| 0 <= j < |table| && table[j].name == Some(name);
    forall l | 0 <= l < |table| && table[l].name == Some(name)
      ensures l == j
    {
      FirstNamesFirst(cands, l, x);
      FirstNamesFirst(cands, j, x);
    }
    FirstNamesFirst(cands, j, x);
    PackRoundTrip(k, if o.key != 0 then o.key else base.key);
  }
}
