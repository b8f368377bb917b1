/** The option tree of argp.h: options, argps and their children.

    A vector that C ends with a null entry is the sequence of the entries
    before it, and a flag bit is a boolean field. An argp is identified, where
    the code compares or stores its address, by its position in preorder. */
module ArgpTree {
  import opened Wrappers

  /** A NUL-terminated string, without its NUL. */
  type CString = s: string | '\0' !in s

  datatype Opt = Opt(
    name: Option<CString>,
    key: int,
    arg: Option<string>,
    argOptional: bool,
    hidden: bool,
    alias: bool,
    doc: bool,
    noUsage: bool,
    group: int)

  datatype Child = Child(argp: Argp, header: Option<string>, group: int)

  datatype Argp = Argp(
    options: Option<seq<Opt>>,
    hasParser: bool,
    argsDoc: Option<CString>,
    children: seq<Child>)
  {
    function Opts(): seq<Opt> {
      if options.Some? then options.value else []
    }

    /** The argp gets a parsing group of its own. */
    predicate Grouped() {
      options.Some? || hasParser
    }
  }

  /** __option_is_short: not documentation, and a printable character. */
  predicate IsShort(o: Opt) {
    !o.doc && ' ' as int <= o.key <= '~' as int
  }

  /** The first child's argp, a smaller tree than the vector it comes from. */
  function First(cs: seq<Child>): (a: Argp)
    requires cs != []
    ensures cs decreases to a
  {
    assert cs decreases to cs[0];
    cs[0].argp
  }

  /** The number of argps in the tree, and in a vector of children. */
  function Size(a: Argp): nat
    decreases a, 1
  {
    1 + SizeKids(a.children)
  }

  function SizeKids(cs: seq<Child>): nat
    decreases cs, 0
  {
    if cs == [] then 0
    else Size(First(cs)) + SizeKids(cs[1..])
  }

  /** The options REAL refers to at index i: the last one at or before i that
      is not an alias, or the first of all. */
  function RealAt(os: seq<Opt>, i: nat): Opt
    requires i < |os|
  {
    if i == 0 || !os[i].alias then os[i] else RealAt(os, i - 1)
  }

  lemma {:induction false} RealAtIs(os: seq<Opt>, i: nat) returns (j: nat)
    requires i < |os|
    ensures j <= i && RealAt(os, i) == os[j] && (j == 0 || !os[j].alias) && forall k :: j < k <= i ==> os[k].alias
  {
    j := i;
    if i > 0 && os[i].alias {
      j := RealAtIs(os, i - 1);
    }
  }

  /** One declaration in the tree: an option, the option it is an alias of (or
      itself), and the argp that declares it. */
  datatype Occ = Occ(owner: nat, opt: Opt, base: Opt)

  function NodeOccs(os: seq<Opt>, owner: nat): (r: seq<Occ>)
    ensures |r| == |os|
  {
    seq(|os|, i requires 0 <= i < |os| => Occ(owner, os[i], RealAt(os, i)))
  }

  /** Every declaration in the tree rooted at preorder position at, in
      preorder. */
  function TreeOccs(a: Argp, at: nat): seq<Occ>
    decreases a, 1
  {
    NodeOccs(a.Opts(), at) + KidOccs(a.children, at + 1)
  }

  function KidOccs(cs: seq<Child>, at: nat): seq<Occ>
    decreases cs, 0
  {
    if cs == [] then []
    else TreeOccs(First(cs), at) + KidOccs(cs[1..], at + Size(First(cs)))
  }
}
