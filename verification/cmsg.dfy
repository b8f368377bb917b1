/** The walk over ancillary data with CMSG_FIRSTHDR and __cmsg_nxthdr.

    A control buffer is its length and, for every offset, the cmsg_len field a
    header at that offset would have; headers are offsets into it. The lengths
    are 32-bit and the arithmetic 64-bit, so nothing wraps around. */
module Cmsg {
  import opened Wrappers

  const SIZEOF_SIZE_T := 8
  const SIZEOF_CMSGHDR := 12

  type Lengths = nat -> nat

  /** CMSG_ALIGN: clear the low bits of the length plus all of them. */
  function Align(len: nat): (r: nat)
    ensures len <= r < len + SIZEOF_SIZE_T && r % SIZEOF_SIZE_T == 0
  {
    var x := len + SIZEOF_SIZE_T - 1;
    x - x % SIZEOF_SIZE_T
  }

  function Space(len: nat): nat {
    Align(len) + Align(SIZEOF_CMSGHDR)
  }

  function Len(len: nat): nat {
    Align(SIZEOF_CMSGHDR) + len
  }

  /** __CMSG_PADDING. */
  function Padding(len: nat): nat {
    (SIZEOF_SIZE_T - len % SIZEOF_SIZE_T) % SIZEOF_SIZE_T
  }

  lemma PaddingAligns(len: nat)
    ensures len + Padding(len) == Align(len)
  {}

  function FirstHdr(controllen: nat): Option<nat> {
    if controllen >= SIZEOF_CMSGHDR then Some(0) else None
  }

  /** __cmsg_nxthdr for a header at offset p. */
  function NextHdr(controllen: nat, p: nat, cmsgLen: nat): Option<nat>
    requires p <= controllen
  {
    var sizeNeeded := SIZEOF_CMSGHDR + Padding(cmsgLen);
    if cmsgLen < SIZEOF_CMSGHDR then None
    else if controllen - p < sizeNeeded || controllen - p - sizeNeeded < cmsgLen then None
    else Some(p + Align(cmsgLen))
  }

  predicate HeaderInside(controllen: nat, p: nat) {
    p + SIZEOF_CMSGHDR <= controllen
  }

  /** Whatever the header says, the next header is behind it and wholly inside
      the buffer; and there is a next one exactly when this one is not too small
      and the next one would be inside. */
  lemma NextHdrInside(controllen: nat, p: nat, cmsgLen: nat)
    requires HeaderInside(controllen, p)
    ensures NextHdr(controllen, p, cmsgLen).Some? <==>
              cmsgLen >= SIZEOF_CMSGHDR && HeaderInside(controllen, p + Align(cmsgLen))
    ensures NextHdr(controllen, p, cmsgLen).Some? ==>
              var q := NextHdr(controllen, p, cmsgLen).value;
              q >= p + SIZEOF_CMSGHDR && HeaderInside(controllen, q) && p + cmsgLen <= q
  {
    PaddingAligns(cmsgLen);
  }

  /** The offsets the walk visits from header p on. */
  function WalkFrom(lens: Lengths, controllen: nat, p: nat): (r: seq<nat>)
    requires HeaderInside(controllen, p)
    ensures r != [] && r[0] == p
    ensures forall i :: 0 <= i < |r| ==> HeaderInside(controllen, r[i])
    ensures forall i :: 0 <= i < |r| - 1 ==> r[i] + SIZEOF_CMSGHDR <= r[i + 1]
    decreases controllen - p
  {
    NextHdrInside(controllen, p, lens(p));
    match NextHdr(controllen, p, lens(p))
    case None => [p]
    case Some(q) => [p] + WalkFrom(lens, controllen, q)
  }

  function Walk(lens: Lengths, controllen: nat): seq<nat> {
    match FirstHdr(controllen)
    case None => []
    case Some(p) => WalkFrom(lens, controllen, p)
  }

  // ---- buffers built with CMSG_LEN and CMSG_SPACE ----

  /** The offsets of messages with the given data lengths, one CMSG_SPACE after
      the other from offset p on, and the offset behind them. */
  function Offsets(data: seq<nat>, p: nat): (r: seq<nat>)
    ensures |r| == |data|
  {
    if data == [] then [] else [p] + Offsets(data[1..], p + Space(data[0]))
  }

  function EndOf(data: seq<nat>, p: nat): (r: nat)
    ensures r >= p
  {
    if data == [] then p else EndOf(data[1..], p + Space(data[0]))
  }

  /** Every message has its CMSG_LEN in its header. */
  ghost predicate LaidDown(lens: Lengths, data: seq<nat>, p: nat) {
    forall i :: 0 <= i < |data| ==> lens(Offsets(data, p)[i]) == Len(data[i])
  }

  lemma AlignLen(len: nat)
    ensures Align(Len(len)) == Space(len) && Align(SIZEOF_CMSGHDR) == 16
  {
    var x := len + SIZEOF_SIZE_T - 1;
    assert (x + 16) % 8 == x % 8;
  }

  /** The number of leading messages whose headers are inside the buffer. */
  function Reached(data: seq<nat>, p: nat, controllen: nat): (n: nat)
    ensures n <= |data|
  {
    if data == [] || !HeaderInside(controllen, p) then 0
    else 1 + Reached(data[1..], p + Space(data[0]), controllen)
  }

  /** The walk begins with the messages whose headers are inside, in order; it
      ends there if another header would not fit behind the messages, and goes on
      to one that nobody laid down if it would. */
  lemma {:induction false} WalkVisits(lens: Lengths, data: seq<nat>, p: nat, controllen: nat)
    requires data != [] && LaidDown(lens, data, p) && HeaderInside(controllen, p)
    ensures var walk, n := WalkFrom(lens, controllen, p), Reached(data, p, controllen);
            && Offsets(data, p)[..n] <= walk
            && (HeaderInside(controllen, EndOf(data, p)) <==> |walk| > n)
            && (|walk| > n ==> n == |data| && walk[n] == EndOf(data, p))
    decreases |data|
  {
    hide Align, Space, Len, Padding, NextHdr, HeaderInside, LaidDown;
    var rest, q := data[1..], p + Space(data[0]);
    LaidDownFirst(lens, data, p, controllen);
    assert Offsets(data, p)[1..] == Offsets(rest, q);
    if HeaderInside(controllen, q) {
      var n := Reached(rest, q, controllen);
      assert WalkFrom(lens, controllen, p) == [p] + WalkFrom(lens, controllen, q);
      if rest != [] {
        LaidDownRest(lens, data, p);
        WalkVisits(lens, rest, q, controllen);
        assert Offsets(data, p)[..n + 1] == [p] + Offsets(rest, q)[..n];
      } else {
        assert Offsets(data, p)[..1] == [p];
      }
    } else {
      assert Reached(rest, q, controllen) == 0;
      assert Offsets(data, p)[..1] == [p];
      EndIsBehind(rest, q, controllen);
    }
  }

  /** From a message laid down the walk goes to the place one CMSG_SPACE on. */
  lemma LaidDownFirst(lens: Lengths, data: seq<nat>, p: nat, controllen: nat)
    requires data != [] && LaidDown(lens, data, p) && HeaderInside(controllen, p)
    ensures p <= controllen
    ensures var q := p + Space(data[0]);
            NextHdr(controllen, p, lens(p)) == if HeaderInside(controllen, q) then Some(q) else None
  {
    assert lens(p) == Len(data[0]) by { assert Offsets(data, p)[0] == p; }
    AlignLen(data[0]);
    NextHdrInside(controllen, p, lens(p));
  }

  lemma LaidDownRest(lens: Lengths, data: seq<nat>, p: nat)
    requires data != [] && LaidDown(lens, data, p)
    ensures LaidDown(lens, data[1..], p + Space(data[0]))
  {
    var rest, q := data[1..], p + Space(data[0]);
    forall i | 0 <= i < |rest|
      ensures lens(Offsets(rest, q)[i]) == Len(rest[i])
    {
      assert Offsets(data, p)[i + 1] == Offsets(rest, q)[i] && data[i + 1] == rest[i];
    }
  }

  lemma EndIsBehind(data: seq<nat>, p: nat, controllen: nat)
    requires !HeaderInside(controllen, p)
    ensures !HeaderInside(controllen, EndOf(data, p))
  {}

  lemma {:induction false} ReachesAll(data: seq<nat>, p: nat, controllen: nat)
    requires data != []
    ensures Reached(data, p, controllen) == |data| <==> HeaderInside(controllen, Offsets(data, p)[|data| - 1])
    ensures p <= Offsets(data, p)[|data| - 1]
    decreases |data|
  {
    if |data| > 1 {
      ReachesAll(data[1..], p + Space(data[0]), controllen);
    }
  }

  /** It visits exactly the messages laid down if and only if the last header is
      inside and there is no room for another one behind the messages; so it does
      for a buffer as long as the CMSG_SPACEs together. */
  lemma WalkVisitsAll(lens: Lengths, data: seq<nat>, controllen: nat)
    requires LaidDown(lens, data, 0)
    ensures Walk(lens, controllen) == Offsets(data, 0)
            <==> (data != [] ==> HeaderInside(controllen, Offsets(data, 0)[|data| - 1]))
                 && !HeaderInside(controllen, EndOf(data, 0))
    ensures controllen == EndOf(data, 0) ==> Walk(lens, controllen) == Offsets(data, 0)
  {
    hide Align, Space, Len, Padding, NextHdr, LaidDown;
    var all, n := Offsets(data, 0), Reached(data, 0, controllen);
    if data != [] {
      ReachesAll(data, 0, controllen);
      LastInside(data, 0);
      assert all[..|data|] == all;
      if HeaderInside(controllen, 0) {
        WalkVisits(lens, data, 0, controllen);
        assert |all[..n]| == n;
      }
    }
  }

  lemma {:induction false} LastInside(data: seq<nat>, p: nat)
    requires data != []
    ensures HeaderInside(EndOf(data, p), Offsets(data, p)[|data| - 1])
    decreases |data|
  {
    AlignLen(data[0]);
    if |data| > 1 {
      LastInside(data[1..], p + Space(data[0]));
    }
  }
}
