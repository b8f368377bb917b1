/** The listing of ls from the names to the printed lines: read down its columns
    it is the sorted names, and then padding. */
module LsListing {
  import opened ArgpTree
  import opened LexOrder
  import opened Arithmetic
  import opened LsGrid

  // ---- the sorted places ----

  datatype SortBy = ByName | ByWidth | Unsorted

  /** The comparison that sort hands to qsort, of two places in the names. */
  function Compare(names: seq<CString>, how: SortBy, reverse: bool, a: nat, b: nat): int
    requires a < |names| && b < |names|
  {
    var polarity := if reverse then -1 else 1;
    match how
    case ByName => CompareNames(names[a], names[b], polarity)
    case ByWidth => CompareLengths(names[a], names[b], polarity)
    case Unsorted => if reverse then ReverseOrder(a, b) else a - b
  }

  /** What sort leaves in the map: every place once, none before one that it
      compares greater than. Unsorted names are left as they are. */
  ghost predicate IsSorted(names: seq<CString>, how: SortBy, reverse: bool, places: seq<nat>) {
    && |places| == |names|
    && (forall i :: 0 <= i < |places| ==> places[i] < |names|)
    && (forall i, j :: 0 <= i < j < |places| ==> places[i] != places[j])
    && forall i, j :: 0 <= i < j < |places| ==> Compare(names, how, reverse, places[i], places[j]) <= 0
  }

  lemma {:induction false} CodesAt(s: CString)
    ensures |Codes(s)| == |s| && forall i :: 0 <= i < |s| ==> Codes(s)[i] == s[i] as int
  {
    if s != [] {
      CodesAt(s[1..]);
      assert forall i :: 1 <= i < |s| ==> s[i] == s[1..][i - 1];
    }
  }

  /** Sorted names ascend by their characters, or by their lengths and among
      equally long ones by their characters; with -r they descend. */
  lemma SortedPlaces(names: seq<CString>, how: SortBy, reverse: bool, places: seq<nat>, i: nat, j: nat)
    requires IsSorted(names, how, reverse, places) && i < j < |places|
    ensures var first := names[if reverse then places[j] else places[i]];
            var second := names[if reverse then places[i] else places[j]];
            && (how.ByName? ==> LexCmp(Codes(first), Codes(second)) <= 0)
            && (how.ByWidth? ==> |first| < |second|
                                 || (|first| == |second| && LexCmp(Codes(first), Codes(second)) <= 0))
  {
    hide LexCmp, Codes, CompareNames, CompareLengths;
    var a, b := names[places[i]], names[places[j]];
    assert Compare(names, how, reverse, places[i], places[j]) <= 0;
    ComparisonsAreLex(a, b, if reverse then -1 else 1);
    LexHead(|a|, |b|, Codes(a), Codes(b));
    LexAntisymmetric(Codes(a), Codes(b));
  }

  /** So unsorted names come in their own order, and with -r in the opposite one. */
  lemma UnsortedPlaces(names: seq<CString>, reverse: bool, places: seq<nat>, i: nat)
    requires IsSorted(names, Unsorted, reverse, places) && i < |places|
    ensures places[i] == if reverse then |names| - 1 - i else i
  {
    forall k, l | 0 <= k < l < |places|
      ensures if reverse then places[k] > places[l] else places[k] < places[l]
    {
      assert Compare(names, Unsorted, reverse, places[k], places[l]) <= 0 && places[k] != places[l];
    }
    if reverse {
      FromAbove(places, |names|, i);
    } else {
      FromBelow(places, |names|, i);
    }
  }

  /** N different numbers below N in ascending order. */
  lemma {:induction false} FromBelow(m: seq<nat>, n: nat, i: nat)
    requires |m| == n && i < n && (forall k :: 0 <= k < n ==> m[k] < n)
            && (forall k, l :: 0 <= k < l < n ==> m[k] < m[l])
    ensures m[i] == i
  {
    AtLeast(m, i);
    AtMost(m, n, i);
  }

  lemma {:induction false} AtLeast(m: seq<nat>, i: nat)
    requires i < |m| && forall k, l :: 0 <= k < l < |m| ==> m[k] < m[l]
    ensures m[i] >= i
  {
    if i > 0 {
      AtLeast(m, i - 1);
    }
  }

  lemma {:induction false} AtMost(m: seq<nat>, n: nat, i: nat)
    requires i < |m| == n && (forall k :: 0 <= k < n ==> m[k] < n) && forall k, l :: 0 <= k < l < |m| ==> m[k] < m[l]
    ensures m[i] <= i
    decreases n - i
  {
    if i < n - 1 {
      AtMost(m, n, i + 1);
    }
  }

  lemma FromAbove(m: seq<nat>, n: nat, i: nat)
    requires |m| == n && i < n && (forall k :: 0 <= k < n ==> m[k] < n)
            && (forall k, l :: 0 <= k < l < n ==> m[k] > m[l])
    ensures m[i] == n - 1 - i
  {
    var turned: seq<nat> := seq(n, k requires 0 <= k < n => n - 1 - m[k]);
    FromBelow(turned, n, i);
  }

  // ---- the printed cells ----

  /** Where column c begins in a line. */
  function Offset(sizes: seq<nat>, c: nat): nat
    requires c <= |sizes|
  {
    if c == 0 then 0 else Offset(sizes, c - 1) + sizes[c - 1] + 2
  }

  lemma {:induction false} OffsetGrows(sizes: seq<nat>, c: nat, d: nat)
    requires c <= d <= |sizes|
    ensures Offset(sizes, c) <= Offset(sizes, d)
  {
    if c < d {
      OffsetGrows(sizes, c, d - 1);
    }
  }

  ghost predicate AllWide(listing: seq<string>, sizes: seq<nat>, rows: nat)
    requires rows >= 1
  {
    forall c :: 0 <= c < |sizes| ==> ColumnWidth(listing, rows, c, sizes[c])
  }

  lemma CellFits(listing: seq<string>, sizes: seq<nat>, rows: nat, r: nat, c: nat)
    requires r < rows && c < |sizes| && |listing| == |sizes| * rows && AllWide(listing, sizes, rows)
    ensures rows * c + r < |listing| && |Pad(listing[rows * c + r], sizes[c] + 2)| == sizes[c] + 2
  {
    CellWidth(listing, sizes, rows, r, c, sizes[c]);
  }

  /** The part of line r that belongs to column c shows the entry of that cell. */
  lemma {:induction false} CellText(listing: seq<string>, sizes: seq<nat>, rows: nat, r: nat, n: nat, c: nat)
    requires r < rows && c < n <= |sizes| && |listing| == |sizes| * rows && AllWide(listing, sizes, rows)
    ensures |Row(listing, sizes, rows, r, n)| == Offset(sizes, n)
    ensures Offset(sizes, c) <= Offset(sizes, c + 1) <= Offset(sizes, n) && rows * c + r < |listing|
    ensures Row(listing, sizes, rows, r, n)[Offset(sizes, c)..Offset(sizes, c + 1)]
            == Pad(listing[rows * c + r], sizes[c] + 2)
  {
    hide Row, AllWide, Pad;
    OffsetGrows(sizes, c, c + 1);
    OffsetGrows(sizes, c + 1, n);
    RowStarts(listing, sizes, rows);
    RowStep(listing, sizes, rows, r, n - 1);
    CellFits(listing, sizes, rows, r, n - 1);
    RowLength(listing, sizes, rows, r, n - 1);
    CellFits(listing, sizes, rows, r, c);
    if c < n - 1 {
      CellText(listing, sizes, rows, r, n - 1, c);
      OffsetGrows(sizes, c + 1, n - 1);
    }
  }

  lemma {:induction false} RowLength(listing: seq<string>, sizes: seq<nat>, rows: nat, r: nat, n: nat)
    requires r < rows && n <= |sizes| && |listing| == |sizes| * rows && AllWide(listing, sizes, rows)
    ensures |Row(listing, sizes, rows, r, n)| == Offset(sizes, n)
  {
    hide Row, AllWide, Pad;
    if n == 0 {
      RowStarts(listing, sizes, rows);
    } else {
      RowLength(listing, sizes, rows, r, n - 1);
      RowStep(listing, sizes, rows, r, n - 1);
      CellFits(listing, sizes, rows, r, n - 1);
    }
  }

  // ---- print_dir ----

  function MaxLen(names: seq<CString>): (n: nat)
    ensures forall i :: 0 <= i < |names| ==> |names[i]| <= n
    ensures if names == [] then n == 0 else exists i :: 0 <= i < |names| && |names[i]| == n
  {
    if names == [] then 0
    else
      var k := |names| - 1;
      var m := MaxLen(names[..k]);
      if |names[k]| > m then |names[k]| else m
  }

  /** read_dir's greatest length. Names of directory entries have at most 255
      characters. */
  method MaxSize(names: seq<CString>) returns (max: nat)
    requires forall i :: 0 <= i < |names| ==> |names[i]| <= 255
    ensures max == MaxLen(names)
  {
    max := 0;
    for i := 0 to |names|
      invariant max == MaxLen(names[..i])
    {
      assert names[..i + 1][..i] == names[..i];
      var size := if |names[i]| < 255 then |names[i]| else 255;
      max := if max > size then max else size;
    }
    assert names[..|names|] == names;
  }

  /** What the k-th place of the listing shows: the sorted names, and nothing. */
  function Entry(names: seq<CString>, places: seq<nat>, k: nat): string
    requires |places| == |names| && forall i :: 0 <= i < |places| ==> places[i] < |names|
  {
    if k < |places| then names[places[k]] else ""
  }

  /** Column by column, line after line, the grid shows the entries in order. */
  ghost predicate ReadsDown(grid: Layout, names: seq<CString>, places: seq<nat>)
    requires |places| == |names| && forall i :: 0 <= i < |places| ==> places[i] < |names|
  {
    && grid.Grid? && grid.rows >= 1 && |grid.lines| == grid.rows
    && |names| <= |grid.sizes| * grid.rows
    && forall k :: 0 <= k < |grid.sizes| * grid.rows ==> ShowsAt(grid, k, Entry(names, places, k))
  }

  /** The name and nothing but spaces behind it, at least two of them. */
  ghost predicate ShowsIn(cell: string, name: string) {
    name <= cell && |cell| >= |name| + 2 && forall i :: |name| <= i < |cell| ==> cell[i] == ' '
  }

  /** The line and the column of place k show the name. */
  ghost predicate ShowsAt(grid: Layout, k: nat, name: string)
    requires grid.Grid? && grid.rows >= 1 && |grid.lines| == grid.rows
  {
    var r, c := k % grid.rows, k / grid.rows;
    && c < |grid.sizes| && Offset(grid.sizes, c) <= Offset(grid.sizes, c + 1) <= |grid.lines[r]|
    && ShowsIn(grid.lines[r][Offset(grid.sizes, c)..Offset(grid.sizes, c + 1)], name)
  }

  /** print_dir for the names of a directory, sorted through the map. */
  method PrintDir(names: seq<CString>, how: SortBy, reverse: bool, places: seq<nat>, width: nat) returns (grid: Layout)
    requires forall i :: 0 <= i < |names| ==> |names[i]| <= 255
    requires IsSorted(names, how, reverse, places)
    ensures grid == Nothing <==> names == []
    ensures grid == Trap <==> names != [] && width < MaxLen(names) + 2
    ensures names != [] && width >= MaxLen(names) + 2 ==> ReadsDown(grid, names, places)
    ensures names != [] && width >= MaxLen(names) + 2 ==> forall r :: 0 <= r < grid.rows ==> |grid.lines[r]| <= width
  {
    hide ShowsAt, ColumnWidth, Row, MaxLen, Compare;
    var max := MaxSize(names);
    var sorted := seq(|places|, i requires 0 <= i < |places| => names[places[i]]);
    grid := PrintGrid(sorted, width, max);
    if grid.Grid? {
      forall k | 0 <= k < |grid.sizes| * grid.rows
        ensures ShowsAt(grid, k, Entry(names, places, k))
      {
        PlaceShown(grid, sorted, width, max, k);
      }
    }
  }

  lemma PlaceShown(grid: Layout, sorted: seq<string>, width: nat, max: nat, k: nat)
    requires IsGrid(grid, sorted, width, max) && k < |grid.listing|
    ensures ShowsAt(grid, k, if k < |sorted| then sorted[k] else "")
  {
    hide Row, Offset, AllWide, ShowsIn;
    var columns, rows := |grid.sizes|, grid.rows;
    var r, c := k % rows, k / rows;
    RowColumn(columns, rows, k);
    Swap(rows, c);
    GridIsWide(grid, sorted, width, max);
    CellShown(grid.listing, grid.sizes, rows, r, c);
    assert grid.lines[r] == Row(grid.listing, grid.sizes, rows, r, columns);
    assert k < |sorted| ==> grid.listing[k] == sorted[k];
  }

  lemma GridIsWide(grid: Layout, sorted: seq<string>, width: nat, max: nat)
    requires IsGrid(grid, sorted, width, max)
    ensures AllWide(grid.listing, grid.sizes, grid.rows)
  {}

  lemma CellShown(listing: seq<string>, sizes: seq<nat>, rows: nat, r: nat, c: nat)
    requires r < rows && c < |sizes| && |listing| == |sizes| * rows && AllWide(listing, sizes, rows)
    ensures var row := Row(listing, sizes, rows, r, |sizes|);
            && rows * c + r < |listing| && Offset(sizes, c) <= Offset(sizes, c + 1) <= |row|
            && ShowsIn(row[Offset(sizes, c)..Offset(sizes, c + 1)], listing[rows * c + r])
  {
    hide *;
    CellText(listing, sizes, rows, r, |sizes|, c);
    NameFits(listing, sizes, rows, r, c);
    PadShows(listing[rows * c + r], sizes[c] + 2);
  }

  lemma NameFits(listing: seq<string>, sizes: seq<nat>, rows: nat, r: nat, c: nat)
    requires r < rows && c < |sizes| && |listing| == |sizes| * rows && AllWide(listing, sizes, rows)
    ensures rows * c + r < |listing| && |listing[rows * c + r]| <= sizes[c]
  {
    CellOf(rows, |sizes|, r, c);
    ColumnOf(rows, c, r);
    assert ColumnWidth(listing, rows, c, sizes[c]);
  }

  lemma PadShows(name: string, w: nat)
    requires |name| + 2 <= w
    ensures ShowsIn(Pad(name, w), name)
  {}
}
