/** The listing of ls: how names are ordered, and the grid they are printed in. */
module LsGrid {
  import opened ArgpTree
  import opened LexOrder
  import opened Arithmetic

  // ---- the orders ----

  /** The index of the first character at which two strings differ decides. */
  function StrCmp(a: CString, b: CString): int {
    var x := if a == [] then 0 else a[0] as int;
    var y := if b == [] then 0 else b[0] as int;
    if x != y || a == [] || b == [] then x - y else StrCmp(a[1..], b[1..])
  }

  function CompareNames(a: CString, b: CString, polarity: int): int {
    StrCmp(a, b) * polarity
  }

  function CompareLengths(a: CString, b: CString, polarity: int): int {
    if |a| == |b| then StrCmp(a, b) * polarity
    else (if |a| >= |b| then (if |a| > |b| then 1 else 0) else -1) * polarity
  }

  function ReverseOrder(a: nat, b: nat): int {
    if a <= b then (if a < b then 1 else 0) else -1
  }

  function Codes(s: CString): seq<int> {
    if s == [] then [] else [s[0] as int] + Codes(s[1..])
  }

  lemma {:induction false} StrCmpIsLex(a: CString, b: CString)
    ensures Sign(StrCmp(a, b)) == LexCmp(Codes(a), Codes(b))
  {
    if a != [] && b != [] {
      StrCmpIsLex(a[1..], b[1..]);
      LexHead(a[0] as int, b[0] as int, Codes(a[1..]), Codes(b[1..]));
    } else if a != [] {
      assert a[0] != '\0';
    } else if b != [] {
      assert b[0] != '\0';
    }
  }

  /** Both comparisons are lexicographic orders, turned around for a polarity of
      -1: by the characters, or by the length and then the characters. */
  lemma ComparisonsAreLex(a: CString, b: CString, polarity: int)
    requires polarity == 1 || polarity == -1
    ensures Sign(CompareNames(a, b, polarity)) == polarity * LexCmp(Codes(a), Codes(b))
    ensures Sign(CompareLengths(a, b, polarity)) == polarity * LexCmp([|a|] + Codes(a), [|b|] + Codes(b))
  {
    hide StrCmp, LexCmp;
    StrCmpIsLex(a, b);
    LexHead(|a|, |b|, Codes(a), Codes(b));
    Turned(StrCmp(a, b), polarity);
    Turned(if |a| > |b| then 1 else -1, polarity);
  }

  /** The comparison for unsorted names in reverse is the descending order of
      their places. */
  lemma ReverseOrderDescends(a: nat, b: nat, c: nat)
    ensures Sign(ReverseOrder(a, b)) == Sign(b - a)
    ensures ReverseOrder(a, b) == -ReverseOrder(b, a) && (ReverseOrder(a, b) == 0 <==> a == b)
    ensures ReverseOrder(a, b) <= 0 && ReverseOrder(b, c) <= 0 ==> ReverseOrder(a, c) <= 0
  {}

  lemma Turned(x: int, polarity: int)
    requires polarity == 1 || polarity == -1
    ensures Sign(x * polarity) == polarity * Sign(x)
  {
    if polarity == 1 {
      assert x * polarity == x;
    } else {
      assert x * polarity == -x;
    }
  }

  /** So qsort meets a consistent order: equal keys only for equal names, the
      sign antisymmetric, and the comparison transitive. */
  lemma ComparisonsAreOrders(a: CString, b: CString, c: CString, polarity: int, byLength: bool)
    requires polarity == 1 || polarity == -1
    ensures var cmp := if byLength then CompareLengths else CompareNames;
            && (cmp(a, b, polarity) == 0 <==> a == b)
            && Sign(cmp(a, b, polarity)) == -Sign(cmp(b, a, polarity))
            && (cmp(a, b, polarity) <= 0 && cmp(b, c, polarity) <= 0 ==> cmp(a, c, polarity) <= 0)
  {
    hide StrCmp, LexCmp, CompareNames, CompareLengths, Codes;
    ComparisonsAreLex(a, b, polarity);
    ComparisonsAreLex(b, a, polarity);
    ComparisonsAreLex(b, c, polarity);
    ComparisonsAreLex(a, c, polarity);
    CodesInjective(a, b);
    var x, y, z := Codes(a), Codes(b), Codes(c);
    KeysOrder(x, y, z, polarity);
    KeysOrder([|a|] + x, [|b|] + y, [|c|] + z, polarity);
    assert [|a|] + x == [|b|] + y ==> x == y by {
      assert ([|a|] + x)[1..] == x && ([|b|] + y)[1..] == y;
    }
  }

  lemma KeysOrder(x: seq<int>, y: seq<int>, z: seq<int>, polarity: int)
    requires polarity == 1 || polarity == -1
    ensures LexCmp(x, y) == 0 <==> x == y
    ensures LexCmp(x, y) == -LexCmp(y, x)
    ensures polarity * LexCmp(x, y) <= 0 && polarity * LexCmp(y, z) <= 0 ==> polarity * LexCmp(x, z) <= 0
  {
    LexZero(x, y);
    LexAntisymmetric(x, y);
    LexAntisymmetric(y, z);
    LexAntisymmetric(x, z);
    if LexCmp(x, y) <= 0 && LexCmp(y, z) <= 0 {
      LexTransitive(x, y, z);
    }
    if LexCmp(z, y) <= 0 && LexCmp(y, x) <= 0 {
      LexTransitive(z, y, x);
    }
  }

  lemma {:induction false} CodesInjective(a: CString, b: CString)
    ensures Codes(a) == Codes(b) <==> a == b
  {
    if a != [] && b != [] {
      CodesInjective(a[1..], b[1..]);
      assert a == [a[0]] + a[1..] && b == [b[0]] + b[1..];
      assert Codes(a)[0] == a[0] as int && Codes(b)[0] == b[0] as int;
      assert Codes(a)[1..] == Codes(a[1..]) && Codes(b)[1..] == Codes(b[1..]);
    }
  }

  // ---- the grid ----

  /** The entry shown in the i-th cell, counting cells line by line. */
  function CellIndex(rows: nat, columns: nat, i: nat): nat
    requires columns >= 1
  {
    rows * (i % columns) + i / columns
  }

  lemma CellOf(rows: nat, columns: nat, r: nat, c: nat)
    requires r < rows && c < columns
    ensures r * columns + c < columns * rows && rows * c + r < columns * rows
    ensures CellIndex(rows, columns, r * columns + c) == rows * c + r
  {
    DivMod(r, c, columns);
    MulStep(r, rows, columns);
    MulStep(c, columns, rows);
    assert columns * rows == rows * columns && c * rows == rows * c;
  }

  lemma RowColumn(rows: nat, columns: nat, i: nat)
    requires columns >= 1 && i < columns * rows
    ensures i / columns < rows && i % columns < columns && i == (i / columns) * columns + i % columns
  {
    assert i == (i / columns) * columns + i % columns;
    if rows <= i / columns {
      assert rows * columns <= (i / columns) * columns by {
        if rows < i / columns {
          MulStep(rows, i / columns, columns);
        }
      }
    }
    assert columns * rows == rows * columns;
  }

  /** CellIndex is a bijection on the cells: it stays inside the grid, the same
      map with rows and columns exchanged undoes it from both sides. */
  lemma CellIndexBijective(rows: nat, columns: nat, i: nat)
    requires columns >= 1 && rows >= 1 && i < columns * rows
    ensures CellIndex(rows, columns, i) < columns * rows
    ensures CellIndex(columns, rows, CellIndex(rows, columns, i)) == i
    ensures CellIndex(columns, rows, i) < columns * rows
    ensures CellIndex(rows, columns, CellIndex(columns, rows, i)) == i
  {
    assert columns * rows == rows * columns;
    Undone(rows, columns, i);
    Undone(columns, rows, i);
  }

  lemma Undone(rows: nat, columns: nat, i: nat)
    requires columns >= 1 && rows >= 1 && i < columns * rows
    ensures CellIndex(rows, columns, i) < columns * rows
    ensures CellIndex(columns, rows, CellIndex(rows, columns, i)) == i
  {
    RowColumn(rows, columns, i);
    UndoneAt(rows, columns, i / columns, i % columns);
  }

  lemma UndoneAt(rows: nat, columns: nat, r: nat, c: nat)
    requires r < rows && c < columns
    ensures CellIndex(rows, columns, r * columns + c) < columns * rows
    ensures CellIndex(columns, rows, CellIndex(rows, columns, r * columns + c)) == r * columns + c
  {
    hide CellIndex;
    CellOf(rows, columns, r, c);
    CellOf(columns, rows, c, r);
    Swap(rows, c);
    Swap(columns, r);
  }

  // ---- print_dir ----

  /** "%-*s": the name, padded on the right. */
  function Pad(s: string, w: nat): (r: string)
    ensures |r| == if |s| > w then |s| else w
    ensures s <= r && forall i :: |s| <= i < |r| ==> r[i] == ' '
  {
    if |s| >= w then s else s + seq(w - |s|, _ => ' ')
  }

  /** Row r of the grid up to column n. */
  function Row(listing: seq<string>, sizes: seq<nat>, rows: nat, r: nat, n: nat): string
    requires r < rows && n <= |sizes| && |listing| == |sizes| * rows
  {
    if n == 0 then ""
    else
      CellOf(rows, |sizes|, r, n - 1);
      Row(listing, sizes, rows, r, n - 1) + Pad(listing[rows * (n - 1) + r], sizes[n - 1] + 2)
  }

  /** The width of column c: enough for each of its names, and reached by one. */
  ghost predicate ColumnWidth(listing: seq<string>, rows: nat, c: nat, w: nat)
    requires rows >= 1
  {
    && (forall i :: 0 <= i < |listing| && i / rows == c ==> |listing[i]| <= w)
    && (w > 0 ==> exists i :: 0 <= i < |listing| && i / rows == c && |listing[i]| == w)
  }

  lemma {:induction false} RowWidth(listing: seq<string>, sizes: seq<nat>, rows: nat, r: nat, n: nat, max: nat)
    requires r < rows && n <= |sizes| && |listing| == |sizes| * rows
    requires forall c :: 0 <= c < |sizes| ==> ColumnWidth(listing, rows, c, sizes[c]) && sizes[c] <= max
    ensures |Row(listing, sizes, rows, r, n)| <= n * (max + 2)
  {
    hide Row, ColumnWidth, Pad;
    if n == 0 {
      RowStarts(listing, sizes, rows);
    } else {
      RowWidth(listing, sizes, rows, r, n - 1, max);
      CellWidth(listing, sizes, rows, r, n - 1, max);
      RowStep(listing, sizes, rows, r, n - 1);
      MulStep(n - 1, n, max + 2);
    }
  }

  lemma CellWidth(listing: seq<string>, sizes: seq<nat>, rows: nat, r: nat, c: nat, max: nat)
    requires r < rows && c < |sizes| && |listing| == |sizes| * rows
    requires ColumnWidth(listing, rows, c, sizes[c]) && sizes[c] <= max
    ensures rows * c + r < |listing| && |Pad(listing[rows * c + r], sizes[c] + 2)| <= max + 2
  {
    CellOf(rows, |sizes|, r, c);
    ColumnOf(rows, c, r);
  }

  lemma ColumnOf(rows: nat, c: nat, r: nat)
    requires r < rows
    ensures (rows * c + r) / rows == c
  {
    DivMod(c, r, rows);
    assert rows * c == c * rows;
  }

  /** The number of rows is enough for all entries, and no more than enough. */
  lemma RowsSuffice(count: nat, columns: nat)
    requires columns >= 1
    ensures var rows := (count + columns - 1) / columns;
            && count <= columns * rows < count + columns
            && (count >= 1 ==> rows >= 1)
  {
    var x := count + columns - 1;
    assert x == (x / columns) * columns + x % columns;
    assert columns * (x / columns) == (x / columns) * columns;
  }

  /** What print_dir comes to: nothing for an empty directory; a trap, as the
      division by a number of columns of 0 is one; or LINES, which show LISTING
      in ROWS rows and columns of these SIZES. */
  datatype Layout = Nothing | Trap | Grid(lines: seq<string>, listing: seq<string>, sizes: seq<nat>, rows: nat)

  ghost predicate IsGrid(g: Layout, sorted: seq<string>, width: nat, maxSize: nat) {
    && g.Grid? && |g.lines| == g.rows >= 1 && |g.sizes| == width / (maxSize + 2) >= 1
    && |g.listing| == |g.sizes| * g.rows < |sorted| + |g.sizes|
    && sorted <= g.listing && (forall i :: |sorted| <= i < |g.listing| ==> g.listing[i] == "")
    && (forall c :: 0 <= c < |g.sizes| ==> ColumnWidth(g.listing, g.rows, c, g.sizes[c]))
    && forall r :: 0 <= r < g.rows ==>
         g.lines[r] == Row(g.listing, g.sizes, g.rows, r, |g.sizes|) && |g.lines[r]| <= width
  }

  /** The layout part of print_dir for the sorted names, of which MAXSIZE is the
      greatest length. */
  method PrintGrid(sorted: seq<string>, width: nat, maxSize: nat) returns (grid: Layout)
    requires forall i :: 0 <= i < |sorted| ==> |sorted[i]| <= maxSize
    ensures grid == Nothing <==> sorted == []
    ensures grid == Trap <==> sorted != [] && width < maxSize + 2
    ensures sorted != [] && width >= maxSize + 2 <==> IsGrid(grid, sorted, width, maxSize)
  {
    if sorted == [] {
      return Nothing;
    }
    var columns := width / (maxSize + 2);
    AtLeastOne(width, maxSize + 2);
    if columns == 0 {
      return Trap;
    }
    var rows := (|sorted| + columns - 1) / columns;
    RowsSuffice(|sorted|, columns);
    var listing := sorted + seq(columns * rows - |sorted|, _ => "");
    var sizes := ColumnSizes(listing, columns, rows, maxSize);
    var lines := GridLines(listing, sizes[..], rows);
    forall r | 0 <= r < rows
      ensures |lines[r]| <= width
    {
      RowWidth(listing, sizes[..], rows, r, columns, maxSize);
      FloorProduct(width, maxSize + 2);
    }
    grid := Grid(lines, listing, sizes[..], rows);
  }

  lemma AtLeastOne(width: nat, cell: nat)
    requires 1 <= cell
    ensures width / cell >= 1 <==> cell <= width
  {
    if width < cell {
      DivMod(0, width, cell);
    }
  }

  lemma FloorProduct(width: nat, cell: nat)
    requires cell >= 1
    ensures (width / cell) * cell <= width
  {}

  method ColumnSizes(listing: seq<string>, columns: nat, rows: nat, ghost max: nat) returns (sizes: array<nat>)
    requires rows >= 1 && columns >= 1 && |listing| == columns * rows
    requires forall i :: 0 <= i < |listing| ==> |listing[i]| <= max
    ensures fresh(sizes) && sizes.Length == columns
    ensures forall c :: 0 <= c < columns ==> ColumnWidth(listing, rows, c, sizes[c]) && sizes[c] <= max
  {
    sizes := new nat[columns](_ => 0);
    for i := 0 to |listing|
      invariant forall c :: 0 <= c < columns ==> ColumnWidth(listing[..i], rows, c, sizes[c]) && sizes[c] <= max
    {
      assert columns * rows == rows * columns;
      RowColumn(columns, rows, i);
      var idx := i / rows;
      ghost var before := sizes[..];
      if sizes[idx] < |listing[i]| {
        sizes[idx] := |listing[i]|;
      }
      forall c | 0 <= c < columns
        ensures ColumnWidth(listing[..i + 1], rows, c, sizes[c]) && sizes[c] <= max
      {
        WidthStep(listing, rows, c, i, before[c], sizes[c]);
      }
    }
    assert listing[..|listing|] == listing;
  }

  lemma WidthStep(listing: seq<string>, rows: nat, c: nat, i: nat, w: nat, w': nat)
    requires rows >= 1 && i < |listing| && ColumnWidth(listing[..i], rows, c, w)
    requires w' == if i / rows == c && w < |listing[i]| then |listing[i]| else w
    ensures ColumnWidth(listing[..i + 1], rows, c, w')
  {
    var a, b := listing[..i], listing[..i + 1];
    assert forall k :: 0 <= k < i ==> b[k] == a[k];
    if w' > 0 {
      if w' == w {
        var k :| 0 <= k < |a| && k / rows == c && |a[k]| == w;
        assert |b[k]| == w';
      } else {
        assert |b[i]| == w';
      }
    }
  }

  /** The printing loop: one cell after the other, a newline behind the last
      column. */
  method GridLines(listing: seq<string>, sizes: seq<nat>, rows: nat) returns (lines: seq<string>)
    requires rows >= 1 && |sizes| >= 1 && |listing| == |sizes| * rows
    ensures |lines| == rows
    ensures forall r :: 0 <= r < rows ==> lines[r] == Row(listing, sizes, rows, r, |sizes|)
  {
    hide CellIndex, Place, Row;
    var columns := |sizes|;
    lines := [];
    PlaceStarts(columns);
    RowStarts(listing, sizes, rows);
    var line := "";
    ghost var r, c := 0, 0;
    for i := 0 to |listing|
      invariant i == Place(r, c, columns) && c < columns && |lines| == r <= rows
      invariant r < rows ==> line == Row(listing, sizes, rows, r, c)
      invariant r == rows ==> c == 0
      invariant forall k :: 0 <= k < r ==> lines[k] == Row(listing, sizes, rows, k, columns)
    {
      CellAt(i, r, c, columns, rows);
      RowStep(listing, sizes, rows, r, c);
      var idx := CellIndex(rows, columns, i);
      line := line + Pad(listing[idx], sizes[i % columns] + 2);
      if i % columns == columns - 1 {
        lines, line := lines + [line], "";
        r, c := r + 1, 0;
      } else {
        c := c + 1;
      }
    }
    if r < rows {
      PlaceInside(r, c, columns, rows);
    }
  }

  /** The cell of row r and column c, counting cells line by line. */
  ghost function Place(r: nat, c: nat, columns: nat): nat {
    r * columns + c
  }

  lemma PlaceStarts(columns: nat)
    ensures Place(0, 0, columns) == 0
  {}

  lemma PlaceInside(r: nat, c: nat, columns: nat, rows: nat)
    requires r < rows && c < columns
    ensures Place(r, c, columns) < columns * rows
  {
    CellOf(rows, columns, r, c);
  }

  lemma RowStarts(listing: seq<string>, sizes: seq<nat>, rows: nat)
    requires |listing| == |sizes| * rows
    ensures forall r :: 0 <= r < rows ==> Row(listing, sizes, rows, r, 0) == ""
  {}

  lemma RowStep(listing: seq<string>, sizes: seq<nat>, rows: nat, r: nat, c: nat)
    requires |listing| == |sizes| * rows && r < rows && c < |sizes|
    ensures rows * c + r < |listing|
    ensures Row(listing, sizes, rows, r, c + 1)
            == Row(listing, sizes, rows, r, c) + Pad(listing[rows * c + r], sizes[c] + 2)
  {
    CellOf(rows, |sizes|, r, c);
  }

  /** The i-th cell, and the place of the next one. */
  lemma CellAt(i: nat, r: nat, c: nat, columns: nat, rows: nat)
    requires i == Place(r, c, columns) && c < columns && r <= rows && i < columns * rows
    ensures r < rows && i % columns == c && CellIndex(rows, columns, i) == rows * c + r
    ensures i + 1 == if c == columns - 1 then Place(r + 1, 0, columns) else Place(r, c + 1, columns)
  {
    InGrid(r, c, columns, rows);
    DivMod(r, c, columns);
    CellOf(rows, columns, r, c);
    assert (r + 1) * columns == r * columns + columns;
  }

  lemma InGrid(r: nat, c: nat, columns: nat, rows: nat)
    requires r <= rows && r * columns + c < columns * rows
    ensures r < rows
  {}

  /** Column by column, the cells of the printed rows are the listing. */
  lemma ColumnsReadInOrder(listing: seq<string>, rows: nat, columns: nat, k: nat)
    requires rows >= 1 && columns >= 1 && |listing| == columns * rows && k < |listing|
    ensures var cell := CellIndex(columns, rows, k);
            && cell / columns == k % rows && cell % columns == k / rows
            && CellIndex(rows, columns, cell) == k
  {
    hide CellIndex;
    CellIndexBijective(rows, columns, k);
    Undone(columns, rows, k);
    CellPlace(rows, columns, k);
  }

  lemma CellPlace(rows: nat, columns: nat, k: nat)
    requires columns >= 1 && rows >= 1 && k < columns * rows
    ensures CellIndex(columns, rows, k) / columns == k % rows && CellIndex(columns, rows, k) % columns == k / rows
  {
    var r, c := k % rows, k / rows;
    assert c < columns by { Swap(columns, rows); RowColumn(columns, rows, k); }
    var cell := r * columns + c;
    DivMod(r, c, columns);
    assert CellIndex(columns, rows, k) == cell by { Swap(columns, r); }
  }
}
