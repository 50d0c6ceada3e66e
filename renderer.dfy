/** The layout engine (`SysMLRenderer` in renderer.py): elements become
    cards placed in one column per package, relations become edges from
    card centre to card centre, and the canvas is sized to fit.

    The drawing is modelled as structured data (canvas size, column labels,
    edges and cards with their text) rather than as SVG text. With the
    engine's constants every coordinate, the halved ones included, is an
    integer, so coordinates are `int`. Each loop of the engine is a method
    proved equal to a function; the lemmas state the layout's properties on
    those functions. */
module Renderer {
  import opened Wrappers
  import opened Seqs
  import opened Text
  import opened Model

  const NodeWidth := 220
  const NodeHeight := 88
  const MarginX := 36
  const MarginY := 64
  const GapX := 48
  const GapY := 32

  /** The column of elements without a package. */
  const GlobalPackage := "__global__"

  /** What the engine reads from a `SysMLModel`. */
  datatype Document = Document(packages: seq<Package>, nodes: seq<Element>, relations: seq<Relation>, sourcePath: string)

  function DocumentOf(model: SysMLModel): Document
    reads model
  {
    Document(model.packages, model.nodes, model.relations, model.sourcePath)
  }

  datatype Position = Position(x: int, y: int)

  /** Left edge of the cards of column `c`. */
  function ColumnX(c: nat): int {
    MarginX + c * (NodeWidth + GapX)
  }

  /** Top edge of the `k`-th card of a column. */
  function RowY(k: nat): int {
    MarginY + k * (NodeHeight + GapY)
  }

  /** The column an element is drawn in: its package, or the global column. */
  function Normalize(package: string): string {
    if package != "" then package else GlobalPackage
  }

  function NormalizedPackages(nodes: seq<Element>): (r: seq<string>)
    ensures |r| == |nodes|
    ensures forall k :: 0 <= k < |nodes| ==> r[k] == Normalize(nodes[k].package)
  {
    seq(|nodes|, k requires 0 <= k < |nodes| => Normalize(nodes[k].package))
  }

  lemma NormalizedPackagesStep(nodes: seq<Element>, i: nat)
    requires i < |nodes|
    ensures NormalizedPackages(nodes[..i + 1]) == NormalizedPackages(nodes[..i]) + [Normalize(nodes[i].package)]
  {
  }

  // ---------------------------------------------------------------------
  // Shared facts about element lists

  /** Keeping some elements of a list with unique names, and then one more
      element that came after all of them, keeps names unique. */
  lemma DistinctNamesSnoc(init: seq<Element>, kept: seq<Element>, n: Element)
    requires Distinct(Names(init + [n])) && Distinct(Names(kept))
    requires forall x :: x in kept ==> x in init
    ensures Distinct(Names(init)) && Distinct(Names(kept + [n]))
  {
    var all := init + [n];
    assert forall i :: 0 <= i < |init| ==> Names(init)[i] == Names(all)[i];
    forall x | x in kept
      ensures x.name != n.name
    {
      var j :| 0 <= j < |init| && init[j] == x;
      assert Names(all)[j] != Names(all)[|init|];
    }
    assert Names(kept + [n]) == Names(kept) + [n.name];
  }

  // ---------------------------------------------------------------------
  // Elements drawn

  /** `[node for node in model.nodes if node.kind != "package"]`. */
  function Drawable(nodes: seq<Element>): seq<Element>
    decreases |nodes|
  {
    if nodes == [] then []
    else
      var d := Drawable(nodes[..|nodes| - 1]);
      var n := nodes[|nodes| - 1];
      if n.kind != "package" then d + [n] else d
  }

  lemma {:induction false} DrawableMembers(nodes: seq<Element>)
    ensures forall x :: x in Drawable(nodes) <==> x in nodes && x.kind != "package"
    decreases |nodes|
  {
    if nodes != [] {
      assert nodes == nodes[..|nodes| - 1] + [nodes[|nodes| - 1]];
      DrawableMembers(nodes[..|nodes| - 1]);
    }
  }

  lemma {:induction false} DrawableDistinct(nodes: seq<Element>)
    requires Distinct(Names(nodes))
    ensures Distinct(Names(Drawable(nodes)))
    decreases |nodes|
  {
    if nodes != [] {
      var init, n := nodes[..|nodes| - 1], nodes[|nodes| - 1];
      assert nodes == init + [n];
      DistinctNamesSnoc(init, [], n);
      DrawableDistinct(init);
      if n.kind != "package" {
        DrawableMembers(init);
        DistinctNamesSnoc(init, Drawable(init), n);
      }
    }
  }

  /** Exactly the elements that are not packages are drawn, each once when
      names are unique. */
  lemma DrawableShape(nodes: seq<Element>)
    ensures forall x :: x in Drawable(nodes) <==> x in nodes && x.kind != "package"
    ensures Distinct(Names(nodes)) ==> Distinct(Names(Drawable(nodes)))
  {
    DrawableMembers(nodes);
    if Distinct(Names(nodes)) {
      DrawableDistinct(nodes);
    }
  }

  /** When no element is a package, all of them are drawn. */
  lemma {:induction false} DrawableAll(nodes: seq<Element>)
    requires forall k :: 0 <= k < |nodes| ==> nodes[k].kind != "package"
    ensures Drawable(nodes) == nodes
    decreases |nodes|
  {
    if nodes != [] {
      var init := nodes[..|nodes| - 1];
      assert forall k :: 0 <= k < |init| ==> init[k] == nodes[k];
      DrawableAll(init);
    }
  }

  // ---------------------------------------------------------------------
  // Columns

  /** `any(normalize(node.package) == pkg for node in nodes)`. */
  predicate Occupied(nodes: seq<Element>, pkg: string) {
    exists k :: 0 <= k < |nodes| && Normalize(nodes[k].package) == pkg
  }

  /** The declared packages that have an element, in declaration order. */
  function OccupiedDeclared(declared: seq<string>, nodes: seq<Element>): seq<string>
    decreases |declared|
  {
    if declared == [] then []
    else
      var r := OccupiedDeclared(declared[..|declared| - 1], nodes);
      var p := declared[|declared| - 1];
      if Occupied(nodes, p) then r + [p] else r
  }

  lemma {:induction false} OccupiedDeclaredShape(declared: seq<string>, nodes: seq<Element>)
    ensures forall p :: p in OccupiedDeclared(declared, nodes) <==> p in declared && Occupied(nodes, p)
    ensures Distinct(declared) ==> Distinct(OccupiedDeclared(declared, nodes))
    decreases |declared|
  {
    if declared != [] {
      var init, p := declared[..|declared| - 1], declared[|declared| - 1];
      assert declared == init + [p];
      OccupiedDeclaredShape(init, nodes);
      if Distinct(declared) {
        assert Distinct(init);
        assert p !in init;
      }
    }
  }

  /** Reference definition of `_package_columns(nodes, model)`. */
  function Columns(declared: seq<string>, nodes: seq<Element>): seq<string> {
    var c := Extend(OccupiedDeclared(declared, nodes), NormalizedPackages(nodes));
    if c == [] then [GlobalPackage] else c
  }

  /** The columns: never empty; without repeats when the declared packages
      have none; the declared packages that have an element first, in
      declaration order; then the column of every other element; and no
      column without an element except the single global one of a drawing
      with no elements. */
  lemma ColumnsShape(declared: seq<string>, nodes: seq<Element>)
    ensures var cols := Columns(declared, nodes);
      cols != [] &&
      (Distinct(declared) ==> Distinct(cols)) &&
      (forall k :: 0 <= k < |nodes| ==> Normalize(nodes[k].package) in cols) &&
      var first := OccupiedDeclared(declared, nodes);
      |first| <= |cols| && cols[..|first|] == first &&
      (forall p :: p in first <==> p in declared && Occupied(nodes, p)) &&
      (forall p :: p in cols ==> Occupied(nodes, p) || (nodes == [] && cols == [GlobalPackage]))
  {
    var first := OccupiedDeclared(declared, nodes);
    var xs := NormalizedPackages(nodes);
    OccupiedDeclaredShape(declared, nodes);
    var c := Extend(first, xs);
    var cols := Columns(declared, nodes);
    forall p | p in c
      ensures Occupied(nodes, p)
    {
      if p in xs {
        var k :| 0 <= k < |xs| && xs[k] == p;
        assert Normalize(nodes[k].package) == p;
      }
    }
    if nodes != [] {
      assert xs[0] in c;
    }
    if c == [] {
      assert first == [];
      assert cols == [GlobalPackage];
    } else {
      assert cols == c;
      assert forall k :: 0 <= k < |nodes| ==> xs[k] in c;
    }
  }

  /** With repeat-free declarations and some element, the columns are the
      first-seen deduplication of the occupied declared packages followed
      by every element's column. */
  lemma ColumnsDedup(declared: seq<string>, nodes: seq<Element>)
    requires Distinct(declared) && nodes != []
    ensures Columns(declared, nodes) == Dedup(OccupiedDeclared(declared, nodes) + NormalizedPackages(nodes))
  {
    var first, xs := OccupiedDeclared(declared, nodes), NormalizedPackages(nodes);
    OccupiedDeclaredShape(declared, nodes);
    DedupAfterDistinct(first, xs);
    assert xs[0] in Extend(first, xs);
  }

  /** After the occupied declared packages come exactly the columns of the
      elements whose package is not declared. */
  lemma ColumnsUndeclared(declared: seq<string>, nodes: seq<Element>)
    requires Distinct(declared) && nodes != []
    ensures var cols, first := Columns(declared, nodes), OccupiedDeclared(declared, nodes);
      |first| <= |cols| &&
      forall p :: p in cols[|first|..] <==> p in NormalizedPackages(nodes) && p !in declared
  {
    var first, xs := OccupiedDeclared(declared, nodes), NormalizedPackages(nodes);
    OccupiedDeclaredShape(declared, nodes);
    ColumnsDedup(declared, nodes);
    var cols := Columns(declared, nodes);
    assert cols == Extend(first, xs);
    assert Distinct(cols) && cols[..|first|] == first;
    forall p | p in cols[|first|..]
      ensures p in xs && p !in declared
    {
      var k :| |first| <= k < |cols| && cols[k] == p;
      assert forall m :: 0 <= m < |first| ==> cols[m] != cols[k];
      assert p !in first;
      var n :| 0 <= n < |xs| && xs[n] == p;
      assert Normalize(nodes[n].package) == p;
    }
    forall p | p in xs && p !in declared
      ensures p in cols[|first|..]
    {
      var k :| 0 <= k < |cols| && cols[k] == p;
      assert k >= |first|;
      assert cols[|first|..][k - |first|] == p;
    }
  }

  /** The undeclared columns come in the order their packages first occur
      among the elements. */
  lemma ColumnsUndeclaredOrder(declared: seq<string>, nodes: seq<Element>)
    requires Distinct(declared) && nodes != []
    ensures var cols, first, xs := Columns(declared, nodes), OccupiedDeclared(declared, nodes), NormalizedPackages(nodes);
      forall i, j :: |first| <= i < j < |cols| ==>
        cols[i] in xs && cols[j] in xs && FirstIndex(xs, cols[i]) < FirstIndex(xs, cols[j])
  {
    var first, xs := OccupiedDeclared(declared, nodes), NormalizedPackages(nodes);
    var cols := Columns(declared, nodes);
    ColumnsDedup(declared, nodes);
    ColumnsUndeclared(declared, nodes);
    OccupiedDeclaredShape(declared, nodes);
    DedupFirstSeenOrder(first + xs);
    forall i, j | |first| <= i < j < |cols|
      ensures cols[i] in xs && cols[j] in xs && FirstIndex(xs, cols[i]) < FirstIndex(xs, cols[j])
    {
      assert cols[|first|..][i - |first|] == cols[i];
      assert cols[|first|..][j - |first|] == cols[j];
      FirstIndexOfSuffix(first, xs, cols[i]);
      FirstIndexOfSuffix(first, xs, cols[j]);
    }
  }

  // ---------------------------------------------------------------------
  // Placement

  /** `columns[pkg]` after the first loop of `_layout_nodes`: the elements
      of that column, in order. */
  function Column(nodes: seq<Element>, pkg: string): seq<Element>
    decreases |nodes|
  {
    if nodes == [] then []
    else
      var col := Column(nodes[..|nodes| - 1], pkg);
      if Normalize(nodes[|nodes| - 1].package) == pkg then col + [nodes[|nodes| - 1]] else col
  }

  lemma {:induction false} ColumnMembers(nodes: seq<Element>, pkg: string)
    ensures forall x :: x in Column(nodes, pkg) <==> x in nodes && Normalize(x.package) == pkg
    decreases |nodes|
  {
    if nodes != [] {
      assert nodes == nodes[..|nodes| - 1] + [nodes[|nodes| - 1]];
      ColumnMembers(nodes[..|nodes| - 1], pkg);
    }
  }

  lemma {:induction false} ColumnDistinct(nodes: seq<Element>, pkg: string)
    requires Distinct(Names(nodes))
    ensures Distinct(Names(Column(nodes, pkg)))
    decreases |nodes|
  {
    if nodes != [] {
      var init, n := nodes[..|nodes| - 1], nodes[|nodes| - 1];
      assert nodes == init + [n];
      DistinctNamesSnoc(init, [], n);
      ColumnDistinct(init, pkg);
      if Normalize(n.package) == pkg {
        ColumnMembers(init, pkg);
        DistinctNamesSnoc(init, Column(init, pkg), n);
      }
    }
  }

  lemma {:induction false} ColumnLength(nodes: seq<Element>, pkg: string)
    ensures |Column(nodes, pkg)| <= |nodes|
    decreases |nodes|
  {
    if nodes != [] {
      ColumnLength(nodes[..|nodes| - 1], pkg);
    }
  }

  /** A column holds exactly the elements of its package, each once when
      names are unique. */
  lemma ColumnShape(nodes: seq<Element>, pkg: string)
    ensures forall x :: x in Column(nodes, pkg) <==> x in nodes && Normalize(x.package) == pkg
    ensures |Column(nodes, pkg)| <= |nodes|
    ensures Distinct(Names(nodes)) ==> Distinct(Names(Column(nodes, pkg)))
  {
    ColumnMembers(nodes, pkg);
    ColumnLength(nodes, pkg);
    if Distinct(Names(nodes)) {
      ColumnDistinct(nodes, pkg);
    }
  }

  lemma {:induction false} ColumnEmpty(nodes: seq<Element>, pkg: string)
    requires !Occupied(nodes, pkg)
    ensures Column(nodes, pkg) == []
    decreases |nodes|
  {
    if nodes != [] {
      var init := nodes[..|nodes| - 1];
      assert forall k :: 0 <= k < |init| ==> init[k] == nodes[k];
      ColumnEmpty(init, pkg);
    }
  }

  /** The placements after the cards of `col` are stacked in column `c`. */
  function PlaceColumn(m: map<string, Position>, col: seq<Element>, c: nat): map<string, Position>
    decreases |col|
  {
    if col == [] then m
    else PlaceColumn(m, col[..|col| - 1], c)[col[|col| - 1].name := Position(ColumnX(c), RowY(|col| - 1))]
  }

  /** Reference definition of `_layout_nodes(nodes, cols)`: the columns
      stacked left to right. */
  function Layout(nodes: seq<Element>, cols: seq<string>): map<string, Position>
    decreases |cols|
  {
    if cols == [] then map[]
    else PlaceColumn(Layout(nodes, cols[..|cols| - 1]), Column(nodes, cols[|cols| - 1]), |cols| - 1)
  }

  /** Stacking a column places its cards and leaves other names alone. */
  lemma {:induction false} PlaceColumnKeys(m: map<string, Position>, col: seq<Element>, c: nat)
    ensures forall n :: n in PlaceColumn(m, col, c) <==> n in m || n in Names(col)
    ensures forall n :: n in m && n !in Names(col) ==> PlaceColumn(m, col, c)[n] == m[n]
    decreases |col|
  {
    if col != [] {
      var init := col[..|col| - 1];
      PlaceColumnKeys(m, init, c);
      assert Names(col) == Names(init) + [col[|col| - 1].name];
    }
  }

  /** With unique names, the `k`-th card of column `c` lands at
      `(ColumnX(c), RowY(k))`. */
  lemma {:induction false} PlaceColumnAt(m: map<string, Position>, col: seq<Element>, c: nat, k: nat)
    requires Distinct(Names(col)) && k < |col|
    ensures col[k].name in PlaceColumn(m, col, c) && PlaceColumn(m, col, c)[col[k].name] == Position(ColumnX(c), RowY(k))
    decreases |col|
  {
    if k < |col| - 1 {
      var init := col[..|col| - 1];
      assert Names(init) == Names(col)[..|col| - 1];
      assert Names(col)[k] != Names(col)[|col| - 1];
      PlaceColumnAt(m, init, c, k);
    }
  }

  /** Consecutive columns and rows are one card and one gap apart, and all
      of them start at even coordinates. */
  lemma GridStep(k: nat)
    ensures ColumnX(k + 1) == ColumnX(k) + NodeWidth + GapX && MarginX <= ColumnX(k) && ColumnX(k) % 2 == 0
    ensures RowY(k + 1) == RowY(k) + NodeHeight + GapY && MarginY <= RowY(k) && RowY(k) % 2 == 0
  {
    assert ColumnX(k) == 2 * (18 + 134 * k);
    assert RowY(k) == 2 * (32 + 60 * k);
  }

  /** A card of column `c` within its first `rows` rows. */
  predicate InColumn(p: Position, c: nat, rows: nat) {
    p.x == ColumnX(c) && MarginY <= p.y && p.y + NodeHeight + GapY <= RowY(rows) && p.y % 2 == 0
  }

  /** Every card a column places is in that column and at most as low as
      its last row; all coordinates are even. Other names keep their
      placement. */
  lemma {:induction false} PlaceColumnBox(m: map<string, Position>, col: seq<Element>, c: nat)
    ensures forall n :: n in PlaceColumn(m, col, c) ==>
              (n in m && PlaceColumn(m, col, c)[n] == m[n]) || InColumn(PlaceColumn(m, col, c)[n], c, |col|)
    decreases |col|
  {
    if col != [] {
      var init := col[..|col| - 1];
      var before := PlaceColumn(m, init, c);
      PlaceColumnBox(m, init, c);
      GridStep(|init|);
      forall n | n in PlaceColumn(m, col, c)
        ensures (n in m && PlaceColumn(m, col, c)[n] == m[n]) || InColumn(PlaceColumn(m, col, c)[n], c, |col|)
      {
        if n != col[|col| - 1].name && !(n in m && before[n] == m[n]) {
          assert InColumn(before[n], c, |init|);
        }
      }
    }
  }

  /** Placing every column places every element whose column is among
      them, and nothing else. */
  lemma {:induction false} LayoutKeys(nodes: seq<Element>, cols: seq<string>)
    ensures forall k :: 0 <= k < |nodes| && Normalize(nodes[k].package) in cols ==> nodes[k].name in Layout(nodes, cols)
    ensures forall n :: n in Layout(nodes, cols) ==> n in Names(nodes)
    decreases |cols|
  {
    if cols != [] {
      var init, p := cols[..|cols| - 1], cols[|cols| - 1];
      LayoutKeys(nodes, init);
      var col := Column(nodes, p);
      PlaceColumnKeys(Layout(nodes, init), col, |cols| - 1);
      ColumnShape(nodes, p);
      forall k | 0 <= k < |nodes| && Normalize(nodes[k].package) in cols
        ensures nodes[k].name in Layout(nodes, cols)
      {
        if Normalize(nodes[k].package) == p {
          assert nodes[k] in col;
          var j :| 0 <= j < |col| && col[j] == nodes[k];
          assert Names(col)[j] == nodes[k].name;
        }
      }
      forall n | n in Names(col)
        ensures n in Names(nodes)
      {
        var j :| 0 <= j < |col| && Names(col)[j] == n;
        assert col[j] in nodes;
        var i :| 0 <= i < |nodes| && nodes[i] == col[j];
        assert Names(nodes)[i] == n;
      }
    }
  }

  /** Two different columns share no element name when names are unique. */
  lemma ColumnsApart(nodes: seq<Element>, p: string, q: string, x: Element)
    requires Distinct(Names(nodes)) && p != q && x in Column(nodes, q)
    ensures x.name !in Names(Column(nodes, p))
  {
    ColumnMembers(nodes, p);
    ColumnMembers(nodes, q);
    var col := Column(nodes, p);
    var a :| 0 <= a < |nodes| && nodes[a] == x;
    forall j | 0 <= j < |col|
      ensures Names(col)[j] != x.name
    {
      var y := col[j];
      assert y in col;
      var b :| 0 <= b < |nodes| && nodes[b] == y;
      assert a != b;
      assert Names(nodes)[a] != Names(nodes)[b];
    }
  }

  /** `_layout_nodes` places the `k`-th element of column `c` at
      `x = margin_x + c * (node_width + gap_x)`,
      `y = margin_y + k * (node_height + gap_y)`. */
  lemma {:induction false} LayoutAt(nodes: seq<Element>, cols: seq<string>, c: nat, k: nat)
    requires Distinct(Names(nodes)) && Distinct(cols)
    requires c < |cols| && k < |Column(nodes, cols[c])|
    ensures var n := Column(nodes, cols[c])[k].name;
      n in Layout(nodes, cols) && Layout(nodes, cols)[n] == Position(ColumnX(c), RowY(k))
    decreases |cols|
  {
    var x := Column(nodes, cols[c])[k];
    var init, p := cols[..|cols| - 1], cols[|cols| - 1];
    var col := Column(nodes, p);
    if c == |cols| - 1 {
      ColumnShape(nodes, cols[c]);
      PlaceColumnAt(Layout(nodes, init), col, c, k);
    } else {
      assert init[c] == cols[c];
      assert Distinct(init);
      LayoutAt(nodes, init, c, k);
      ColumnsApart(nodes, p, cols[c], x);
      PlaceColumnKeys(Layout(nodes, init), col, |cols| - 1);
    }
  }

  /** A card at `p` lies within the first `columns` columns and the first
      `rows` rows, at even coordinates. */
  predicate InBox(p: Position, columns: nat, rows: nat) {
    MarginX <= p.x <= ColumnX(columns) - NodeWidth - GapX &&
    MarginY <= p.y <= RowY(rows) - NodeHeight - GapY &&
    p.x % 2 == 0 && p.y % 2 == 0
  }

  /** Bounds that are in order stay in order when both grow by the same
      number of steps. */
  lemma {:induction false} GridMonotone(a: nat, b: nat)
    requires a <= b
    ensures ColumnX(a) <= ColumnX(b) && RowY(a) <= RowY(b)
    decreases b - a
  {
    if a < b {
      GridStep(a);
      GridMonotone(a + 1, b);
    }
  }

  lemma Widen(p: Position, c: nat, c': nat, r: nat, r': nat)
    requires InBox(p, c, r) && c <= c' && r <= r'
    ensures InBox(p, c', r')
  {
    GridMonotone(c, c');
    GridMonotone(r, r');
  }

  /** Every placed card lies in one of the columns, within the rows the
      tallest column needs; all coordinates are even. */
  lemma {:induction false} LayoutBox(nodes: seq<Element>, cols: seq<string>, rows: nat)
    requires forall c :: 0 <= c < |cols| ==> |Column(nodes, cols[c])| <= rows
    ensures forall n :: n in Layout(nodes, cols) ==> InBox(Layout(nodes, cols)[n], |cols|, rows)
    decreases |cols|
  {
    if cols != [] {
      var init, p := cols[..|cols| - 1], cols[|cols| - 1];
      var m, col := Layout(nodes, init), Column(nodes, p);
      assert forall c :: 0 <= c < |init| ==> init[c] == cols[c];
      LayoutBox(nodes, init, rows);
      PlaceColumnBox(m, col, |cols| - 1);
      forall n | n in Layout(nodes, cols)
        ensures InBox(Layout(nodes, cols)[n], |cols|, rows)
      {
        var q := Layout(nodes, cols)[n];
        if n in m && q == m[n] {
          Widen(q, |init|, |cols|, rows, rows);
        } else {
          assert InColumn(q, |init|, |col|);
          GridStep(|init|);
          assert InBox(q, |cols|, |col|);
          Widen(q, |cols|, |cols|, |col|, rows);
        }
      }
    }
  }

  // ---------------------------------------------------------------------
  // Row counts and canvas size

  /** `_row_counts`: how many elements each column holds. */
  function Tally(nodes: seq<Element>, cols: seq<string>): map<string, nat>
    decreases |nodes|
  {
    if nodes == [] then map p | p in cols :: 0
    else
      var counts := Tally(nodes[..|nodes| - 1], cols);
      var p := Normalize(nodes[|nodes| - 1].package);
      counts[p := (if p in counts then counts[p] else 0) + 1]
  }

  /** The counts are kept for the given columns and every column an element
      falls in, and each is the number of elements of that column. */
  lemma {:induction false} TallyCounts(nodes: seq<Element>, cols: seq<string>)
    ensures forall p :: p in Tally(nodes, cols) <==> p in cols || Occupied(nodes, p)
    ensures forall p :: p in Tally(nodes, cols) ==> Tally(nodes, cols)[p] == |Column(nodes, p)|
    decreases |nodes|
  {
    if nodes != [] {
      var init := nodes[..|nodes| - 1];
      TallyCounts(init, cols);
      var q := Normalize(nodes[|nodes| - 1].package);
      if q !in Tally(init, cols) {
        ColumnEmpty(init, q);
      }
      forall p
        ensures Occupied(nodes, p) <==> Occupied(init, p) || Normalize(nodes[|nodes| - 1].package) == p
      {
        if Occupied(nodes, p) {
          var k :| 0 <= k < |nodes| && Normalize(nodes[k].package) == p;
          if k < |init| {
            assert init[k] == nodes[k];
          }
        }
        if Occupied(init, p) {
          var k :| 0 <= k < |init| && Normalize(init[k].package) == p;
          assert nodes[k] == init[k];
        }
      }
    }
  }

  /** The sum of the counts of `keys`. */
  function SumOver(counts: map<string, nat>, keys: seq<string>): nat
    decreases |keys|
  {
    if keys == [] then 0
    else
      var p := keys[|keys| - 1];
      SumOver(counts, keys[..|keys| - 1]) + if p in counts then counts[p] else 0
  }

  lemma {:induction false} SumOverOther(counts: map<string, nat>, keys: seq<string>, p: string, v: nat)
    requires p !in keys
    ensures SumOver(counts[p := v], keys) == SumOver(counts, keys)
    decreases |keys|
  {
    if keys != [] {
      SumOverOther(counts, keys[..|keys| - 1], p, v);
    }
  }

  lemma {:induction false} SumOverBump(counts: map<string, nat>, keys: seq<string>, p: string)
    requires Distinct(keys) && p in keys && p in counts
    ensures SumOver(counts[p := counts[p] + 1], keys) == SumOver(counts, keys) + 1
    decreases |keys|
  {
    var init := keys[..|keys| - 1];
    if keys[|keys| - 1] == p {
      assert p !in init;
      SumOverOther(counts, init, p, counts[p] + 1);
    } else {
      assert keys == init + [keys[|keys| - 1]];
      SumOverBump(counts, init, p);
    }
  }

  lemma {:induction false} SumOverZeros(cols: seq<string>, keys: seq<string>)
    ensures SumOver(map p | p in cols :: 0, keys) == 0
    decreases |keys|
  {
    if keys != [] {
      SumOverZeros(cols, keys[..|keys| - 1]);
    }
  }

  /** The row counts add up to the number of elements drawn. */
  lemma {:induction false} TallySum(nodes: seq<Element>, cols: seq<string>)
    requires Distinct(cols) && Covers(cols, nodes)
    ensures SumOver(Tally(nodes, cols), cols) == |nodes|
    decreases |nodes|
  {
    if nodes == [] {
      SumOverZeros(cols, cols);
    } else {
      var init := nodes[..|nodes| - 1];
      assert forall k :: 0 <= k < |init| ==> init[k] == nodes[k];
      TallySum(init, cols);
      TallyCounts(init, cols);
      var p := Normalize(nodes[|nodes| - 1].package);
      assert p in cols;
      SumOverBump(Tally(init, cols), cols, p);
    }
  }

  /** The largest count among `keys`, or 0. */
  function MaxCount(counts: map<string, nat>, keys: seq<string>): nat
    decreases |keys|
  {
    if keys == [] then 0
    else
      var m := MaxCount(counts, keys[..|keys| - 1]);
      var p := keys[|keys| - 1];
      var v := if p in counts then counts[p] else 0;
      if v > m then v else m
  }

  /** `max(row_counts.values())`: when the keys list every count, the
      result bounds every count and is one of them. */
  lemma {:induction false} MaxCountIsMax(counts: map<string, nat>, keys: seq<string>)
    requires forall p :: p in counts <==> p in keys
    ensures forall p :: p in counts ==> counts[p] <= MaxCount(counts, keys)
    ensures counts != map[] ==> exists p :: p in counts && counts[p] == MaxCount(counts, keys)
  {
    MaxCountBounds(counts, keys);
  }

  lemma {:induction false} MaxCountBounds(counts: map<string, nat>, keys: seq<string>)
    ensures forall k :: 0 <= k < |keys| && keys[k] in counts ==> counts[keys[k]] <= MaxCount(counts, keys)
    ensures MaxCount(counts, keys) == 0 || exists k :: 0 <= k < |keys| && keys[k] in counts && counts[keys[k]] == MaxCount(counts, keys)
    decreases |keys|
  {
    if keys != [] {
      var init := keys[..|keys| - 1];
      MaxCountBounds(counts, init);
      assert forall k :: 0 <= k < |init| ==> init[k] == keys[k];
      if MaxCount(counts, keys) != 0 && MaxCount(counts, keys) == MaxCount(counts, init) {
        var k :| 0 <= k < |init| && init[k] in counts && counts[init[k]] == MaxCount(counts, init);
        assert keys[k] == init[k];
      }
    }
  }

  /** The number of rows the canvas is sized for. */
  function RowsNeeded(counts: map<string, nat>, cols: seq<string>): nat {
    if counts == map[] then 1 else MaxCount(counts, cols)
  }

  /** `_canvas_width`. */
  function CanvasWidth(columns: int): int {
    var n := if columns <= 0 then 1 else columns;
    MarginX * 2 + n * NodeWidth + (n - 1) * GapX
  }

  /** `_canvas_height`. */
  function CanvasHeight(rows: int): int {
    var n := if rows <= 0 then 1 else rows;
    MarginY * 2 + n * NodeHeight + (n - 1) * GapY
  }

  /** The canvas ends one margin past the last column and the last row,
      and is never smaller than one card plus margins. */
  lemma CanvasFits(columns: nat, rows: nat)
    requires columns >= 1 && rows >= 1
    ensures CanvasWidth(columns) == ColumnX(columns) - GapX + MarginX
    ensures CanvasHeight(rows) == RowY(rows) - GapY + MarginY
    ensures CanvasWidth(0) == CanvasWidth(1) == 2 * MarginX + NodeWidth
    ensures CanvasHeight(0) == CanvasHeight(1) == 2 * MarginY + NodeHeight
  {
  }

  /** A card within the first `columns` columns and `rows` rows stays a
      full margin away from the right and bottom edges of the canvas. */
  lemma InsideCanvas(p: Position, columns: nat, rows: nat)
    requires columns >= 1 && rows >= 1 && InBox(p, columns, rows)
    ensures 0 < p.x && p.x + NodeWidth + MarginX <= CanvasWidth(columns)
    ensures 0 < p.y && p.y + NodeHeight + MarginY <= CanvasHeight(rows)
  {
    CanvasFits(columns, rows);
  }

  // ---------------------------------------------------------------------
  // Edges

  /** One drawn relation: a line between the card centres, labelled at its
      midpoint with the relation's caption, or its kind when it has none. */
  datatype Edge = Edge(x1: int, y1: int, x2: int, y2: int, text: string, mx: int, my: int)

  function EdgeOf(r: Relation, src: Position, dst: Position): Edge {
    var x1 := src.x + NodeWidth / 2;
    var y1 := src.y + NodeHeight / 2;
    var x2 := dst.x + NodeWidth / 2;
    var y2 := dst.y + NodeHeight / 2;
    Edge(x1, y1, x2, y2, if r.caption != "" then r.caption else r.relation, (x1 + x2) / 2, (y1 + y2) / 2)
  }

  /** An edge leaves the centre of its source card, ends at the centre of
      its target card, and its label sits exactly halfway when the cards lie
      at even coordinates, as every placement does. */
  lemma EdgeGeometry(r: Relation, src: Position, dst: Position)
    requires src.x % 2 == 0 && src.y % 2 == 0 && dst.x % 2 == 0 && dst.y % 2 == 0
    ensures var e := EdgeOf(r, src, dst);
      2 * e.x1 == 2 * src.x + NodeWidth && 2 * e.y1 == 2 * src.y + NodeHeight &&
      2 * e.x2 == 2 * dst.x + NodeWidth && 2 * e.y2 == 2 * dst.y + NodeHeight &&
      2 * e.mx == e.x1 + e.x2 && 2 * e.my == e.y1 + e.y2 &&
      (e.text == r.caption || (r.caption == "" && e.text == r.relation))
  {
  }

  /** `_render_edges`: the relations whose two ends are both placed. */
  function Edges(relations: seq<Relation>, placements: map<string, Position>): seq<Edge>
    decreases |relations|
  {
    if relations == [] then []
    else
      var es := Edges(relations[..|relations| - 1], placements);
      var r := relations[|relations| - 1];
      if r.source in placements && r.target in placements
      then es + [EdgeOf(r, placements[r.source], placements[r.target])]
      else es
  }

  predicate Placed(r: Relation, placements: map<string, Position>) {
    r.source in placements && r.target in placements
  }

  /** Every relation is drawn, in order, exactly when both ends of every
      relation are placed; otherwise fewer edges are drawn. */
  lemma {:induction false} EdgesAllPlaced(relations: seq<Relation>, placements: map<string, Position>)
    ensures |Edges(relations, placements)| <= |relations|
    ensures |Edges(relations, placements)| == |relations| <==> forall k :: 0 <= k < |relations| ==> Placed(relations[k], placements)
    ensures |Edges(relations, placements)| == |relations| ==> forall k :: 0 <= k < |relations| ==>
              Edges(relations, placements)[k] == EdgeOf(relations[k], placements[relations[k].source], placements[relations[k].target])
    decreases |relations|
  {
    if relations != [] {
      var init := relations[..|relations| - 1];
      EdgesAllPlaced(init, placements);
      assert forall k :: 0 <= k < |init| ==> init[k] == relations[k];
    }
  }

  // ---------------------------------------------------------------------
  // Cards

  /** One drawn element: its name, the top-left corner of its card, the CSS
      classes of the card, the meta line and the detail lines. */
  datatype Card = Card(name: string, x: int, y: int, classes: seq<string>, meta: string, details: seq<string>)

  function CardClasses(e: Element): seq<string> {
    ["sysmlv2-node"] + if e.external then ["sysmlv2-node--external"] else []
  }

  function MetaBits(e: Element): seq<string> {
    [e.kind] + (if e.flavor != "" then [e.flavor] else []) + e.modifiers
  }

  function Details(e: Element): seq<string> {
    (if e.specializes != [] then ["\U{21E2} " + Join(e.specializes, ", ")] else []) +
    (if e.typeOf != [] then ["\U{21A6} " + Join(e.typeOf, ", ")] else [])
  }

  function CardOf(e: Element, p: Position): Card {
    Card(e.name, p.x, p.y, CardClasses(e), Join(MetaBits(e), " \U{00B7} "), Details(e))
  }

  /** A card is styled as external exactly for a synthesised element; its
      meta line starts with the kind, then the flavour when there is one,
      then the modifiers; it has one detail line per non-empty list among
      the specialised and the typed-by names, that order. */
  lemma CardStyle(e: Element, p: Position)
    ensures var c := CardOf(e, p);
      c.name == e.name && c.x == p.x && c.y == p.y &&
      c.classes[0] == "sysmlv2-node" &&
      ("sysmlv2-node--external" in c.classes <==> e.external)
    ensures var bits := MetaBits(e);
      bits[0] == e.kind &&
      (e.flavor != "" ==> bits[1] == e.flavor) &&
      bits[|bits| - |e.modifiers|..] == e.modifiers &&
      |bits| == 1 + (if e.flavor != "" then 1 else 0) + |e.modifiers|
    ensures |Details(e)| == (if e.specializes != [] then 1 else 0) + (if e.typeOf != [] then 1 else 0)
  {
    var bits := MetaBits(e);
    assert bits[|bits| - |e.modifiers|..] == e.modifiers;
  }

  /** `_render_nodes`: a card for every element that has a placement. */
  function Cards(nodes: seq<Element>, placements: map<string, Position>): seq<Card>
    decreases |nodes|
  {
    if nodes == [] then []
    else
      var cs := Cards(nodes[..|nodes| - 1], placements);
      var n := nodes[|nodes| - 1];
      if n.name in placements then cs + [CardOf(n, placements[n.name])] else cs
  }

  /** Every element gets its card, in order, exactly when every element is
      placed. */
  lemma {:induction false} CardsAllPlaced(nodes: seq<Element>, placements: map<string, Position>)
    ensures |Cards(nodes, placements)| <= |nodes|
    ensures |Cards(nodes, placements)| == |nodes| <==> forall k :: 0 <= k < |nodes| ==> nodes[k].name in placements
    ensures |Cards(nodes, placements)| == |nodes| ==> forall k :: 0 <= k < |nodes| ==>
              Cards(nodes, placements)[k] == CardOf(nodes[k], placements[nodes[k].name])
    decreases |nodes|
  {
    if nodes != [] {
      var init := nodes[..|nodes| - 1];
      CardsAllPlaced(init, placements);
      assert forall k :: 0 <= k < |init| ==> init[k] == nodes[k];
    }
  }

  /** Every card is drawn at its element's placement. */
  lemma {:induction false} CardsAtPlacements(nodes: seq<Element>, placements: map<string, Position>)
    ensures forall c :: c in Cards(nodes, placements) ==> c.name in placements && Position(c.x, c.y) == placements[c.name]
    decreases |nodes|
  {
    if nodes != [] {
      CardsAtPlacements(nodes[..|nodes| - 1], placements);
    }
  }

  // ---------------------------------------------------------------------
  // Column labels

  datatype Label = Label(text: string, x: int, y: int)

  function LabelOf(pkg: string, c: nat): Label {
    Label(if pkg == GlobalPackage then "Global" else pkg, ColumnX(c) + NodeWidth / 2, MarginY / 2)
  }

  /** `_render_package_labels`: one label per column. */
  function Labels(cols: seq<string>): (r: seq<Label>)
    ensures |r| == |cols|
  {
    seq(|cols|, c requires 0 <= c < |cols| => LabelOf(cols[c], c))
  }

  /** Each label is centred over its column, halfway down the top margin,
      and reads "Global" for the global column and the package name
      otherwise. */
  lemma LabelsCentred(cols: seq<string>, c: nat)
    requires c < |cols|
    ensures var l := Labels(cols)[c];
      2 * l.x == 2 * ColumnX(c) + NodeWidth && 2 * l.y == MarginY &&
      (l.text == "Global" <==> cols[c] == GlobalPackage || cols[c] == "Global") &&
      (cols[c] != GlobalPackage ==> l.text == cols[c])
  {
  }

  // ---------------------------------------------------------------------
  // The document

  datatype Body =
    | Placeholder(x: int, y: int)
    | Diagram(labels: seq<Label>, edges: seq<Edge>, cards: seq<Card>)

  /** An SVG document: whether it carries the XML prolog, the canvas size,
      the title, what is drawn and the `<desc>` text, if any. */
  datatype Svg = Svg(prolog: bool, width: int, height: int, title: string, body: Body, desc: Option<string>)

  /** `_render_empty_svg`. */
  function EmptySvg(title: string, sourcePath: string, inline: bool): Svg {
    Svg(!inline, 480, 200, title, Placeholder(480 / 2, 200 / 2),
        Some(if sourcePath != "" then sourcePath else "No elements found"))
  }

  /** Reference definition of `render_svg`. */
  function SvgOf(doc: Document, title: string, inline: bool): Svg {
    var nodes := Drawable(doc.nodes);
    if nodes == [] then
      EmptySvg(if title != "" then title else "SysML model", doc.sourcePath, inline)
    else
      var cols := Columns(PackageNames(doc.packages), nodes);
      var placements := Layout(nodes, cols);
      var counts := Tally(nodes, cols);
      Svg(!inline, CanvasWidth(|cols|), CanvasHeight(RowsNeeded(counts, cols)), title,
          Diagram(Labels(cols), Edges(doc.relations, placements), Cards(nodes, placements)),
          if doc.sourcePath != "" then Some("Source: " + doc.sourcePath) else None)
  }

  datatype Output = SvgDocument(svg: Svg) | Figure(svg: Svg)

  /** Reference definition of `render`. */
  function RenderOf(doc: Document, fmt: string, title: string, inline: bool): Result<Output, string> {
    if fmt == "svg" then Success(SvgDocument(SvgOf(doc, title, inline)))
    else if fmt == "html" then Success(Figure(SvgOf(doc, title, true)))
    else Failure("Unsupported format '" + fmt + "'")
  }

  // ---------------------------------------------------------------------
  // Properties of the whole drawing

  /** A drawing has cards exactly when some element is not a package;
      otherwise it is the 480 by 200 placeholder, titled "SysML model" when
      no title is given. The prolog is written exactly for a stand-alone
      document. */
  lemma SvgKind(doc: Document, title: string, inline: bool)
    ensures var svg := SvgOf(doc, title, inline);
      svg.prolog == !inline &&
      (svg.body.Diagram? <==> exists k :: 0 <= k < |doc.nodes| && doc.nodes[k].kind != "package") &&
      (svg.body.Placeholder? ==>
        svg.width == 480 && svg.height == 200 && svg.body == Placeholder(240, 100) &&
        svg.title == (if title == "" then "SysML model" else title) &&
        svg.desc == Some(if doc.sourcePath == "" then "No elements found" else doc.sourcePath)) &&
      (svg.body.Diagram? ==>
        svg.title == title &&
        svg.desc == (if doc.sourcePath == "" then None else Some("Source: " + doc.sourcePath)))
  {
    var d := Drawable(doc.nodes);
    DrawableMembers(doc.nodes);
    if d != [] {
      assert d[0] in d;
    }
    forall k | 0 <= k < |doc.nodes| && doc.nodes[k].kind != "package"
      ensures d != []
    {
      assert doc.nodes[k] in d;
    }
  }

  /** Every element's column is among `cols`. */
  ghost predicate Covers(cols: seq<string>, nodes: seq<Element>) {
    forall k :: 0 <= k < |nodes| ==> Normalize(nodes[k].package) in cols
  }

  lemma ColumnsCover(declared: seq<string>, nodes: seq<Element>)
    ensures Covers(Columns(declared, nodes), nodes) && |Columns(declared, nodes)| >= 1
  {
    ColumnsShape(declared, nodes);
  }

  /** When `cols` covers every element, the canvas has at least one row
      and room for the tallest column. */
  lemma RowsCover(nodes: seq<Element>, cols: seq<string>)
    requires nodes != [] && Covers(cols, nodes)
    ensures var rows := RowsNeeded(Tally(nodes, cols), cols);
      rows >= 1 && forall c :: 0 <= c < |cols| ==> |Column(nodes, cols[c])| <= rows
  {
    var counts := Tally(nodes, cols);
    TallyCounts(nodes, cols);
    forall p | Occupied(nodes, p)
      ensures p in cols
    {
      var k :| 0 <= k < |nodes| && Normalize(nodes[k].package) == p;
    }
    assert forall p :: p in counts <==> p in cols;
    MaxCountIsMax(counts, cols);
    var p0 := Normalize(nodes[0].package);
    ColumnMembers(nodes, p0);
    assert nodes[0] in Column(nodes, p0);
    assert p0 in counts;
  }

  /** When `cols` covers every element, exactly the elements are placed. */
  lemma PlacedNames(nodes: seq<Element>, cols: seq<string>)
    requires Covers(cols, nodes)
    ensures forall n :: n in Layout(nodes, cols) <==> n in Names(nodes)
  {
    LayoutKeys(nodes, cols);
    forall n | n in Names(nodes)
      ensures n in Layout(nodes, cols)
    {
      var k :| 0 <= k < |nodes| && Names(nodes)[k] == n;
      assert Normalize(nodes[k].package) in cols;
    }
  }

  /** The columns of a drawing, the number of rows it is sized for, and
      the facts about them the drawing relies on: every element is placed
      within that many rows of those columns, and at least one row is
      needed. */
  lemma DrawingGrid(nodes: seq<Element>, declared: seq<string>)
    requires nodes != []
    ensures var cols := Columns(declared, nodes);
      var placements := Layout(nodes, cols);
      var rows := RowsNeeded(Tally(nodes, cols), cols);
      rows >= 1 && |cols| >= 1 &&
      (forall n :: n in placements <==> n in Names(nodes)) &&
      (forall n :: n in placements ==> InBox(placements[n], |cols|, rows))
  {
    var cols := Columns(declared, nodes);
    ColumnsCover(declared, nodes);
    RowsCover(nodes, cols);
    PlacedNames(nodes, cols);
    LayoutBox(nodes, cols, RowsNeeded(Tally(nodes, cols), cols));
  }

  /** When every element is placed on a grid of `columns` by `rows`, each
      gets its card, in order, a full margin inside the canvas. */
  lemma CardsOnCanvas(nodes: seq<Element>, placements: map<string, Position>, columns: nat, rows: nat)
    requires columns >= 1 && rows >= 1
    requires forall n :: n in placements <==> n in Names(nodes)
    requires forall n :: n in placements ==> InBox(placements[n], columns, rows)
    ensures var cards := Cards(nodes, placements);
      |cards| == |nodes| &&
      forall k :: 0 <= k < |nodes| ==>
        cards[k] == CardOf(nodes[k], Position(cards[k].x, cards[k].y)) &&
        0 < cards[k].x && cards[k].x + NodeWidth + MarginX <= CanvasWidth(columns) &&
        0 < cards[k].y && cards[k].y + NodeHeight + MarginY <= CanvasHeight(rows)
  {
    forall k | 0 <= k < |nodes|
      ensures nodes[k].name in placements
    {
      assert Names(nodes)[k] == nodes[k].name;
    }
    CardsAllPlaced(nodes, placements);
    forall k | 0 <= k < |nodes|
      ensures var p := placements[nodes[k].name];
        0 < p.x && p.x + NodeWidth + MarginX <= CanvasWidth(columns) &&
        0 < p.y && p.y + NodeHeight + MarginY <= CanvasHeight(rows)
    {
      InsideCanvas(placements[nodes[k].name], columns, rows);
    }
  }

  /** Every element that is not a package gets exactly one card, in model
      order, and every card lies on the canvas a full margin away from its
      edges. */
  lemma DiagramCards(doc: Document, title: string, inline: bool)
    requires exists k :: 0 <= k < |doc.nodes| && doc.nodes[k].kind != "package"
    ensures var svg := SvgOf(doc, title, inline);
      var d := Drawable(doc.nodes);
      svg.body.Diagram? && |svg.body.cards| == |d| &&
      forall k :: 0 <= k < |d| ==>
        var c := svg.body.cards[k];
        c == CardOf(d[k], Position(c.x, c.y)) &&
        0 < c.x && c.x + NodeWidth + MarginX <= svg.width &&
        0 < c.y && c.y + NodeHeight + MarginY <= svg.height
  {
    SvgKind(doc, title, inline);
    var d := Drawable(doc.nodes);
    var cols := Columns(PackageNames(doc.packages), d);
    DrawingGrid(d, PackageNames(doc.packages));
    CardsOnCanvas(d, Layout(d, cols), |cols|, RowsNeeded(Tally(d, cols), cols));
  }

  /** A relation is drawn exactly when both of its ends are elements that
      are not packages; so every relation is drawn, in order, exactly when
      that holds for all of them. */
  lemma DiagramEdges(doc: Document, title: string, inline: bool)
    requires exists k :: 0 <= k < |doc.nodes| && doc.nodes[k].kind != "package"
    ensures var svg := SvgOf(doc, title, inline);
      var names := Names(Drawable(doc.nodes));
      svg.body.Diagram? &&
      (|svg.body.edges| == |doc.relations| <==>
        forall k :: 0 <= k < |doc.relations| ==> doc.relations[k].source in names && doc.relations[k].target in names)
  {
    SvgKind(doc, title, inline);
    var d := Drawable(doc.nodes);
    var cols := Columns(PackageNames(doc.packages), d);
    var placements := Layout(d, cols);
    DrawingGrid(d, PackageNames(doc.packages));
    EdgesAllPlaced(doc.relations, placements);
  }

  /** `render` accepts exactly the formats "svg" and "html"; "html" wraps
      the inline document in a figure, whatever `inline` says. */
  lemma RenderFormats(doc: Document, fmt: string, title: string, inline: bool)
    ensures RenderOf(doc, fmt, title, inline).Success? <==> fmt == "svg" || fmt == "html"
    ensures fmt == "html" ==> RenderOf(doc, fmt, title, inline) == Success(Figure(SvgOf(doc, title, true))) &&
                              !SvgOf(doc, title, true).prolog
    ensures fmt == "svg" ==> RenderOf(doc, fmt, title, inline) == Success(SvgDocument(SvgOf(doc, title, inline)))
    ensures RenderOf(doc, fmt, title, inline).Failure? ==>
              RenderOf(doc, fmt, title, inline).error == "Unsupported format '" + fmt + "'"
  {
    SvgKind(doc, title, true);
  }

  // ---------------------------------------------------------------------
  // The engine's loops

  /** `_package_columns(nodes, model)`. */
  method PackageColumns(nodes: seq<Element>, model: SysMLModel) returns (cols: seq<string>)
    ensures cols == Columns(PackageNames(model.packages), nodes)
  {
    var declared := PackageNames(model.packages);
    cols := [];
    for i := 0 to |declared|
      invariant cols == OccupiedDeclared(declared[..i], nodes)
    {
      assert declared[..i + 1][..i] == declared[..i];
      if Occupied(nodes, declared[i]) {
        cols := cols + [declared[i]];
      }
    }
    assert declared[..|declared|] == declared;
    ghost var first := cols;
    ghost var xs := NormalizedPackages(nodes);
    for i := 0 to |nodes|
      invariant cols == Extend(first, xs[..i])
    {
      var normalized := Normalize(nodes[i].package);
      assert xs[..i + 1][..i] == xs[..i] && xs[..i + 1][i] == normalized;
      if normalized !in cols {
        cols := cols + [normalized];
      }
    }
    assert xs[..|nodes|] == xs;
    if cols == [] {
      cols := [GlobalPackage];
    }
  }

  lemma ColumnStep(nodes: seq<Element>, i: nat, pkg: string)
    requires i < |nodes|
    ensures Column(nodes[..i + 1], pkg) ==
      if Normalize(nodes[i].package) == pkg then Column(nodes[..i], pkg) + [nodes[i]] else Column(nodes[..i], pkg)
  {
    assert nodes[..i + 1][..i] == nodes[..i];
  }

  lemma LayoutStep(nodes: seq<Element>, cols: seq<string>, c: nat)
    requires c < |cols|
    ensures Layout(nodes, cols[..c + 1]) == PlaceColumn(Layout(nodes, cols[..c]), Column(nodes, cols[c]), c)
  {
    assert cols[..c + 1][..c] == cols[..c];
  }

  /** The first loop of `_layout_nodes`: the `columns` dictionary, whose
      lookups with a default of `[]` give each column's elements. */
  method GroupColumns(nodes: seq<Element>, cols: seq<string>) returns (columns: map<string, seq<Element>>)
    ensures forall p :: p in columns ==> columns[p] == Column(nodes, p)
    ensures forall p :: p !in columns ==> Column(nodes, p) == []
    ensures forall p :: p in cols ==> p in columns
  {
    columns := map p | p in cols :: [];
    for i := 0 to |nodes|
      invariant forall p :: p in columns ==> columns[p] == Column(nodes[..i], p)
      invariant forall p :: p !in columns ==> Column(nodes[..i], p) == []
      invariant forall p :: p in cols ==> p in columns
    {
      var pkg := Normalize(nodes[i].package);
      if pkg !in columns {
        columns := columns[pkg := []];
      }
      columns := columns[pkg := columns[pkg] + [nodes[i]]];
      forall p
        ensures Column(nodes[..i + 1], p) == if Normalize(nodes[i].package) == p then Column(nodes[..i], p) + [nodes[i]] else Column(nodes[..i], p)
      {
        ColumnStep(nodes, i, p);
      }
    }
    assert nodes[..|nodes|] == nodes;
  }

  /** The inner loop of `_layout_nodes`: stack the cards of one column. */
  method StackColumn(placements: map<string, Position>, col: seq<Element>, c: nat) returns (result: map<string, Position>)
    ensures result == PlaceColumn(placements, col, c)
  {
    result := placements;
    var y := MarginY;
    for j := 0 to |col|
      invariant result == PlaceColumn(placements, col[..j], c) && y == RowY(j)
    {
      assert col[..j + 1][..j] == col[..j];
      result := result[col[j].name := Position(MarginX + c * (NodeWidth + GapX), y)];
      y := y + NodeHeight + GapY;
    }
    assert col[..|col|] == col;
  }

  /** `_layout_nodes(nodes, package_names)`: group the elements by column,
      then stack each column. */
  method LayoutNodes(nodes: seq<Element>, cols: seq<string>) returns (placements: map<string, Position>)
    ensures placements == Layout(nodes, cols)
  {
    var columns := GroupColumns(nodes, cols);
    placements := map[];
    for c := 0 to |cols|
      invariant placements == Layout(nodes, cols[..c])
    {
      var col := if cols[c] in columns then columns[cols[c]] else [];
      placements := StackColumn(placements, col, c);
      LayoutStep(nodes, cols, c);
    }
    assert cols[..|cols|] == cols;
  }

  /** `_row_counts(nodes, package_names)`. */
  method RowCounts(nodes: seq<Element>, cols: seq<string>) returns (counts: map<string, nat>)
    ensures counts == Tally(nodes, cols)
  {
    counts := map p | p in cols :: 0;
    for i := 0 to |nodes|
      invariant counts == Tally(nodes[..i], cols)
    {
      assert nodes[..i + 1][..i] == nodes[..i];
      var pkg := if nodes[i].package != "" then nodes[i].package else GlobalPackage;
      counts := counts[pkg := (if pkg in counts then counts[pkg] else 0) + 1];
    }
    assert nodes[..|nodes|] == nodes;
  }

  /** `_render_edges(relations, placements)`. */
  method RenderEdges(relations: seq<Relation>, placements: map<string, Position>) returns (edges: seq<Edge>)
    ensures edges == Edges(relations, placements)
  {
    edges := [];
    for i := 0 to |relations|
      invariant edges == Edges(relations[..i], placements)
    {
      assert relations[..i + 1][..i] == relations[..i];
      var r := relations[i];
      if r.source in placements && r.target in placements {
        var src, dst := placements[r.source], placements[r.target];
        var x1, y1 := src.x + NodeWidth / 2, src.y + NodeHeight / 2;
        var x2, y2 := dst.x + NodeWidth / 2, dst.y + NodeHeight / 2;
        var text := if r.caption != "" then r.caption else r.relation;
        edges := edges + [Edge(x1, y1, x2, y2, text, (x1 + x2) / 2, (y1 + y2) / 2)];
      }
    }
    assert relations[..|relations|] == relations;
  }

  /** `_render_nodes(nodes, placements)`. */
  method RenderNodes(nodes: seq<Element>, placements: map<string, Position>) returns (cards: seq<Card>)
    ensures cards == Cards(nodes, placements)
  {
    cards := [];
    for i := 0 to |nodes|
      invariant cards == Cards(nodes[..i], placements)
    {
      assert nodes[..i + 1][..i] == nodes[..i];
      var node := nodes[i];
      if node.name in placements {
        var position := placements[node.name];
        var classes := ["sysmlv2-node"];
        if node.external {
          classes := classes + ["sysmlv2-node--external"];
        }
        var metaBits := [node.kind];
        if node.flavor != "" {
          metaBits := metaBits + [node.flavor];
        }
        metaBits := metaBits + node.modifiers;
        var details := [];
        if node.specializes != [] {
          details := details + ["\U{21E2} " + Join(node.specializes, ", ")];
        }
        if node.typeOf != [] {
          details := details + ["\U{21A6} " + Join(node.typeOf, ", ")];
        }
        assert classes == CardClasses(node) && metaBits == MetaBits(node) && details == Details(node);
        cards := cards + [Card(node.name, position.x, position.y, classes, Join(metaBits, " \U{00B7} "), details)];
      }
    }
    assert nodes[..|nodes|] == nodes;
  }

  /** `_render_package_labels(package_names)`. */
  method RenderPackageLabels(cols: seq<string>) returns (labels: seq<Label>)
    ensures labels == Labels(cols)
  {
    labels := [];
    for c := 0 to |cols|
      invariant labels == Labels(cols[..c])
    {
      var text := if cols[c] == GlobalPackage then "Global" else cols[c];
      labels := labels + [Label(text, MarginX + c * (NodeWidth + GapX) + NodeWidth / 2, MarginY / 2)];
    }
    assert cols[..|cols|] == cols;
  }

  /** `render_svg(model, title, inline)`. */
  method RenderSvg(model: SysMLModel, title: string, inline: bool) returns (svg: Svg)
    ensures svg == SvgOf(DocumentOf(model), title, inline)
  {
    var nodes := Drawable(model.nodes);
    if nodes == [] {
      return EmptySvg(if title != "" then title else "SysML model", model.sourcePath, inline);
    }
    var cols := PackageColumns(nodes, model);
    var placements := LayoutNodes(nodes, cols);
    var counts := RowCounts(nodes, cols);
    var width := CanvasWidth(|cols|);
    var height := CanvasHeight(if counts != map[] then MaxCount(counts, cols) else 1);
    var edges := RenderEdges(model.relations, placements);
    var labels := RenderPackageLabels(cols);
    var cards := RenderNodes(nodes, placements);
    var desc := if model.sourcePath != "" then Some("Source: " + model.sourcePath) else None;
    svg := Svg(!inline, width, height, title, Diagram(labels, edges, cards), desc);
  }

  /** `render(model, fmt, title, inline)`. */
  method Render(model: SysMLModel, fmt: string, title: string, inline: bool) returns (out: Result<Output, string>)
    ensures out == RenderOf(DocumentOf(model), fmt, title, inline)
  {
    if fmt == "svg" {
      var svg := RenderSvg(model, title, inline);
      return Success(SvgDocument(svg));
    }
    if fmt == "html" {
      var svg := RenderSvg(model, title, true);
      return Success(Figure(svg));
    }
    return Failure("Unsupported format '" + fmt + "'");
  }
}
