/**
 Shaped recipes.  The check compares bounding boxes cell by cell; the specification asks
 for a translation of the infinite recipe grid onto the infinite input grid.
 */
module ShapedRecipe {
  import opened Items

  /** Cell (x, y) of a row-major grid, empty outside it. */
  function Cell(names: seq<string>, width: nat, x: int, y: int): string
    requires width > 0
  {
    if 0 <= x < width && 0 <= y && y * width + x < |names| then names[y * width + x] else ""
  }

  ghost predicate Occupied(names: seq<string>, width: nat)
    requires width > 0
  {
    exists x, y :: Cell(names, width, x, y) != ""
  }

  /** `ok` tells which items satisfy which slots; empty cells go with empty cells only. */
  ghost predicate EmptyForEmpty(ok: (string, string) -> bool) {
    ok("", "") && forall i, r :: ok(i, r) ==> (i == "" <==> r == "")
  }

  lemma SlotsAreEmptyForEmpty(reg: Registry)
    requires HandInNoGroup(reg)
    ensures EmptyForEmpty(Ok(reg))
  {
    forall i, r | Ok(reg)(i, r) ensures i == "" <==> r == "" {
      EmptyMatchesOnlyEmpty(reg, i, r);
    }
  }

  /** Recipe cell (x + dx, y + dy) accepts input cell (x, y), for every x and y. */
  ghost predicate FitsAt(ok: (string, string) -> bool, inp: seq<string>, iw: nat, rec: seq<string>, rw: nat, dx: int,
                         dy: int)
    requires iw > 0 && rw > 0
  {
    forall x, y :: ok(Cell(inp, iw, x, y), Cell(rec, rw, x + dx, y + dy))
  }

  ghost predicate ShapedMatches(reg: Registry, input: CraftInput, rec: seq<string>, width: nat) {
    && input.kind == Normal && input.width > 0 && width > 0
    && Occupied(Names(input.items), input.width) && Occupied(rec, width)
    && exists dx, dy :: FitsAt(Ok(reg), Names(input.items), input.width, rec, width, dx, dy)
  }

  // ----- Bounding boxes -----

  datatype Box = Box(minX: int, maxX: int, minY: int, maxY: int)

  ghost predicate Within(b: Box, x: int, y: int) {
    b.minX <= x <= b.maxX && b.minY <= y <= b.maxY
  }

  /** Each side of `b` is touched by an occupied cell, and all occupied cells lie within. */
  ghost predicate IsBounds(names: seq<string>, width: nat, b: Box)
    requires width > 0
  {
    && (forall x, y :: Cell(names, width, x, y) != "" ==> Within(b, x, y))
    && (exists y :: Cell(names, width, b.minX, y) != "")
    && (exists y :: Cell(names, width, b.maxX, y) != "")
    && (exists x :: Cell(names, width, x, b.minY) != "")
    && (exists x :: Cell(names, width, x, b.maxY) != "")
  }

  lemma MulMonotone(a: int, b: int, width: int)
    requires a <= b && width > 0
    ensures a * width <= b * width
  {
  }

  lemma Coordinates(width: int, x: int, y: int)
    requires 0 <= x < width && 0 <= y
    ensures (y * width + x) % width == x && (y * width + x) / width == y
    ensures y * width + x >= 0
  {
    var a := y * width + x;
    var q := a / width;
    assert a == q * width + a % width;
    if q >= y + 1 {
      MulMonotone(y + 1, q, width);
    }
    if q + 1 <= y {
      MulMonotone(q + 1, y, width);
    }
  }

  lemma IndexAt(width: int, j: int)
    requires width > 0 && j >= 0
    ensures j == (j / width) * width + j % width && 0 <= j % width < width && 0 <= j / width
  {
  }

  lemma NextCell(width: int, i: int)
    requires width > 0 && i >= 0
    ensures (i + 1) % width == (if i % width + 1 == width then 0 else i % width + 1)
    ensures (i + 1) / width == (if i % width + 1 == width then i / width + 1 else i / width)
  {
    var x, y := i % width, i / width;
    IndexAt(width, i);
    if x + 1 == width {
      Coordinates(width, 0, y + 1);
      assert i + 1 == (y + 1) * width;
    } else {
      Coordinates(width, x + 1, y);
    }
  }

  /** What the scan knows after the first `i` cells, with the touching cells as witnesses. */
  ghost predicate Scanned(names: seq<string>, width: nat, i: int, found: bool, b: Box, w: Box) {
    && width > 0 && 0 <= i <= |names|
    && (!found ==> forall j :: 0 <= j < i ==> names[j] == "")
    && (found ==>
          && (forall j :: 0 <= j < i && names[j] != "" ==> Within(b, j % width, j / width))
          && 0 <= w.minX < i && names[w.minX] != "" && w.minX % width == b.minX
          && 0 <= w.maxX < i && names[w.maxX] != "" && w.maxX % width == b.maxX
          && 0 <= w.minY < i && names[w.minY] != "" && w.minY / width == b.minY
          && 0 <= w.maxY < i && names[w.maxY] != "" && w.maxY / width == b.maxY)
  }

  lemma CellOfIndex(names: seq<string>, width: nat, j: int)
    requires width > 0 && 0 <= j < |names|
    ensures Cell(names, width, j % width, j / width) == names[j]
  {
    IndexAt(width, j);
  }

  lemma ScanDone(names: seq<string>, width: nat, found: bool, b: Box, w: Box)
    requires Scanned(names, width, |names|, found, b, w)
    ensures found <==> Occupied(names, width)
    ensures found ==> IsBounds(names, width, b)
    ensures found ==> 0 <= b.minX <= b.maxX < width && 0 <= b.minY <= b.maxY
    ensures found ==> b.maxY * width < |names|
  {
    if found {
      CellOfIndex(names, width, w.minX);
      CellOfIndex(names, width, w.maxX);
      CellOfIndex(names, width, w.minY);
      CellOfIndex(names, width, w.maxY);
      IndexAt(width, w.maxY);
      IndexAt(width, w.minY);
    }
    forall x, y | Cell(names, width, x, y) != "" ensures found && Within(b, x, y) {
      Coordinates(width, x, y);
    }
  }

  /** Returns false, and no box, when every cell is empty. */
  method GetBounds(names: seq<string>, width: nat) returns (success: bool, b: Box)
    requires width > 0
    ensures success <==> Occupied(names, width)
    ensures success ==> IsBounds(names, width, b)
    ensures success ==> 0 <= b.minX <= b.maxX < width && 0 <= b.minY <= b.maxY && b.maxY * width < |names|
  {
    success := false;
    b := Box(0, 0, 0, 0);
    ghost var w := b;
    var x, y := 0, 0;
    for i := 0 to |names|
      invariant x == i % width && y == i / width
      invariant Scanned(names, width, i, success, b, w)
    {
      if names[i] != "" {
        if !success {
          b := Box(x, x, y, y);
          w := Box(i, i, i, i);
          success := true;
        } else {
          if x < b.minX { b := b.(minX := x); w := w.(minX := i); }
          if x > b.maxX { b := b.(maxX := x); w := w.(maxX := i); }
          if y < b.minY { b := b.(minY := y); w := w.(minY := i); }
          if y > b.maxY { b := b.(maxY := y); w := w.(maxY := i); }
        }
      }
      NextCell(width, i);
      x := x + 1;
      if x == width {
        x := 0;
        y := y + 1;
      }
    }
    ScanDone(names, width, success, b, w);
  }

  // ----- The check -----

  ghost predicate Padded(names: seq<string>, r: seq<string>) {
    && |names| <= |r| && r[..|names|] == names
    && forall j :: |names| <= j < |r| ==> r[j] == ""
  }

  lemma PaddedCells(names: seq<string>, r: seq<string>, width: nat, x: int, y: int)
    requires width > 0 && Padded(names, r)
    ensures Cell(r, width, x, y) == Cell(names, width, x, y)
  {
    if 0 <= x < width && 0 <= y {
      Coordinates(width, x, y);
      var j := y * width + x;
      if j < |names| {
        assert r[j] == r[..|names|][j];
      }
    }
  }

  /** Fill up the last row. */
  method Pad(names: seq<string>, width: nat) returns (r: seq<string>)
    requires width > 0
    ensures |r| % width == 0
    ensures forall x, y :: Cell(r, width, x, y) == Cell(names, width, x, y)
  {
    r := names;
    while |r| % width != 0
      invariant Padded(names, r)
      decreases if |r| % width == 0 then 0 else width - |r| % width
    {
      NextCell(width, |r|);
      IndexAt(width, |r|);
      r := r + [""];
    }
    forall x, y ensures Cell(r, width, x, y) == Cell(names, width, x, y) {
      PaddedCells(names, r, width, x, y);
    }
  }

  lemma RowInside(n: int, width: int, y: int)
    requires width > 0 && n % width == 0 && 0 <= y && y * width < n
    ensures y * width + width <= n
  {
    IndexAt(width, n);
    var rows := n / width;
    if rows <= y {
      MulMonotone(rows, y, width);
    }
    assert (y + 1) * width <= rows * width;
  }

  /** The box of `rec`, moved by the difference of the corners, fits the box of `inp`. */
  ghost predicate BoxFits(ok: (string, string) -> bool, inp: seq<string>, iw: nat, rec: seq<string>, rw: nat, a: Box,
                          b: Box)
    requires iw > 0 && rw > 0
  {
    && a.maxX - a.minX == b.maxX - b.minX && a.maxY - a.minY == b.maxY - b.minY
    && forall x, y :: Within(a, x, y) ==>
         ok(Cell(inp, iw, x, y), Cell(rec, rw, x + (b.minX - a.minX), y + (b.minY - a.minY)))
  }

  lemma FitsInsideAndOut(ok: (string, string) -> bool, inp: seq<string>, iw: nat, rec: seq<string>, rw: nat, a: Box,
                         b: Box)
    requires EmptyForEmpty(ok)
    requires iw > 0 && rw > 0 && IsBounds(inp, iw, a) && IsBounds(rec, rw, b)
    requires BoxFits(ok, inp, iw, rec, rw, a, b)
    ensures FitsAt(ok, inp, iw, rec, rw, b.minX - a.minX, b.minY - a.minY)
  {
    var dx, dy := b.minX - a.minX, b.minY - a.minY;
    forall x, y ensures ok(Cell(inp, iw, x, y), Cell(rec, rw, x + dx, y + dy)) {
      if !Within(a, x, y) {
        assert Cell(inp, iw, x, y) == "" && Cell(rec, rw, x + dx, y + dy) == "";
      }
    }
  }

  /** A fitting translation carries occupied cells to occupied cells, hence corners to corners. */
  lemma TranslationMovesBounds(ok: (string, string) -> bool, inp: seq<string>, iw: nat, rec: seq<string>, rw: nat,
                               a: Box, b: Box, dx: int, dy: int)
    requires EmptyForEmpty(ok)
    requires iw > 0 && rw > 0 && IsBounds(inp, iw, a) && IsBounds(rec, rw, b)
    requires FitsAt(ok, inp, iw, rec, rw, dx, dy)
    ensures b == Box(a.minX + dx, a.maxX + dx, a.minY + dy, a.maxY + dy)
  {
    assert forall x, y :: Cell(inp, iw, x, y) != "" <==> Cell(rec, rw, x + dx, y + dy) != "";
    var l :| Cell(inp, iw, a.minX, l) != "";
    var r :| Cell(inp, iw, a.maxX, r) != "";
    var t :| Cell(inp, iw, t, a.minY) != "";
    var u :| Cell(inp, iw, u, a.maxY) != "";
    assert Within(b, a.minX + dx, l + dy) && Within(b, a.maxX + dx, r + dy);
    assert Within(b, t + dx, a.minY + dy) && Within(b, u + dx, a.maxY + dy);
    var l' :| Cell(rec, rw, b.minX, l') != "";
    var r' :| Cell(rec, rw, b.maxX, r') != "";
    var t' :| Cell(rec, rw, t', b.minY) != "";
    var u' :| Cell(rec, rw, u', b.maxY) != "";
    assert Cell(inp, iw, b.minX - dx, l' - dy) != "" by { assert b.minX - dx + dx == b.minX && l' - dy + dy == l'; }
    assert Cell(inp, iw, b.maxX - dx, r' - dy) != "" by { assert b.maxX - dx + dx == b.maxX && r' - dy + dy == r'; }
    assert Cell(inp, iw, t' - dx, b.minY - dy) != "" by { assert b.minY - dy + dy == b.minY && t' - dx + dx == t'; }
    assert Cell(inp, iw, u' - dx, b.maxY - dy) != "" by { assert b.maxY - dy + dy == b.maxY && u' - dx + dx == u'; }
  }

  lemma BoxOfTranslation(ok: (string, string) -> bool, inp: seq<string>, iw: nat, rec: seq<string>, rw: nat, a: Box,
                         b: Box, dx: int, dy: int)
    requires iw > 0 && rw > 0 && FitsAt(ok, inp, iw, rec, rw, dx, dy)
    requires b == Box(a.minX + dx, a.maxX + dx, a.minY + dy, a.maxY + dy)
    ensures BoxFits(ok, inp, iw, rec, rw, a, b)
  {
    assert b.minX - a.minX == dx && b.minY - a.minY == dy;
  }

  lemma BoxFitsIffTranslation(ok: (string, string) -> bool, inp: seq<string>, iw: nat, rec: seq<string>, rw: nat,
                              a: Box, b: Box)
    requires EmptyForEmpty(ok)
    requires iw > 0 && rw > 0 && IsBounds(inp, iw, a) && IsBounds(rec, rw, b)
    ensures BoxFits(ok, inp, iw, rec, rw, a, b) <==> exists dx, dy :: FitsAt(ok, inp, iw, rec, rw, dx, dy)
  {
    if BoxFits(ok, inp, iw, rec, rw, a, b) {
      FitsInsideAndOut(ok, inp, iw, rec, rw, a, b);
    }
    if exists dx, dy :: FitsAt(ok, inp, iw, rec, rw, dx, dy) {
      var dx, dy :| FitsAt(ok, inp, iw, rec, rw, dx, dy);
      TranslationMovesBounds(ok, inp, iw, rec, rw, a, b, dx, dy);
      BoxOfTranslation(ok, inp, iw, rec, rw, a, b, dx, dy);
    }
  }

  /** Compare the two boxes row by row. */
  method CompareBoxes(reg: Registry, inp: seq<string>, iw: nat, rec: seq<string>, rw: nat, a: Box, b: Box)
    returns (r: bool)
    requires iw > 0 && rw > 0 && |inp| % iw == 0 && |rec| % rw == 0
    requires 0 <= a.minX <= a.maxX < iw && 0 <= a.minY <= a.maxY && a.maxY * iw < |inp|
    requires 0 <= b.minX <= b.maxX < rw && 0 <= b.minY <= b.maxY && b.maxY * rw < |rec|
    ensures r <==> BoxFits(Ok(reg), inp, iw, rec, rw, a, b)
  {
    if a.maxX - a.minX != b.maxX - b.minX || a.maxY - a.minY != b.maxY - b.minY {
      return false;
    }
    var w := a.maxX - a.minX + 1;
    var h := a.maxY - a.minY + 1;
    for y := 0 to h
      invariant forall x', y' :: a.minX <= x' <= a.maxX && a.minY <= y' < a.minY + y ==>
                  Ok(reg)(Cell(inp, iw, x', y'), Cell(rec, rw, x' + (b.minX - a.minX), y' + (b.minY - a.minY)))
    {
      var top, recTop := a.minY + y, b.minY + y;
      assert top + (b.minY - a.minY) == recTop;
      RowInside2(|inp|, iw, top, a.maxY);
      RowInside2(|rec|, rw, recTop, b.maxY);
      var inpY, recY := top * iw, recTop * rw;
      for x := 0 to w
        invariant forall x' :: a.minX <= x' < a.minX + x ==>
                    Ok(reg)(Cell(inp, iw, x', top), Cell(rec, rw, x' + (b.minX - a.minX), recTop))
      {
        var inpX, recX := a.minX + x, b.minX + x;
        assert Cell(inp, iw, inpX, top) == inp[inpY + inpX];
        assert Cell(rec, rw, inpX + (b.minX - a.minX), recTop) == rec[recY + recX];
        if !Matches(reg, inp[inpY + inpX], rec[recY + recX]) {
          assert Within(a, inpX, top);
          return false;
        }
      }
    }
    return true;
  }

  lemma RowInside2(n: int, width: int, y: int, maxY: int)
    requires width > 0 && n % width == 0 && 0 <= y <= maxY && maxY * width < n
    ensures y * width >= 0 && y * width + width <= n
  {
    assert y * width <= maxY * width;
    RowInside(n, width, y);
  }

  lemma SameCells(ok: (string, string) -> bool, inp: seq<string>, inp': seq<string>, iw: nat, rec: seq<string>,
                  rec': seq<string>, rw: nat)
    requires iw > 0 && rw > 0
    requires forall x, y :: Cell(inp', iw, x, y) == Cell(inp, iw, x, y)
    requires forall x, y :: Cell(rec', rw, x, y) == Cell(rec, rw, x, y)
    ensures Occupied(inp', iw) == Occupied(inp, iw) && Occupied(rec', rw) == Occupied(rec, rw)
    ensures forall dx, dy :: FitsAt(ok, inp', iw, rec', rw, dx, dy) == FitsAt(ok, inp, iw, rec, rw, dx, dy)
  {
    if Occupied(inp, iw) {
      var x, y :| Cell(inp, iw, x, y) != "";
      assert Cell(inp', iw, x, y) != "";
    }
    if Occupied(rec, rw) {
      var x, y :| Cell(rec, rw, x, y) != "";
      assert Cell(rec', rw, x, y) != "";
    }
    forall dx, dy ensures FitsAt(ok, inp', iw, rec', rw, dx, dy) == FitsAt(ok, inp, iw, rec, rw, dx, dy) {
      assert FitsAt(ok, inp, iw, rec, rw, dx, dy) ==> FitsAt(ok, inp', iw, rec', rw, dx, dy);
      assert FitsAt(ok, inp', iw, rec', rw, dx, dy) ==> FitsAt(ok, inp, iw, rec, rw, dx, dy);
    }
  }

  /** `rec` holds the recipe's item names after alias resolution. */
  method Check(reg: Registry, input: CraftInput, rec: seq<string>, width: nat) returns (r: bool)
    requires HandInNoGroup(reg)
    ensures r <==> ShapedMatches(reg, input, rec, width)
  {
    if input.kind != Normal || input.width == 0 {
      return false;
    }
    var inpNames := Pad(Names(input.items), input.width);
    var inpFound, a := GetBounds(inpNames, input.width);
    if !inpFound {
      if width > 0 {
        SameCells(Ok(reg), Names(input.items), inpNames, input.width, rec, rec, width);
      }
      return false;
    }
    if width == 0 {
      return false;
    }
    var recNames := Pad(rec, width);
    SameCells(Ok(reg), Names(input.items), inpNames, input.width, rec, recNames, width);
    var recFound, b := GetBounds(recNames, width);
    if !recFound {
      return false;
    }
    r := CompareBoxes(reg, inpNames, input.width, recNames, width, a, b);
    SlotsAreEmptyForEmpty(reg);
    BoxFitsIffTranslation(Ok(reg), inpNames, input.width, recNames, width, a, b);
  }

  lemma ShiftedStillMatches(reg: Registry, input: CraftInput, shifted: CraftInput, rec: seq<string>, width: nat,
                            sx: int, sy: int)
    requires input.kind == shifted.kind && input.width > 0 && shifted.width > 0
    requires forall x, y :: Cell(Names(shifted.items), shifted.width, x + sx, y + sy) ==
               Cell(Names(input.items), input.width, x, y)
    ensures ShapedMatches(reg, input, rec, width) ==> ShapedMatches(reg, shifted, rec, width)
  {
    if ShapedMatches(reg, input, rec, width) {
      var inp, inp' := Names(input.items), Names(shifted.items);
      var x0, y0 :| Cell(inp, input.width, x0, y0) != "";
      assert Cell(inp', shifted.width, x0 + sx, y0 + sy) != "";
      var dx, dy :| FitsAt(Ok(reg), inp, input.width, rec, width, dx, dy);
      forall x, y ensures Ok(reg)(Cell(inp', shifted.width, x, y), Cell(rec, width, x + (dx - sx), y + (dy - sy))) {
        var x1, y1 := x - sx, y - sy;
        assert Cell(inp', shifted.width, x1 + sx, y1 + sy) == Cell(inp, input.width, x1, y1);
        assert Ok(reg)(Cell(inp, input.width, x1, y1), Cell(rec, width, x1 + dx, y1 + dy));
      }
      assert FitsAt(Ok(reg), inp', shifted.width, rec, width, dx - sx, dy - sy);
    }
  }

  /** Only the relative arrangement counts: a shifted input gets the same answer. */
  lemma ShiftInvariant(reg: Registry, input: CraftInput, shifted: CraftInput, rec: seq<string>, width: nat, sx: int,
                       sy: int)
    requires input.kind == shifted.kind && input.width > 0 && shifted.width > 0
    requires forall x, y :: Cell(Names(shifted.items), shifted.width, x + sx, y + sy) ==
               Cell(Names(input.items), input.width, x, y)
    ensures ShapedMatches(reg, input, rec, width) <==> ShapedMatches(reg, shifted, rec, width)
  {
    ShiftedStillMatches(reg, input, shifted, rec, width, sx, sy);
    forall x, y
      ensures Cell(Names(input.items), input.width, x + -sx, y + -sy) ==
              Cell(Names(shifted.items), shifted.width, x, y)
    {
      var x0, y0 := x - sx, y - sy;
      assert Cell(Names(shifted.items), shifted.width, x0 + sx, y0 + sy) ==
             Cell(Names(input.items), input.width, x0, y0);
    }
    ShiftedStillMatches(reg, shifted, input, rec, width, -sx, -sy);
  }
}
