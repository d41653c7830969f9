/** The shaped recipe check: bounding boxes of the recipe and of the input grid, compared cell by
    cell, against translations of the one onto the other. */
module Shaped {
  import opened Recipes

  // ---------------------------------------------------------------------------
  // Grids: rows of a given width, laid out one after the other
  // ---------------------------------------------------------------------------

  /** The name in column x of row y; "" outside the grid. */
  ghost function Cell(names: seq<string>, width: nat, x: int, y: int): string {
    if 0 <= x < width && 0 <= y && Index(width, x, y) < |names| then names[Index(width, x, y)] else ""
  }

  function Index(width: nat, x: nat, y: nat): nat {
    y * width + x
  }

  function Col(width: nat, i: nat): nat
    requires width > 0
  {
    i % width
  }

  function Row(width: nat, i: nat): nat
    requires width > 0
  {
    i / width
  }

  lemma NextRow(y: nat, width: nat)
    ensures (y + 1) * width == y * width + width
  {
  }

  /** An earlier row ends before a later one begins. */
  lemma RowsApart(y: nat, y': nat, width: nat)
    ensures y < y' ==> y * width + width <= y' * width
  {
    NextRow(y, width);
    MulMonotone(y + 1, y', width);
  }

  lemma MulMonotone(a: nat, b: nat, width: nat)
    ensures a <= b ==> a * width <= b * width
  {
  }

  /** Columns and rows identify the cells of a grid. */
  lemma RowColumn(width: nat, i: nat)
    requires width > 0
    ensures Index(width, Col(width, i), Row(width, i)) == i && Col(width, i) < width
  {
  }

  lemma IndexUnique(width: nat, x: nat, y: nat, x': nat, y': nat)
    requires x < width && x' < width && Index(width, x, y) == Index(width, x', y')
    ensures x == x' && y == y'
  {
    RowsApart(y, y', width);
    RowsApart(y', y, width);
  }

  lemma RowColumnOf(width: nat, x: nat, y: nat)
    requires x < width
    ensures Row(width, Index(width, x, y)) == y && Col(width, Index(width, x, y)) == x
  {
    var i := Index(width, x, y);
    RowColumn(width, i);
    IndexUnique(width, x, y, Col(width, i), Row(width, i));
  }

  lemma NextCell(width: nat, i: nat)
    requires width > 0
    ensures Col(width, i) + 1 == width ==> Col(width, i + 1) == 0 && Row(width, i + 1) == Row(width, i) + 1
    ensures Col(width, i) + 1 < width ==> Col(width, i + 1) == Col(width, i) + 1 && Row(width, i + 1) == Row(width, i)
  {
    var x, y := Col(width, i), Row(width, i);
    RowColumn(width, i);
    if x + 1 == width {
      assert Index(width, 0, y + 1) == i + 1 by { assert (y + 1) * width == y * width + width; }
      RowColumnOf(width, 0, y + 1);
    } else {
      assert Index(width, x + 1, y) == i + 1;
      RowColumnOf(width, x + 1, y);
    }
  }

  ghost predicate Filled(names: seq<string>, width: nat, x: int, y: int) {
    Cell(names, width, x, y) != ""
  }

  datatype Box = Box(minX: int, maxX: int, minY: int, maxY: int) {
    ghost predicate Has(x: int, y: int) {
      minX <= x <= maxX && minY <= y <= maxY
    }

    ghost function Shift(dx: int, dy: int): Box {
      Box(minX + dx, maxX + dx, minY + dy, maxY + dy)
    }
  }

  ghost predicate ShiftedBy(b: Box, c: Box, dx: int, dy: int) {
    c == b.Shift(dx, dy)
  }

  lemma SameSize(b: Box, c: Box)
    ensures b.maxX - b.minX == c.maxX - c.minX && b.maxY - b.minY == c.maxY - c.minY
       <==> ShiftedBy(b, c, c.minX - b.minX, c.minY - b.minY)
  {
  }

  /** box is the least rectangle around the non-empty cells, of which there is at least one. */
  ghost predicate Bounds(names: seq<string>, width: nat, box: Box) {
    && (forall x, y :: Filled(names, width, x, y) ==> box.Has(x, y))
    && (exists y :: Filled(names, width, box.minX, y))
    && (exists y :: Filled(names, width, box.maxX, y))
    && (exists x :: Filled(names, width, x, box.minY))
    && (exists x :: Filled(names, width, x, box.maxY))
  }

  ghost predicate Blank(names: seq<string>, width: nat) {
    forall x, y :: !Filled(names, width, x, y)
  }

  lemma BoundsUnique(names: seq<string>, width: nat, b: Box, c: Box)
    requires Bounds(names, width, b) && Bounds(names, width, c)
    ensures b == c
  {
  }

  // ---------------------------------------------------------------------------
  // Finding the bounds in one scan
  // ---------------------------------------------------------------------------

  function Including(found: bool, box: Box, x: int, y: int): Box {
    if !found then Box(x, x, y, y)
    else Box(if x < box.minX then x else box.minX, if x > box.maxX then x else box.maxX,
             if y < box.minY then y else box.minY, if y > box.maxY then y else box.maxY)
  }

  /** Whether the first n cells hold a non-empty one, and the box around those. */
  function Scan(names: seq<string>, width: nat, n: nat): (bool, Box)
    requires n <= |names| && width > 0
  {
    if n == 0 then (false, Box(0, 0, 0, 0))
    else
      var (found, box) := Scan(names, width, n - 1);
      if names[n - 1] == "" then (found, box)
      else (true, Including(found, box, Col(width, n - 1), Row(width, n - 1)))
  }

  /** Some non-empty cell among the first n lies in column x and row y. */
  ghost predicate Seen(names: seq<string>, width: nat, n: nat, x: int, y: int)
    requires n <= |names| && width > 0
  {
    exists i: nat :: SeenAt(names, width, n, i, x, y)
  }

  ghost predicate SeenAt(names: seq<string>, width: nat, n: nat, i: nat, x: int, y: int)
    requires n <= |names| && width > 0
  {
    i < n && names[i] != "" && x == Col(width, i) && y == Row(width, i)
  }

  /** box is the least rectangle around the non-empty cells among the first n. */
  ghost predicate BoundsUpTo(names: seq<string>, width: nat, n: nat, box: Box)
    requires n <= |names| && width > 0
  {
    && (forall x, y :: Seen(names, width, n, x, y) ==> box.Has(x, y))
    && (exists y :: Seen(names, width, n, box.minX, y))
    && (exists y :: Seen(names, width, n, box.maxX, y))
    && (exists x :: Seen(names, width, n, x, box.minY))
    && (exists x :: Seen(names, width, n, x, box.maxY))
  }

  ghost predicate NothingSeen(names: seq<string>, width: nat, n: nat)
    requires n <= |names| && width > 0
  {
    forall x, y :: !Seen(names, width, n, x, y)
  }

  lemma SeenNext(names: seq<string>, width: nat, n: nat, x: int, y: int)
    requires n < |names| && width > 0
    ensures Seen(names, width, n + 1, x, y)
       <==> Seen(names, width, n, x, y) || (names[n] != "" && x == Col(width, n) && y == Row(width, n))
  {
    hide Col;
    hide Row;
    if Seen(names, width, n, x, y) {
      var i: nat :| SeenAt(names, width, n, i, x, y);
      assert SeenAt(names, width, n + 1, i, x, y);
    }
    if names[n] != "" && x == Col(width, n) && y == Row(width, n) {
      assert SeenAt(names, width, n + 1, n, x, y);
    }
    if Seen(names, width, n + 1, x, y) {
      var i: nat :| SeenAt(names, width, n + 1, i, x, y);
      assert i < n ==> SeenAt(names, width, n, i, x, y);
    }
  }

  lemma IncludeCell(names: seq<string>, width: nat, n: nat, found: bool, box: Box)
    requires n < |names| && width > 0 && names[n] != ""
    requires if found then BoundsUpTo(names, width, n, box) else NothingSeen(names, width, n)
    ensures BoundsUpTo(names, width, n + 1, Including(found, box, Col(width, n), Row(width, n)))
  {
    var cx, cy := Col(width, n), Row(width, n);
    SeenNext(names, width, n, cx, cy);
    assert Seen(names, width, n + 1, cx, cy);
    forall x, y | Seen(names, width, n, x, y) ensures Seen(names, width, n + 1, x, y) {
      SeenNext(names, width, n, x, y);
    }
    forall x, y | Seen(names, width, n + 1, x, y) && !(x == cx && y == cy) ensures Seen(names, width, n, x, y) {
      SeenNext(names, width, n, x, y);
    }
    hide Col;
    hide Row;
    hide Seen;
    if found {
      var y0 :| Seen(names, width, n, box.minX, y0);
      var y1 :| Seen(names, width, n, box.maxX, y1);
      var x0 :| Seen(names, width, n, x0, box.minY);
      var x1 :| Seen(names, width, n, x1, box.maxY);
      assert Seen(names, width, n + 1, box.minX, y0) && Seen(names, width, n + 1, box.maxX, y1);
      assert Seen(names, width, n + 1, x0, box.minY) && Seen(names, width, n + 1, x1, box.maxY);
    }
    var b := Including(found, box, cx, cy);
    forall x, y | Seen(names, width, n + 1, x, y) ensures b.Has(x, y) {
      SeenNext(names, width, n, x, y);
      assert (x == cx && y == cy) || (found && box.Has(x, y));
    }
  }

  lemma {:induction false} ScanIsBounds(names: seq<string>, width: nat, n: nat)
    requires n <= |names| && width > 0
    ensures var (found, box) := Scan(names, width, n);
      if found then BoundsUpTo(names, width, n, box) else NothingSeen(names, width, n)
  {
    if n > 0 {
      var m := n - 1;
      ScanIsBounds(names, width, m);
      var (found, box) := Scan(names, width, m);
      if names[m] == "" {
        forall x, y ensures Seen(names, width, n, x, y) <==> Seen(names, width, m, x, y) {
          SeenNext(names, width, m, x, y);
        }
        hide Seen;
      } else {
        IncludeCell(names, width, m, found, box);
      }
    }
  }

  lemma SeenIsFilled(names: seq<string>, width: nat, x: int, y: int)
    requires width > 0
    ensures Seen(names, width, |names|, x, y) <==> Filled(names, width, x, y)
  {
    if Seen(names, width, |names|, x, y) {
      var i: nat :| SeenAt(names, width, |names|, i, x, y);
      RowColumn(width, i);
    }
    if Filled(names, width, x, y) {
      RowColumnOf(width, x, y);
      assert SeenAt(names, width, |names|, Index(width, x, y), x, y);
    }
  }

  /** A full scan finds the bounds, and finds nothing exactly when the grid is blank. */
  lemma ScanFindsBounds(names: seq<string>, width: nat)
    requires width > 0
    ensures var (found, box) := Scan(names, width, |names|);
      if found then !Blank(names, width) && Bounds(names, width, box) else Blank(names, width)
  {
    ScanIsBounds(names, width, |names|);
    forall x, y ensures Seen(names, width, |names|, x, y) <==> Filled(names, width, x, y) {
      SeenIsFilled(names, width, x, y);
    }
    hide Scan;
    hide Seen;
    hide Filled;
  }

  lemma BoxExists(names: seq<string>, width: nat) returns (box: Box)
    requires !Blank(names, width)
    ensures Bounds(names, width, box)
  {
    assert width > 0;
    ScanFindsBounds(names, width);
    box := Scan(names, width, |names|).1;
  }

  method GetBounds(names: seq<string>, width: nat) returns (success: bool, box: Box)
    requires width > 0
    ensures !success <==> Blank(names, width)
    ensures success ==> Bounds(names, width, box)
  {
    success := false;
    hide Bounds;
    hide Blank;
    var x, y := 0, 0;
    var minX, maxX, minY, maxY := 0, 0, 0, 0;
    for i := 0 to |names|
      invariant x == Col(width, i) && y == Row(width, i)
      invariant Scan(names, width, i) == (success, Box(minX, maxX, minY, maxY))
    {
      if names[i] != "" {
        if !success {
          minX, maxX := x, x;
          minY, maxY := y, y;
          success := true;
        } else {
          if x < minX { minX := x; }
          if x > maxX { maxX := x; }
          if y < minY { minY := y; }
          if y > maxY { maxY := y; }
        }
      }
      NextCell(width, i);
      RowColumn(width, i);
      hide Col;
      hide Row;
      x := x + 1;
      if x == width {
        x := 0;
        y := y + 1;
      }
    }
    ScanFindsBounds(names, width);
    box := Box(minX, maxX, minY, maxY);
  }

  // ---------------------------------------------------------------------------
  // What a shaped recipe is supposed to accept
  // ---------------------------------------------------------------------------

  /** Shifting by (dx, dy) maps the recipe's non-empty cells one-to-one onto the input's
      non-empty cells, and each of these satisfies its slot. */
  ghost predicate Translates(defs: ItemDefs, input: seq<string>, inputWidth: nat,
                             recipe: seq<string>, recipeWidth: nat, dx: int, dy: int) {
    && (forall x, y :: Filled(recipe, recipeWidth, x, y) <==> Filled(input, inputWidth, x + dx, y + dy))
    && (forall x, y :: Filled(recipe, recipeWidth, x, y) ==>
          Matches(defs, Cell(input, inputWidth, x + dx, y + dy), Cell(recipe, recipeWidth, x, y)))
  }

  ghost predicate AcceptsShape(defs: ItemDefs, input: seq<string>, inputWidth: nat,
                               recipe: seq<string>, recipeWidth: nat) {
    && !Blank(recipe, recipeWidth)
    && exists dx, dy :: Translates(defs, input, inputWidth, recipe, recipeWidth, dx, dy)
  }

  // ---------------------------------------------------------------------------
  // What the code accepts: equal boxes, and every cell of the box matches
  // ---------------------------------------------------------------------------

  ghost predicate BoxesMatch(defs: ItemDefs, input: seq<string>, inputWidth: nat,
                             recipe: seq<string>, recipeWidth: nat, box: Box, dx: int, dy: int) {
    && Bounds(recipe, recipeWidth, box)
    && Bounds(input, inputWidth, box.Shift(dx, dy))
    && forall x, y :: box.Has(x, y) ==>
         Matches(defs, Cell(input, inputWidth, x + dx, y + dy), Cell(recipe, recipeWidth, x, y))
  }

  ghost predicate AcceptsBoxes(defs: ItemDefs, input: seq<string>, inputWidth: nat,
                               recipe: seq<string>, recipeWidth: nat) {
    exists box, dx, dy :: BoxesMatch(defs, input, inputWidth, recipe, recipeWidth, box, dx, dy)
  }

  /** The empty hand belongs to no group, as far as a recipe can ask. */
  ghost predicate HandInNoGroup(defs: ItemDefs) {
    defs.Known("") ==> forall group :: ',' !in group ==> defs.Rating("", group) == 0
  }

  lemma HandSatisfiesNothing(defs: ItemDefs, slot: string)
    requires HandInNoGroup(defs) && slot != ""
    ensures !Matches(defs, "", slot)
  {
    if IsGroup(slot) && defs.Known("") {
      var pieces := Pieces(slot[|GROUP_PREFIX|..]);
      PiecesHoldNoComma(slot[|GROUP_PREFIX|..]);
      assert pieces[0] in pieces && defs.Rating("", pieces[0]) == 0;
    }
  }

  /** With the hand in no group, the code accepts exactly what a shaped recipe should. */
  lemma BoxesAreTranslations(defs: ItemDefs, input: seq<string>, inputWidth: nat,
                             recipe: seq<string>, recipeWidth: nat)
    requires HandInNoGroup(defs)
    ensures AcceptsBoxes(defs, input, inputWidth, recipe, recipeWidth)
       <==> AcceptsShape(defs, input, inputWidth, recipe, recipeWidth)
  {
    if AcceptsBoxes(defs, input, inputWidth, recipe, recipeWidth) {
      var box, dx, dy :| BoxesMatch(defs, input, inputWidth, recipe, recipeWidth, box, dx, dy);
      BoxesTranslate(defs, input, inputWidth, recipe, recipeWidth, box, dx, dy);
    }
    if AcceptsShape(defs, input, inputWidth, recipe, recipeWidth) {
      var dx, dy :| Translates(defs, input, inputWidth, recipe, recipeWidth, dx, dy);
      var box := BoxExists(recipe, recipeWidth);
      TranslationMatchesBoxes(defs, input, inputWidth, recipe, recipeWidth, box, dx, dy);
    }
  }

  /** The condition on the hand is exact: with a hand in some group there is a recipe that
      accepts an input with a hole where the recipe wants a member of that group. */
  lemma HandConditionIsExact(defs: ItemDefs)
    ensures HandInNoGroup(defs)
       <==> forall input, inputWidth, recipe, recipeWidth ::
              (AcceptsBoxes(defs, input, inputWidth, recipe, recipeWidth)
               <==> AcceptsShape(defs, input, inputWidth, recipe, recipeWidth))
  {
    hide AcceptsBoxes;
    hide AcceptsShape;
    hide HandInNoGroup;
    if HandInNoGroup(defs) {
      forall input, inputWidth, recipe, recipeWidth
        ensures AcceptsBoxes(defs, input, inputWidth, recipe, recipeWidth)
           <==> AcceptsShape(defs, input, inputWidth, recipe, recipeWidth)
      {
        BoxesAreTranslations(defs, input, inputWidth, recipe, recipeWidth);
      }
    } else {
      var group := AGroupOfTheHand(defs);
      HoleAccepted(defs, group);
      var slot := GROUP_PREFIX + group;
      assert AcceptsBoxes(defs, ["a", "", "a"], 3, ["a", slot, "a"], 3)
         && !AcceptsShape(defs, ["a", "", "a"], 3, ["a", slot, "a"], 3);
    }
  }

  lemma AGroupOfTheHand(defs: ItemDefs) returns (group: string)
    requires !HandInNoGroup(defs)
    ensures defs.Known("") && ',' !in group && defs.Rating("", group) != 0
  {
    group :| ',' !in group && defs.Rating("", group) != 0;
  }

  lemma RowCells(a: string, b: string, c: string, x: int, y: int)
    ensures Cell([a, b, c], 3, x, y)
         == if y == 0 && x == 0 then a else if y == 0 && x == 1 then b else if y == 0 && x == 2 then c else ""
  {
  }

  lemma HoleMatches(defs: ItemDefs, group: string)
    requires defs.Known("") && ',' !in group && defs.Rating("", group) != 0
    ensures Matches(defs, "", GROUP_PREFIX + group)
  {
    var slot := GROUP_PREFIX + group;
    assert slot[|GROUP_PREFIX|..] == group;
    assert CommaIn(group) == |group|;
    assert group[..|group|] == group;
  }

  lemma HoleAccepted(defs: ItemDefs, group: string)
    requires defs.Known("") && ',' !in group && defs.Rating("", group) != 0
    ensures var slot := GROUP_PREFIX + group;
      AcceptsBoxes(defs, ["a", "", "a"], 3, ["a", slot, "a"], 3)
      && !AcceptsShape(defs, ["a", "", "a"], 3, ["a", slot, "a"], 3)
  {
    var slot := GROUP_PREFIX + group;
    var input, recipe := ["a", "", "a"], ["a", slot, "a"];
    HoleMatches(defs, group);
    PlainSlot(defs, "a", "a");
    forall x, y
      ensures Cell(input, 3, x, y) == if y == 0 && (x == 0 || x == 2) then "a" else ""
      ensures Cell(recipe, 3, x, y)
           == if y == 0 && (x == 0 || x == 2) then "a" else if y == 0 && x == 1 then slot else ""
    {
      RowCells("a", "", "a", x, y);
      RowCells("a", slot, "a", x, y);
    }
    hide Cell;
    hide Matches;
    var box := Box(0, 2, 0, 0);
    assert Filled(input, 3, 0, 0) && Filled(input, 3, 2, 0) && Filled(recipe, 3, 0, 0) && Filled(recipe, 3, 2, 0);
    assert Filled(recipe, 3, 1, 0);
    assert BoxesMatch(defs, input, 3, recipe, 3, box, 0, 0);
    forall dx, dy ensures !Translates(defs, input, 3, recipe, 3, dx, dy) {
      // of two neighbouring cells of the input at most one is filled
      assert !(Filled(input, 3, 0 + dx, 0 + dy) && Filled(input, 3, 1 + dx, 0 + dy));
    }
  }

  /** Where the pattern lies in the input grid, and how wide that grid is, is irrelevant. */
  lemma PositionIrrelevant(defs: ItemDefs, input: seq<string>, inputWidth: nat, input': seq<string>, inputWidth': nat,
                           recipe: seq<string>, recipeWidth: nat, ex: int, ey: int)
    requires forall x, y :: Cell(input', inputWidth', x + ex, y + ey) == Cell(input, inputWidth, x, y)
    ensures AcceptsShape(defs, input, inputWidth, recipe, recipeWidth)
       <==> AcceptsShape(defs, input', inputWidth', recipe, recipeWidth)
  {
    hide Cell;
    hide Matches;
    if AcceptsShape(defs, input, inputWidth, recipe, recipeWidth) {
      var dx, dy :| Translates(defs, input, inputWidth, recipe, recipeWidth, dx, dy);
      ShiftedTranslates(defs, input, inputWidth, input', inputWidth', recipe, recipeWidth, dx, dy, ex, ey);
    }
    if AcceptsShape(defs, input', inputWidth', recipe, recipeWidth) {
      var dx, dy :| Translates(defs, input', inputWidth', recipe, recipeWidth, dx, dy);
      forall x, y ensures Cell(input, inputWidth, x + (0 - ex), y + (0 - ey)) == Cell(input', inputWidth', x, y) {
        assert Cell(input', inputWidth', (x - ex) + ex, (y - ey) + ey) == Cell(input, inputWidth, x - ex, y - ey);
      }
      ShiftedTranslates(defs, input', inputWidth', input, inputWidth, recipe, recipeWidth, dx, dy, 0 - ex, 0 - ey);
    }
  }

  /** Nor does it matter where the pattern lies in the recipe grid, and how wide that is. */
  lemma RecipePositionIrrelevant(defs: ItemDefs, input: seq<string>, inputWidth: nat,
                                 recipe: seq<string>, recipeWidth: nat, recipe': seq<string>, recipeWidth': nat,
                                 ex: int, ey: int)
    requires forall x, y :: Cell(recipe', recipeWidth', x + ex, y + ey) == Cell(recipe, recipeWidth, x, y)
    ensures AcceptsShape(defs, input, inputWidth, recipe, recipeWidth)
       <==> AcceptsShape(defs, input, inputWidth, recipe', recipeWidth')
  {
    hide Cell;
    hide Matches;
    MovedBlank(recipe, recipeWidth, recipe', recipeWidth', ex, ey);
    forall x, y ensures Cell(recipe, recipeWidth, x + (0 - ex), y + (0 - ey)) == Cell(recipe', recipeWidth', x, y) {
      assert Cell(recipe', recipeWidth', (x - ex) + ex, (y - ey) + ey) == Cell(recipe, recipeWidth, x - ex, y - ey);
    }
    MovedBlank(recipe', recipeWidth', recipe, recipeWidth, 0 - ex, 0 - ey);
    hide Blank;
    if AcceptsShape(defs, input, inputWidth, recipe, recipeWidth) {
      var dx, dy :| Translates(defs, input, inputWidth, recipe, recipeWidth, dx, dy);
      MovedTranslates(defs, input, inputWidth, recipe, recipeWidth, recipe', recipeWidth', dx, dy, ex, ey);
    }
    if AcceptsShape(defs, input, inputWidth, recipe', recipeWidth') {
      var dx, dy :| Translates(defs, input, inputWidth, recipe', recipeWidth', dx, dy);
      MovedTranslates(defs, input, inputWidth, recipe', recipeWidth', recipe, recipeWidth, dx, dy, 0 - ex, 0 - ey);
    }
  }

  lemma MovedBlank(recipe: seq<string>, recipeWidth: nat, recipe': seq<string>, recipeWidth': nat, ex: int, ey: int)
    requires forall x, y :: Cell(recipe', recipeWidth', x + ex, y + ey) == Cell(recipe, recipeWidth, x, y)
    ensures Blank(recipe', recipeWidth') ==> Blank(recipe, recipeWidth)
  {
    hide Cell;
    if Blank(recipe', recipeWidth') {
      forall x, y ensures !Filled(recipe, recipeWidth, x, y) {
        assert Cell(recipe', recipeWidth', x + ex, y + ey) == Cell(recipe, recipeWidth, x, y);
        assert !Filled(recipe', recipeWidth', x + ex, y + ey);
      }
    }
  }

  lemma MovedTranslates(defs: ItemDefs, input: seq<string>, inputWidth: nat,
                        recipe: seq<string>, recipeWidth: nat, recipe': seq<string>, recipeWidth': nat,
                        dx: int, dy: int, ex: int, ey: int)
    requires forall x, y :: Cell(recipe', recipeWidth', x + ex, y + ey) == Cell(recipe, recipeWidth, x, y)
    requires Translates(defs, input, inputWidth, recipe, recipeWidth, dx, dy)
    ensures Translates(defs, input, inputWidth, recipe', recipeWidth', dx - ex, dy - ey)
  {
    hide Cell;
    hide Matches;
    forall x, y
      ensures Filled(recipe', recipeWidth', x, y) <==> Filled(input, inputWidth, x + (dx - ex), y + (dy - ey))
      ensures Filled(recipe', recipeWidth', x, y) ==>
        Matches(defs, Cell(input, inputWidth, x + (dx - ex), y + (dy - ey)), Cell(recipe', recipeWidth', x, y))
    {
      assert Cell(recipe', recipeWidth', (x - ex) + ex, (y - ey) + ey) == Cell(recipe, recipeWidth, x - ex, y - ey);
      assert Filled(recipe, recipeWidth, x - ex, y - ey) <==> Filled(input, inputWidth, (x - ex) + dx, (y - ey) + dy);
    }
  }

  lemma ShiftedTranslates(defs: ItemDefs, input: seq<string>, inputWidth: nat, input': seq<string>, inputWidth': nat,
                          recipe: seq<string>, recipeWidth: nat, dx: int, dy: int, ex: int, ey: int)
    requires forall x, y :: Cell(input', inputWidth', x + ex, y + ey) == Cell(input, inputWidth, x, y)
    requires Translates(defs, input, inputWidth, recipe, recipeWidth, dx, dy)
    ensures Translates(defs, input', inputWidth', recipe, recipeWidth, dx + ex, dy + ey)
  {
    hide Cell;
    hide Matches;
    forall x, y
      ensures Filled(recipe, recipeWidth, x, y) <==> Filled(input', inputWidth', x + (dx + ex), y + (dy + ey))
      ensures Filled(recipe, recipeWidth, x, y) ==>
        Matches(defs, Cell(input', inputWidth', x + (dx + ex), y + (dy + ey)), Cell(recipe, recipeWidth, x, y))
    {
      assert Cell(input', inputWidth', (x + dx) + ex, (y + dy) + ey) == Cell(input, inputWidth, x + dx, y + dy);
      assert Filled(recipe, recipeWidth, x, y) <==> Filled(input, inputWidth, x + dx, y + dy);
    }
  }

  lemma BoxesTranslate(defs: ItemDefs, input: seq<string>, inputWidth: nat,
                       recipe: seq<string>, recipeWidth: nat, box: Box, dx: int, dy: int)
    requires HandInNoGroup(defs)
    requires BoxesMatch(defs, input, inputWidth, recipe, recipeWidth, box, dx, dy)
    ensures Translates(defs, input, inputWidth, recipe, recipeWidth, dx, dy)
  {
    forall x, y
      ensures Filled(recipe, recipeWidth, x, y) <==> Filled(input, inputWidth, x + dx, y + dy)
    {
      if Filled(recipe, recipeWidth, x, y) && !Filled(input, inputWidth, x + dx, y + dy) {
        HandSatisfiesNothing(defs, Cell(recipe, recipeWidth, x, y));
      }
      if Filled(input, inputWidth, x + dx, y + dy) {
        assert box.Has(x, y);
        PlainSlot(defs, Cell(input, inputWidth, x + dx, y + dy), "");
      }
    }
  }

  lemma TranslationMatchesBoxes(defs: ItemDefs, input: seq<string>, inputWidth: nat,
                                recipe: seq<string>, recipeWidth: nat, box: Box, dx: int, dy: int)
    requires Bounds(recipe, recipeWidth, box)
    requires Translates(defs, input, inputWidth, recipe, recipeWidth, dx, dy)
    ensures BoxesMatch(defs, input, inputWidth, recipe, recipeWidth, box, dx, dy)
  {
    hide Cell;
    hide Matches;
    ShiftBounds(input, inputWidth, recipe, recipeWidth, box, dx, dy);
    forall x, y | box.Has(x, y)
      ensures Matches(defs, Cell(input, inputWidth, x + dx, y + dy), Cell(recipe, recipeWidth, x, y))
    {
      if !Filled(recipe, recipeWidth, x, y) {
        PlainSlot(defs, "", "");
      }
    }
  }

  lemma ShiftBounds(input: seq<string>, inputWidth: nat, recipe: seq<string>, recipeWidth: nat,
                    box: Box, dx: int, dy: int)
    requires Bounds(recipe, recipeWidth, box)
    requires forall x, y :: Filled(recipe, recipeWidth, x, y) <==> Filled(input, inputWidth, x + dx, y + dy)
    ensures Bounds(input, inputWidth, box.Shift(dx, dy))
  {
    hide Filled;
    var y0 :| Filled(recipe, recipeWidth, box.minX, y0);
    var y1 :| Filled(recipe, recipeWidth, box.maxX, y1);
    var x0 :| Filled(recipe, recipeWidth, x0, box.minY);
    var x1 :| Filled(recipe, recipeWidth, x1, box.maxY);
    assert Filled(input, inputWidth, box.minX + dx, y0 + dy) && Filled(input, inputWidth, box.maxX + dx, y1 + dy);
    assert Filled(input, inputWidth, x0 + dx, box.minY + dy) && Filled(input, inputWidth, x1 + dx, box.maxY + dy);
    forall x, y | Filled(input, inputWidth, x, y) ensures box.Shift(dx, dy).Has(x, y) {
      assert (x - dx) + dx == x && (y - dy) + dy == y;
      assert Filled(recipe, recipeWidth, x - dx, y - dy);
    }
  }

  // ---------------------------------------------------------------------------
  // Deciding it
  // ---------------------------------------------------------------------------

  ghost predicate FullRows(names: seq<string>, width: nat) {
    width > 0 && |names| % width == 0
  }

  /** Appends empty names until all rows are full. */
  method FillRows(names: seq<string>, width: nat) returns (full: seq<string>)
    requires width > 0
    ensures FullRows(full, width)
    ensures SameCells(names, full, width) && SameCells(full, names, width)
  {
    full := names;
    while |full| % width != 0
      invariant names <= full
      invariant forall i :: |names| <= i < |full| ==> full[i] == ""
      decreases if |full| % width == 0 then 0 else width - |full| % width
    {
      NextCell(width, |full|);
      full := full + [""];
    }
  }

  ghost predicate SameCells(a: seq<string>, b: seq<string>, width: nat) {
    forall x, y :: Cell(a, width, x, y) == Cell(b, width, x, y)
  }

  lemma SameBlank(a: seq<string>, b: seq<string>, width: nat)
    requires SameCells(a, b, width)
    ensures Blank(a, width) <==> Blank(b, width)
  {
    assert forall x, y :: Filled(a, width, x, y) <==> Filled(b, width, x, y);
  }

  lemma SameBounds(a: seq<string>, b: seq<string>, width: nat, box: Box)
    requires SameCells(a, b, width) && Bounds(a, width, box)
    ensures Bounds(b, width, box)
  {
    assert forall x, y :: Filled(a, width, x, y) <==> Filled(b, width, x, y);
    hide Filled;
    hide Cell;
  }

  lemma RowsInside(width: nat, rows: nat, x: nat, y: nat, maxY: nat)
    requires x < width && y <= maxY && maxY * width < rows * width
    ensures y * width + x < rows * width
  {
    if maxY >= rows { MulMonotone(rows, maxY, width); }
    MulMonotone(y + 1, rows, width);
    assert (y + 1) * width == y * width + width;
  }

  /** Every cell of the bounding box lies inside full rows. */
  lemma BoxCell(names: seq<string>, width: nat, box: Box, x: int, y: int)
    requires FullRows(names, width) && Bounds(names, width, box) && box.Has(x, y)
    ensures 0 <= x && 0 <= y && Index(width, x, y) < |names|
    ensures Cell(names, width, x, y) == names[Index(width, x, y)]
  {
    RowColumn(width, |names|);
    assert |names| == Row(width, |names|) * width;
    RowsInside(width, Row(width, |names|), x, y, box.maxY);
  }

  /** The first columns of one row of the boxes match. */
  ghost predicate RowMatches(defs: ItemDefs, input: seq<string>, inputWidth: nat, recipe: seq<string>, recipeWidth: nat,
                             box: Box, dx: int, dy: int, y: int, columns: int) {
    forall x :: box.minX <= x < box.minX + columns ==>
      Matches(defs, Cell(input, inputWidth, x + dx, y + dy), Cell(recipe, recipeWidth, x, y))
  }

  ghost predicate WholeRowMatches(defs: ItemDefs, input: seq<string>, inputWidth: nat, recipe: seq<string>,
                                  recipeWidth: nat, box: Box, dx: int, dy: int, y: int) {
    RowMatches(defs, input, inputWidth, recipe, recipeWidth, box, dx, dy, y, box.maxX + 1 - box.minX)
  }

  /** The first rows of the boxes match. */
  ghost predicate RowsMatch(defs: ItemDefs, input: seq<string>, inputWidth: nat, recipe: seq<string>, recipeWidth: nat,
                            box: Box, dx: int, dy: int, rows: int) {
    forall y :: box.minY <= y < box.minY + rows ==>
      WholeRowMatches(defs, input, inputWidth, recipe, recipeWidth, box, dx, dy, y)
  }

  lemma RowsMatchAll(defs: ItemDefs, input: seq<string>, inputWidth: nat, recipe: seq<string>, recipeWidth: nat,
                     box: Box, dx: int, dy: int)
    requires Bounds(recipe, recipeWidth, box) && Bounds(input, inputWidth, box.Shift(dx, dy))
    requires RowsMatch(defs, input, inputWidth, recipe, recipeWidth, box, dx, dy, box.maxY + 1 - box.minY)
    ensures BoxesMatch(defs, input, inputWidth, recipe, recipeWidth, box, dx, dy)
  {
    hide Bounds;
    hide Matches;
    hide Cell;
    forall x, y | box.Has(x, y)
      ensures Matches(defs, Cell(input, inputWidth, x + dx, y + dy), Cell(recipe, recipeWidth, x, y))
    {
      assert WholeRowMatches(defs, input, inputWidth, recipe, recipeWidth, box, dx, dy, y);
    }
  }

  lemma Mismatch(defs: ItemDefs, input: seq<string>, inputWidth: nat, recipe: seq<string>, recipeWidth: nat,
                 box: Box, dx: int, dy: int, x: int, y: int)
    requires box.Has(x, y)
    requires !Matches(defs, Cell(input, inputWidth, x + dx, y + dy), Cell(recipe, recipeWidth, x, y))
    ensures !BoxesMatch(defs, input, inputWidth, recipe, recipeWidth, box, dx, dy)
  {
  }

  /** The comparison of one row of the two boxes, cell by cell. */
  method CompareRow(defs: ItemDefs, input: seq<string>, inputWidth: nat, recipe: seq<string>, recipeWidth: nat,
                    inputBox: Box, recipeBox: Box, dx: int, dy: int, y: int) returns (ok: bool)
    requires FullRows(input, inputWidth) && Bounds(input, inputWidth, inputBox)
    requires FullRows(recipe, recipeWidth) && Bounds(recipe, recipeWidth, recipeBox)
    requires ShiftedBy(recipeBox, inputBox, dx, dy) && recipeBox.minY <= y <= recipeBox.maxY
    ensures ok ==> WholeRowMatches(defs, input, inputWidth, recipe, recipeWidth, recipeBox, dx, dy, y)
    ensures !ok ==> !BoxesMatch(defs, input, inputWidth, recipe, recipeWidth, recipeBox, dx, dy)
  {
    hide Bounds;
    hide Matches;
    hide Cell;
    hide Index;
    hide BoxesMatch;
    var w := recipeBox.maxX + 1 - recipeBox.minX;
    var x := 0;
    while x < w
      invariant 0 <= x && (x <= w || w < 0)
      invariant RowMatches(defs, input, inputWidth, recipe, recipeWidth, recipeBox, dx, dy, y, x)
    {
      var recX := recipeBox.minX + x;
      BoxCell(input, inputWidth, inputBox, recX + dx, y + dy);
      BoxCell(recipe, recipeWidth, recipeBox, recX, y);
      var matches := InputItemMatchesRecipe(defs, input[Index(inputWidth, recX + dx, y + dy)],
                                            recipe[Index(recipeWidth, recX, y)]);
      if !matches {
        Mismatch(defs, input, inputWidth, recipe, recipeWidth, recipeBox, dx, dy, recX, y);
        return false;
      }
      x := x + 1;
    }
    return true;
  }

  method CompareBoxes(defs: ItemDefs, input: seq<string>, inputWidth: nat, recipe: seq<string>, recipeWidth: nat,
                      inputBox: Box, recipeBox: Box, dx: int, dy: int) returns (ok: bool)
    requires FullRows(input, inputWidth) && Bounds(input, inputWidth, inputBox)
    requires FullRows(recipe, recipeWidth) && Bounds(recipe, recipeWidth, recipeBox)
    requires ShiftedBy(recipeBox, inputBox, dx, dy)
    ensures ok <==> BoxesMatch(defs, input, inputWidth, recipe, recipeWidth, recipeBox, dx, dy)
  {
    hide Bounds;
    hide BoxesMatch;
    hide WholeRowMatches;
    var h := recipeBox.maxY + 1 - recipeBox.minY;
    var y := 0;
    while y < h
      invariant 0 <= y && (y <= h || h < 0)
      invariant RowsMatch(defs, input, inputWidth, recipe, recipeWidth, recipeBox, dx, dy, y)
    {
      var matches := CompareRow(defs, input, inputWidth, recipe, recipeWidth, inputBox, recipeBox, dx, dy,
                                recipeBox.minY + y);
      if !matches {
        return false;
      }
      y := y + 1;
    }
    RowsMatchAll(defs, input, inputWidth, recipe, recipeWidth, recipeBox, dx, dy);
    return true;
  }

  lemma BoxesMatchUnique(defs: ItemDefs, input: seq<string>, inputWidth: nat, recipe: seq<string>, recipeWidth: nat,
                         inputBox: Box, recipeBox: Box)
    requires Bounds(input, inputWidth, inputBox) && Bounds(recipe, recipeWidth, recipeBox)
    requires AcceptsBoxes(defs, input, inputWidth, recipe, recipeWidth)
    ensures BoxesMatch(defs, input, inputWidth, recipe, recipeWidth, recipeBox,
                       inputBox.minX - recipeBox.minX, inputBox.minY - recipeBox.minY)
    ensures inputBox.maxX - inputBox.minX == recipeBox.maxX - recipeBox.minX
    ensures inputBox.maxY - inputBox.minY == recipeBox.maxY - recipeBox.minY
  {
    hide Bounds;
    hide Matches;
    hide Cell;
    var box, dx, dy :| BoxesMatch(defs, input, inputWidth, recipe, recipeWidth, box, dx, dy);
    BoundsUnique(recipe, recipeWidth, box, recipeBox);
    BoundsUnique(input, inputWidth, box.Shift(dx, dy), inputBox);
  }

  lemma SameCellsSameVerdict(defs: ItemDefs, input: seq<string>, input': seq<string>, inputWidth: nat,
                             recipe: seq<string>, recipe': seq<string>, recipeWidth: nat)
    requires SameCells(input, input', inputWidth) && SameCells(recipe, recipe', recipeWidth)
    requires AcceptsBoxes(defs, input, inputWidth, recipe, recipeWidth)
    ensures AcceptsBoxes(defs, input', inputWidth, recipe', recipeWidth)
  {
    var box, dx, dy :| BoxesMatch(defs, input, inputWidth, recipe, recipeWidth, box, dx, dy);
    SameBounds(input, input', inputWidth, box.Shift(dx, dy));
    SameBounds(recipe, recipe', recipeWidth, box);
    hide Cell;
    hide Matches;
    hide Bounds;
    assert BoxesMatch(defs, input', inputWidth, recipe', recipeWidth, box, dx, dy);
  }

  /** The body of the shaped check on names of input stacks and names of the recipe. */
  method CheckShaped(defs: ItemDefs, inputNames: seq<string>, inputWidth: nat,
                     recipeNames: seq<string>, recipeWidth: nat) returns (ok: bool)
    ensures ok <==> AcceptsBoxes(defs, inputNames, inputWidth, recipeNames, recipeWidth)
    ensures HandInNoGroup(defs) ==>
      (ok <==> AcceptsShape(defs, inputNames, inputWidth, recipeNames, recipeWidth))
  {
    if HandInNoGroup(defs) {
      BoxesAreTranslations(defs, inputNames, inputWidth, recipeNames, recipeWidth);
    }
    ok := CheckBoxes(defs, inputNames, inputWidth, recipeNames, recipeWidth);
  }

  lemma BlankAcceptsNothing(defs: ItemDefs, input: seq<string>, inputWidth: nat, recipe: seq<string>, recipeWidth: nat)
    ensures inputWidth == 0 || recipeWidth == 0 || Blank(input, inputWidth) || Blank(recipe, recipeWidth)
        ==> !AcceptsBoxes(defs, input, inputWidth, recipe, recipeWidth)
  {
  }

  method CheckBoxes(defs: ItemDefs, inputNames: seq<string>, inputWidth: nat,
                    recipeNames: seq<string>, recipeWidth: nat) returns (ok: bool)
    ensures ok <==> AcceptsBoxes(defs, inputNames, inputWidth, recipeNames, recipeWidth)
  {
    hide *;
    BlankAcceptsNothing(defs, inputNames, inputWidth, recipeNames, recipeWidth);
    if inputWidth == 0 {
      return false;
    }
    var input := FillRows(inputNames, inputWidth);
    SameBlank(input, inputNames, inputWidth);
    var inputFound, inputBox := GetBounds(input, inputWidth);
    if !inputFound {
      return false;
    }
    if recipeWidth == 0 {
      return false;
    }
    var recipe := FillRows(recipeNames, recipeWidth);
    SameBlank(recipe, recipeNames, recipeWidth);
    var recipeFound, recipeBox := GetBounds(recipe, recipeWidth);
    if !recipeFound {
      return false;
    }
    if AcceptsBoxes(defs, inputNames, inputWidth, recipeNames, recipeWidth) {
      SameCellsSameVerdict(defs, inputNames, input, inputWidth, recipeNames, recipe, recipeWidth);
      BoxesMatchUnique(defs, input, inputWidth, recipe, recipeWidth, inputBox, recipeBox);
    }
    SameSize(recipeBox, inputBox);
    if inputBox.maxX - inputBox.minX != recipeBox.maxX - recipeBox.minX
       || inputBox.maxY - inputBox.minY != recipeBox.maxY - recipeBox.minY {
      return false;
    }
    var dx, dy := inputBox.minX - recipeBox.minX, inputBox.minY - recipeBox.minY;
    ok := CompareBoxes(defs, input, inputWidth, recipe, recipeWidth, inputBox, recipeBox, dx, dy);
    if ok {
      BoxesMatchAccepts(defs, input, inputWidth, recipe, recipeWidth, recipeBox, dx, dy);
      SameCellsSameVerdict(defs, input, inputNames, inputWidth, recipe, recipeNames, recipeWidth);
    }
  }

  lemma BoxesMatchAccepts(defs: ItemDefs, input: seq<string>, inputWidth: nat, recipe: seq<string>, recipeWidth: nat,
                          box: Box, dx: int, dy: int)
    requires BoxesMatch(defs, input, inputWidth, recipe, recipeWidth, box, dx, dy)
    ensures AcceptsBoxes(defs, input, inputWidth, recipe, recipeWidth)
  {
  }
}
