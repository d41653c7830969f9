/** What a shaped recipe says about the contents of an input it accepts: their number, and without
    groups their names.
    A hole that the hand fills shows in the number. */
module ShapedContents {
  import opened Recipes
  import opened Shaped
  import opened Shapeless

  ghost function PositionsOf(names: seq<string>, name: string): set<nat> {
    set i: nat | i < |names| && names[i] == name
  }

  ghost function FilledPositions(names: seq<string>): set<nat> {
    set i: nat | i < |names| && names[i] != ""
  }

  lemma {:induction false} CountPositions(names: seq<string>, name: string)
    ensures multiset(names)[name] == |PositionsOf(names, name)|
  {
    if names != [] {
      var n := |names| - 1;
      var init := names[..n];
      CountPositions(init, name);
      assert names == init + [names[n]];
      if names[n] == name {
        assert PositionsOf(names, name) == PositionsOf(init, name) + {n};
      } else {
        assert PositionsOf(names, name) == PositionsOf(init, name);
      }
    }
  }

  lemma FilledSnoc(init: seq<string>, name: string)
    ensures FilledPositions(init + [name]) == FilledPositions(init) + if name == "" then {} else {|init|}
    ensures |FilledPositions(init + [name])| == |FilledPositions(init)| + if name == "" then 0 else 1
  {
    assert |init| !in FilledPositions(init);
  }

  lemma {:induction false} CountFilled(names: seq<string>)
    ensures |NonEmpty(names)| == |FilledPositions(names)|
  {
    if names != [] {
      var n := |names| - 1;
      CountFilled(names[..n]);
      NonEmptyAppend(names[..n], names[n]);
      FilledSnoc(names[..n], names[n]);
      assert names == names[..n] + [names[n]];
      hide *;
    }
  }

  /** Position i of one grid lies over position j of another. */
  ghost predicate LiesOver(wa: nat, i: nat, wb: nat, j: nat, dx: int, dy: int) {
    wa > 0 && wb > 0 && Col(wb, j) == Col(wa, i) + dx && Row(wb, j) == Row(wa, i) + dy
  }

  /** At most one position of a grid lies over a given position. */
  lemma LiesOverInjective(wa: nat, i: nat, i': nat, wb: nat, j: nat, dx: int, dy: int)
    requires LiesOver(wa, i, wb, j, dx, dy) && LiesOver(wa, i', wb, j, dx, dy)
    ensures i == i'
  {
    RowColumn(wa, i);
    RowColumn(wa, i');
  }

  lemma OverFilled(names: seq<string>, width: nat, x: int, y: int) returns (j: nat)
    requires Filled(names, width, x, y)
    ensures width > 0 && j < |names| && Col(width, j) == x && Row(width, j) == y && names[j] == Cell(names, width, x, y)
  {
    j := Index(width, x, y);
    RowColumnOf(width, x, y);
  }

  /** If every position of s lies under a position of t, then t has at least as many. */
  lemma {:induction false} UnderneathBound(wa: nat, s: set<nat>, wb: nat, t: set<nat>, dx: int, dy: int)
    requires forall i <- s :: exists j :: j in t && LiesOver(wa, i, wb, j, dx, dy)
    ensures |s| <= |t|
  {
    hide LiesOver;
    if s != {} {
      var i :| i in s;
      var j :| j in t && LiesOver(wa, i, wb, j, dx, dy);
      forall i' | i' in s - {i} ensures exists j' :: j' in t - {j} && LiesOver(wa, i', wb, j', dx, dy) {
        var j' :| j' in t && LiesOver(wa, i', wb, j', dx, dy);
        if j' == j { LiesOverInjective(wa, i, i', wb, j, dx, dy); }
      }
      UnderneathBound(wa, s - {i}, wb, t - {j}, dx, dy);
    }
  }

  ghost predicate CellsCarryOver(a: seq<string>, wa: nat, b: seq<string>, wb: nat, dx: int, dy: int) {
    forall x, y :: Filled(a, wa, x, y) ==> Filled(b, wb, x + dx, y + dy)
  }

  ghost predicate NamesCarryOver(a: seq<string>, wa: nat, b: seq<string>, wb: nat, dx: int, dy: int) {
    forall x, y :: Filled(a, wa, x, y) ==> Cell(b, wb, x + dx, y + dy) == Cell(a, wa, x, y)
  }

  lemma FilledBound(a: seq<string>, wa: nat, b: seq<string>, wb: nat, dx: int, dy: int)
    requires wa > 0 && CellsCarryOver(a, wa, b, wb, dx, dy)
    ensures |NonEmpty(a)| <= |NonEmpty(b)|
  {
    forall i | i in FilledPositions(a) ensures exists j :: j in FilledPositions(b) && LiesOver(wa, i, wb, j, dx, dy) {
      assert Filled(a, wa, Col(wa, i), Row(wa, i));
      var j := OverFilled(b, wb, Col(wa, i) + dx, Row(wa, i) + dy);
      assert j in FilledPositions(b) && LiesOver(wa, i, wb, j, dx, dy);
    }
    UnderneathBound(wa, FilledPositions(a), wb, FilledPositions(b), dx, dy);
    CountFilled(a);
    CountFilled(b);
  }

  /** If moreover one of b's filled cells lies over none of a's, then b has more. */
  lemma FilledMore(a: seq<string>, wa: nat, b: seq<string>, wb: nat, dx: int, dy: int, x: int, y: int)
    requires wa > 0 && CellsCarryOver(a, wa, b, wb, dx, dy)
    requires Filled(b, wb, x, y) && !Filled(a, wa, x - dx, y - dy)
    ensures |NonEmpty(a)| < |NonEmpty(b)|
  {
    var j0 := OverFilled(b, wb, x, y);
    forall i | i in FilledPositions(a)
      ensures exists j :: j in FilledPositions(b) - {j0} && LiesOver(wa, i, wb, j, dx, dy)
    {
      RowColumn(wa, i);
      assert Filled(a, wa, Col(wa, i), Row(wa, i));
      var j := OverFilled(b, wb, Col(wa, i) + dx, Row(wa, i) + dy);
      assert j in FilledPositions(b) - {j0} && LiesOver(wa, i, wb, j, dx, dy);
    }
    UnderneathBound(wa, FilledPositions(a), wb, FilledPositions(b) - {j0}, dx, dy);
    assert j0 in FilledPositions(b);
    CountFilled(a);
    CountFilled(b);
  }

  /** What the code accepts has at most as many items as the recipe, and as many exactly if it
      has no hole: if the recipe is translated onto it. */
  lemma CountTellsHoles(defs: ItemDefs, input: seq<string>, inputWidth: nat, recipe: seq<string>, recipeWidth: nat)
    requires AcceptsBoxes(defs, input, inputWidth, recipe, recipeWidth)
    ensures |NonEmpty(input)| <= |NonEmpty(recipe)|
    ensures |NonEmpty(input)| == |NonEmpty(recipe)| <==> AcceptsShape(defs, input, inputWidth, recipe, recipeWidth)
  {
    hide Cell;
    hide Matches;
    hide Filled;
    hide Bounds;
    hide Translates;
    var box, dx, dy :| BoxesMatch(defs, input, inputWidth, recipe, recipeWidth, box, dx, dy);
    BoxedCells(defs, input, inputWidth, recipe, recipeWidth, box, dx, dy);
    FilledBound(input, inputWidth, recipe, recipeWidth, 0 - dx, 0 - dy);
    if forall x, y :: Filled(recipe, recipeWidth, x, y) ==> Filled(input, inputWidth, x + dx, y + dy) {
      NoHoleTranslates(defs, input, inputWidth, recipe, recipeWidth, box, dx, dy);
      AcceptedCount(defs, input, inputWidth, recipe, recipeWidth);
    } else {
      var x, y :| Filled(recipe, recipeWidth, x, y) && !Filled(input, inputWidth, x + dx, y + dy);
      FilledMore(input, inputWidth, recipe, recipeWidth, 0 - dx, 0 - dy, x, y);
      if AcceptsShape(defs, input, inputWidth, recipe, recipeWidth) {
        AcceptedCount(defs, input, inputWidth, recipe, recipeWidth);
      }
    }
  }

  /** Under matching boxes every item of the input lies under an item of the recipe. */
  lemma BoxedCells(defs: ItemDefs, input: seq<string>, inputWidth: nat, recipe: seq<string>, recipeWidth: nat,
                   box: Box, dx: int, dy: int)
    requires BoxesMatch(defs, input, inputWidth, recipe, recipeWidth, box, dx, dy)
    ensures inputWidth > 0 && recipeWidth > 0 && !Blank(recipe, recipeWidth)
    ensures CellsCarryOver(input, inputWidth, recipe, recipeWidth, 0 - dx, 0 - dy)
  {
    var y0 :| Filled(recipe, recipeWidth, box.minX, y0);
    var y1 :| Filled(input, inputWidth, box.Shift(dx, dy).minX, y1);
    forall x, y | Filled(input, inputWidth, x, y) ensures Filled(recipe, recipeWidth, x + (0 - dx), y + (0 - dy)) {
      assert box.Has(x - dx, y - dy);
      assert Matches(defs, Cell(input, inputWidth, (x - dx) + dx, (y - dy) + dy),
                     Cell(recipe, recipeWidth, x - dx, y - dy));
      PlainSlot(defs, Cell(input, inputWidth, x, y), "");
    }
  }

  lemma NoHoleTranslates(defs: ItemDefs, input: seq<string>, inputWidth: nat, recipe: seq<string>, recipeWidth: nat,
                         box: Box, dx: int, dy: int)
    requires BoxesMatch(defs, input, inputWidth, recipe, recipeWidth, box, dx, dy)
    requires forall x, y :: Filled(recipe, recipeWidth, x, y) ==> Filled(input, inputWidth, x + dx, y + dy)
    ensures AcceptsShape(defs, input, inputWidth, recipe, recipeWidth)
  {
    BoxedCells(defs, input, inputWidth, recipe, recipeWidth, box, dx, dy);
    hide Cell;
    hide Matches;
    hide Filled;
    forall x, y | Filled(input, inputWidth, x + dx, y + dy) ensures Filled(recipe, recipeWidth, x, y) {
      assert Filled(recipe, recipeWidth, (x + dx) + (0 - dx), (y + dy) + (0 - dy));
    }
    assert Translates(defs, input, inputWidth, recipe, recipeWidth, dx, dy);
  }

  lemma NameBound(a: seq<string>, wa: nat, b: seq<string>, wb: nat, dx: int, dy: int, name: string)
    requires wa > 0 && NamesCarryOver(a, wa, b, wb, dx, dy) && name != ""
    ensures multiset(a)[name] <= multiset(b)[name]
  {
    forall i | i in PositionsOf(a, name)
      ensures exists j :: j in PositionsOf(b, name) && LiesOver(wa, i, wb, j, dx, dy)
    {
      assert Filled(a, wa, Col(wa, i), Row(wa, i));
      var j := OverFilled(b, wb, Col(wa, i) + dx, Row(wa, i) + dy);
      assert j in PositionsOf(b, name) && LiesOver(wa, i, wb, j, dx, dy);
    }
    UnderneathBound(wa, PositionsOf(a, name), wb, PositionsOf(b, name), dx, dy);
    CountPositions(a, name);
    CountPositions(b, name);
  }

  /** A shaped recipe, the hand being in no group, has as many items as what it accepts. */
  lemma AcceptedCount(defs: ItemDefs, input: seq<string>, inputWidth: nat, recipe: seq<string>, recipeWidth: nat)
    requires AcceptsShape(defs, input, inputWidth, recipe, recipeWidth)
    ensures |NonEmpty(input)| == |NonEmpty(recipe)|
  {
    hide Cell;
    hide Matches;
    hide Filled;
    var dx, dy :| Translates(defs, input, inputWidth, recipe, recipeWidth, dx, dy);
    TranslationInverse(defs, input, inputWidth, recipe, recipeWidth, dx, dy);
    FilledBound(recipe, recipeWidth, input, inputWidth, dx, dy);
    FilledBound(input, inputWidth, recipe, recipeWidth, 0 - dx, 0 - dy);
  }

  lemma TranslationInverse(defs: ItemDefs, input: seq<string>, inputWidth: nat, recipe: seq<string>, recipeWidth: nat,
                           dx: int, dy: int)
    requires Translates(defs, input, inputWidth, recipe, recipeWidth, dx, dy) && !Blank(recipe, recipeWidth)
    ensures inputWidth > 0 && recipeWidth > 0
    ensures CellsCarryOver(recipe, recipeWidth, input, inputWidth, dx, dy)
    ensures CellsCarryOver(input, inputWidth, recipe, recipeWidth, 0 - dx, 0 - dy)
  {
    var x0, y0 :| Filled(recipe, recipeWidth, x0, y0);
    assert Filled(input, inputWidth, x0 + dx, y0 + dy);
    forall x, y | Filled(input, inputWidth, x, y) ensures Filled(recipe, recipeWidth, x + (0 - dx), y + (0 - dy)) {
      assert Filled(recipe, recipeWidth, x - dx, y - dy) <==> Filled(input, inputWidth, (x - dx) + dx, (y - dy) + dy);
    }
  }

  lemma CellIsName(names: seq<string>, width: nat, x: int, y: int)
    ensures Cell(names, width, x, y) == "" || Cell(names, width, x, y) in names
  {
  }

  /** A shaped recipe without groups consists of exactly the names of what it accepts. */
  lemma AcceptedNames(defs: ItemDefs, input: seq<string>, inputWidth: nat, recipe: seq<string>, recipeWidth: nat)
    requires AcceptsBoxes(defs, input, inputWidth, recipe, recipeWidth)
    requires !HasGroup(recipe)
    ensures multiset(input)["" := 0] == multiset(recipe)["" := 0]
  {
    hide BoxesMatch;
    hide HasGroup;
    var box, dx, dy :| BoxesMatch(defs, input, inputWidth, recipe, recipeWidth, box, dx, dy);
    BoxedNames(defs, input, inputWidth, recipe, recipeWidth, box, dx, dy);
    SameNames(input, inputWidth, recipe, recipeWidth, dx, dy);
  }

  lemma SameNames(input: seq<string>, inputWidth: nat, recipe: seq<string>, recipeWidth: nat, dx: int, dy: int)
    requires inputWidth > 0 && recipeWidth > 0
    requires NamesCarryOver(recipe, recipeWidth, input, inputWidth, dx, dy)
    requires NamesCarryOver(input, inputWidth, recipe, recipeWidth, 0 - dx, 0 - dy)
    ensures multiset(input)["" := 0] == multiset(recipe)["" := 0]
  {
    hide *;
    var a, b := multiset(input)["" := 0], multiset(recipe)["" := 0];
    forall name ensures a[name] == b[name] {
      if name != "" {
        NameBound(recipe, recipeWidth, input, inputWidth, dx, dy, name);
        NameBound(input, inputWidth, recipe, recipeWidth, 0 - dx, 0 - dy, name);
      }
    }
  }

  lemma BoxedNames(defs: ItemDefs, input: seq<string>, inputWidth: nat, recipe: seq<string>, recipeWidth: nat,
                   box: Box, dx: int, dy: int)
    requires BoxesMatch(defs, input, inputWidth, recipe, recipeWidth, box, dx, dy)
    requires !HasGroup(recipe)
    ensures inputWidth > 0 && recipeWidth > 0
    ensures NamesCarryOver(recipe, recipeWidth, input, inputWidth, dx, dy)
    ensures NamesCarryOver(input, inputWidth, recipe, recipeWidth, 0 - dx, 0 - dy)
  {
    var y0 :| Filled(recipe, recipeWidth, box.minX, y0);
    var y1 :| Filled(input, inputWidth, box.Shift(dx, dy).minX, y1);
    forall x, y | box.Has(x, y) ensures Cell(input, inputWidth, x + dx, y + dy) == Cell(recipe, recipeWidth, x, y) {
      CellIsName(recipe, recipeWidth, x, y);
      PlainSlot(defs, Cell(input, inputWidth, x + dx, y + dy), Cell(recipe, recipeWidth, x, y));
    }
    hide Cell;
    hide Matches;
    forall x, y | Filled(input, inputWidth, x, y)
      ensures Cell(recipe, recipeWidth, x + (0 - dx), y + (0 - dy)) == Cell(input, inputWidth, x, y)
    {
      assert box.Has(x - dx, y - dy);
      assert Cell(input, inputWidth, (x - dx) + dx, (y - dy) + dy) == Cell(recipe, recipeWidth, x - dx, y - dy);
    }
  }
}
