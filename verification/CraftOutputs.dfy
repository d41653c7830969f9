/** The index of craft definitions by the name of their output: under every name the definitions
    with that output, in the order in which they were registered, whatever has been cleared
    since by output or by input. */
module CraftOutputs {
  import opened Recipes
  import opened CraftIndex

  type OutputIndex = map<string, seq<CraftDefinition>>

  /** The name of what a definition produces from no input, which is no name for a repair. */
  function OutputName(defs: ItemDefs, recipe: Recipe): string {
    match recipe
    case ShapedRecipe(output, _, _) => defs.nameOf(output)
    case ShapelessRecipe(output, _) => defs.nameOf(output)
    case ToolRepair(_) => defs.nameOf("")
    case CookingRecipe(output, _) => defs.nameOf(output)
    case FuelRecipe(_) => defs.nameOf("")
  }

  function ListedUnder(index: OutputIndex, name: string): seq<CraftDefinition> {
    if name in index then index[name] else []
  }

  /** The definitions with an output, in the order of the list. */
  ghost function Producing(defs: ItemDefs, list: seq<CraftDefinition>, name: string): seq<CraftDefinition> {
    if list == [] then [] else
      var last := list[|list| - 1];
      Producing(defs, list[..|list| - 1], name) + if OutputName(defs, last.recipe) == name then [last] else []
  }

  ghost function NotProducing(defs: ItemDefs, list: seq<CraftDefinition>, name: string): seq<CraftDefinition> {
    if list == [] then [] else
      var last := list[|list| - 1];
      NotProducing(defs, list[..|list| - 1], name) + if OutputName(defs, last.recipe) == name then [] else [last]
  }

  ghost function NotAccepting(defs: ItemDefs, list: seq<CraftDefinition>, input: CraftInput): seq<CraftDefinition> {
    if list == [] then [] else
      var last := list[|list| - 1];
      NotAccepting(defs, list[..|list| - 1], input) + if Accepts(defs, last.recipe, input) then [] else [last]
  }

  /** The last n of a list, the last one first. */
  ghost function Newest(list: seq<CraftDefinition>, n: nat): seq<CraftDefinition>
    requires n <= |list|
  {
    seq(n, i requires 0 <= i < n => list[|list| - 1 - i])
  }

  function WithoutOne(list: seq<CraftDefinition>, def: CraftDefinition): seq<CraftDefinition> {
    if list == [] then [] else
      var last := list[|list| - 1];
      WithoutOne(list[..|list| - 1], def) + if last == def then [] else [last]
  }

  function Without(list: seq<CraftDefinition>, gone: set<CraftDefinition>): seq<CraftDefinition> {
    if list == [] then [] else
      var last := list[|list| - 1];
      Without(list[..|list| - 1], gone) + if last in gone then [] else [last]
  }

  ghost function Members(list: seq<CraftDefinition>): set<CraftDefinition> {
    set def | def in list
  }

  ghost function Accepting(defs: ItemDefs, list: seq<CraftDefinition>, input: CraftInput): set<CraftDefinition> {
    set def | def in list && Accepts(defs, def.recipe, input)
  }

  /** Under every name the index lists the definitions with that output, in order. */
  ghost predicate IndexedByOutput(defs: ItemDefs, index: OutputIndex, list: seq<CraftDefinition>) {
    forall name :: ListedUnder(index, name) == Producing(defs, list, name)
  }

  lemma ProducingSnoc(defs: ItemDefs, list: seq<CraftDefinition>, def: CraftDefinition, name: string)
    ensures Producing(defs, list + [def], name)
         == Producing(defs, list, name) + if OutputName(defs, def.recipe) == name then [def] else []
  {
    assert (list + [def])[..|list|] == list;
  }

  lemma IndexOneMore(defs: ItemDefs, index: OutputIndex, list: seq<CraftDefinition>, def: CraftDefinition)
    requires IndexedByOutput(defs, index, list)
    ensures var name := OutputName(defs, def.recipe);
      IndexedByOutput(defs, index[name := ListedUnder(index, name) + [def]], list + [def])
  {
    hide Producing;
    hide OutputName;
    var output := OutputName(defs, def.recipe);
    var next := index[output := ListedUnder(index, output) + [def]];
    forall name ensures ListedUnder(next, name) == Producing(defs, list + [def], name) {
      ProducingSnoc(defs, list, def, name);
    }
  }

  lemma WithoutSnoc(list: seq<CraftDefinition>, last: CraftDefinition, gone: set<CraftDefinition>)
    ensures Without(list + [last], gone) == Without(list, gone) + if last in gone then [] else [last]
  {
    assert (list + [last])[..|list|] == list;
  }

  lemma WithoutOneSnoc(list: seq<CraftDefinition>, last: CraftDefinition, def: CraftDefinition)
    ensures WithoutOne(list + [last], def) == WithoutOne(list, def) + if last == def then [] else [last]
  {
    assert (list + [last])[..|list|] == list;
  }

  lemma {:induction false} WithoutKeeps(list: seq<CraftDefinition>, gone: set<CraftDefinition>)
    ensures |Without(list, gone)| <= |list|
    ensures forall i :: 0 <= i < |Without(list, gone)| ==>
      Without(list, gone)[i] in list && Without(list, gone)[i] !in gone
  {
    if list != [] {
      var init, last := list[..|list| - 1], list[|list| - 1];
      WithoutKeeps(init, gone);
      assert list == init + [last];
    }
  }

  lemma {:induction false} WithoutNothing(list: seq<CraftDefinition>)
    ensures Without(list, {}) == list
  {
    if list != [] {
      WithoutNothing(list[..|list| - 1]);
    }
  }

  /** Whatever is in the list and gone makes it another list. */
  lemma WithoutFewer(list: seq<CraftDefinition>, gone: set<CraftDefinition>)
    requires gone != {} && gone <= Members(list)
    ensures Without(list, gone) != list
  {
    var def :| def in gone;
    var i :| 0 <= i < |list| && list[i] == def;
    WithoutKeeps(list, gone);
  }

  /** Erasing one definition after the other. */
  lemma {:induction false} WithoutStep(list: seq<CraftDefinition>, gone: set<CraftDefinition>, def: CraftDefinition)
    ensures WithoutOne(Without(list, gone), def) == Without(list, gone + {def})
  {
    if list != [] {
      var init, last := list[..|list| - 1], list[|list| - 1];
      WithoutStep(init, gone, def);
      WithoutOneSnoc(Without(init, gone), last, def);
      assert Without(init, gone) + [] == Without(init, gone);
    }
  }

  lemma WithoutOneMore(list: seq<CraftDefinition>, cleared: seq<CraftDefinition>, i: nat)
    requires i < |cleared|
    ensures WithoutOne(Without(list, Members(cleared[..i])), cleared[i])
         == Without(list, Members(cleared[..i + 1]))
  {
    WithoutStep(list, Members(cleared[..i]), cleared[i]);
    assert cleared[..i + 1] == cleared[..i] + [cleared[i]];
    assert Members(cleared[..i + 1]) == Members(cleared[..i]) + {cleared[i]};
  }

  lemma {:induction false} ProducingAre(defs: ItemDefs, list: seq<CraftDefinition>, name: string)
    ensures forall i :: 0 <= i < |list| ==>
      (list[i] in Producing(defs, list, name) <==> OutputName(defs, list[i].recipe) == name)
    ensures forall i :: 0 <= i < |Producing(defs, list, name)| ==>
      Producing(defs, list, name)[i] in list && OutputName(defs, Producing(defs, list, name)[i].recipe) == name
  {
    hide OutputName;
    if list != [] {
      var init, last := list[..|list| - 1], list[|list| - 1];
      ProducingAre(defs, init, name);
      assert list == init + [last];
    }
  }

  /** An output that no definition has clears nothing. */
  lemma {:induction false} NothingProduced(defs: ItemDefs, list: seq<CraftDefinition>, name: string)
    requires Producing(defs, list, name) == []
    ensures NotProducing(defs, list, name) == list
  {
    hide OutputName;
    if list != [] {
      NothingProduced(defs, list[..|list| - 1], name);
    }
  }

  lemma {:induction false} WithoutMatching(defs: ItemDefs, list: seq<CraftDefinition>, gone: set<CraftDefinition>,
                                           name: string)
    requires forall i :: 0 <= i < |list| ==> (list[i] in gone <==> OutputName(defs, list[i].recipe) == name)
    ensures Without(list, gone) == NotProducing(defs, list, name)
  {
    hide OutputName;
    if list != [] {
      WithoutMatching(defs, list[..|list| - 1], gone, name);
    }
  }

  lemma WithoutProducing(defs: ItemDefs, list: seq<CraftDefinition>, name: string)
    ensures Without(list, Members(Producing(defs, list, name))) == NotProducing(defs, list, name)
  {
    ProducingAre(defs, list, name);
    WithoutMatching(defs, list, Members(Producing(defs, list, name)), name);
  }

  lemma {:induction false} ProducingOthers(defs: ItemDefs, list: seq<CraftDefinition>, output: string, name: string)
    ensures Producing(defs, NotProducing(defs, list, output), name)
         == if name == output then [] else Producing(defs, list, name)
  {
    hide OutputName;
    if list != [] {
      var init, last := list[..|list| - 1], list[|list| - 1];
      ProducingOthers(defs, init, output, name);
      ProducingSnoc(defs, NotProducing(defs, init, output), last, name);
      assert NotProducing(defs, init, output) + [] == NotProducing(defs, init, output);
    }
  }

  /** Forgetting an output in the index forgets its definitions. */
  lemma IndexCleared(defs: ItemDefs, index: OutputIndex, list: seq<CraftDefinition>, output: string)
    requires IndexedByOutput(defs, index, list)
    ensures IndexedByOutput(defs, index - {output}, NotProducing(defs, list, output))
  {
    hide Producing;
    hide NotProducing;
    forall name ensures ListedUnder(index - {output}, name) == Producing(defs, NotProducing(defs, list, output), name) {
      ProducingOthers(defs, list, output, name);
      assert ListedUnder(index, name) == Producing(defs, list, name);
    }
  }

  lemma {:induction false} NotAcceptingIs(defs: ItemDefs, list: seq<CraftDefinition>, input: CraftInput)
    ensures NotAccepting(defs, list, input) == Without(list, Accepting(defs, list, input))
  {
    WithoutAccepting(defs, list, Accepting(defs, list, input), input);
  }

  lemma {:induction false} WithoutAccepting(defs: ItemDefs, list: seq<CraftDefinition>, gone: set<CraftDefinition>,
                                            input: CraftInput)
    requires forall i :: 0 <= i < |list| ==> (list[i] in gone <==> Accepts(defs, list[i].recipe, input))
    ensures Without(list, gone) == NotAccepting(defs, list, input)
  {
    hide Accepts;
    if list != [] {
      WithoutAccepting(defs, list[..|list| - 1], gone, input);
    }
  }

  lemma {:induction false} ProducingWithout(defs: ItemDefs, list: seq<CraftDefinition>, gone: set<CraftDefinition>,
                                            name: string)
    ensures Producing(defs, Without(list, gone), name) == Without(Producing(defs, list, name), gone)
  {
    hide OutputName;
    if list != [] {
      var init, last := list[..|list| - 1], list[|list| - 1];
      ProducingWithout(defs, init, gone, name);
      ProducingSnoc(defs, Without(init, gone), last, name);
      WithoutSnoc(Producing(defs, init, name), last, gone);
      assert Without(init, gone) + [] == Without(init, gone);
      assert Producing(defs, init, name) + [] == Producing(defs, init, name);
    }
  }

  /** An index whose lists have lost some definitions. */
  function Erased(index: OutputIndex, gone: set<CraftDefinition>): OutputIndex {
    map name | name in index :: Without(index[name], gone)
  }

  lemma IndexErased(defs: ItemDefs, index: OutputIndex, list: seq<CraftDefinition>, gone: set<CraftDefinition>)
    requires IndexedByOutput(defs, index, list)
    ensures IndexedByOutput(defs, Erased(index, gone), Without(list, gone))
  {
    hide Producing;
    forall name ensures ListedUnder(Erased(index, gone), name) == Producing(defs, Without(list, gone), name) {
      ProducingWithout(defs, list, gone, name);
      assert ListedUnder(index, name) == Producing(defs, list, name);
    }
  }

  /** Takes definitions out of every list of the index, one list after the other. */
  method EraseFromIndex(index: OutputIndex, gone: set<CraftDefinition>) returns (erased: OutputIndex)
    ensures erased == Erased(index, gone)
  {
    hide Without;
    erased := index;
    var names := index.Keys;
    while names != {}
      invariant names <= index.Keys == erased.Keys
      invariant forall name :: name in index ==>
        erased[name] == if name in names then index[name] else Without(index[name], gone)
      decreases |names|
    {
      var name :| name in names;
      erased := erased[name := Without(erased[name], gone)];
      names := names - {name};
    }
  }
}
