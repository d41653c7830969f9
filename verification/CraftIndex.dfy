/** Craft definitions, the two hash layers over them, and the choice of the winning recipe. */
module CraftIndex {
  import opened Names
  import opened Recipes
  import Shapeless
  import Shaped
  import ShapedContents
  import Matching = BipartiteMatching

  datatype CraftMethod = Normal | Cooking | Fuel

  /** The hash layers, in the order in which they are tried. */
  datatype HashType = ItemNames | Count | Unhashed

  datatype Stack = Stack(name: string, count: nat, wear: nat)

  datatype CraftInput = CraftInput(craftMethod: CraftMethod, width: nat, items: seq<Stack>)

  datatype Recipe =
    | ShapedRecipe(output: string, width: nat, items: seq<string>)
    | ShapelessRecipe(output: string, items: seq<string>)
    | ToolRepair(wearOffset: int)
    | CookingRecipe(output: string, item: string)
    | FuelRecipe(item: string)

  // Recipe priorities, from low to high
  const NO_RECIPE := 0
  const TOOLREPAIR := 1
  const SHAPELESS_AND_GROUPS := 2
  const SHAPELESS := 3
  const SHAPED_AND_GROUPS := 4
  const SHAPED := 5

  /** Fixed when the definition is constructed, from the item strings as written.  A fuel
      definition looks at a name that is not set yet, so groups do not lower its priority. */
  function Priority(recipe: Recipe): nat {
    match recipe
    case ShapedRecipe(_, _, items) => if HasGroup(items) then SHAPED_AND_GROUPS else SHAPED
    case ShapelessRecipe(_, items) => if HasGroup(items) then SHAPELESS_AND_GROUPS else SHAPELESS
    case ToolRepair(_) => TOOLREPAIR
    case CookingRecipe(_, item) => if IsGroup(item) then SHAPELESS_AND_GROUPS else SHAPELESS
    case FuelRecipe(_) => SHAPELESS
  }

  /** The normalised names of a recipe, as kept once hashes are initialised. */
  function RecipeNames(defs: ItemDefs, recipe: Recipe): seq<string> {
    match recipe
    case ShapedRecipe(_, _, items) => defs.NamesOf(items)
    case ShapelessRecipe(_, items) => Sort(defs.NamesOf(items))
    case ToolRepair(_) => []
    case CookingRecipe(_, item) => [defs.nameOf(item)]
    case FuelRecipe(item) => [defs.nameOf(item)]
  }

  function LayerOf(defs: ItemDefs, recipe: Recipe): HashType {
    if recipe.ToolRepair? || HasGroup(RecipeNames(defs, recipe)) then Count else ItemNames
  }

  // ---------------------------------------------------------------------------
  // Hashes
  // ---------------------------------------------------------------------------

  function JoinLines(names: seq<string>): string {
    if names == [] then ""
    else if |names| == 1 then names[0]
    else names[0] + "\n" + JoinLines(names[1..])
  }

  function HashForGrid(defs: ItemDefs, layer: HashType, names: seq<string>): nat {
    match layer
    case ItemNames => defs.hashOf(JoinLines(Shapeless.NonEmpty(names)))
    case Count => |Shapeless.NonEmpty(names)|
    case Unhashed => 0
  }

  function RecipeHash(defs: ItemDefs, recipe: Recipe, layer: HashType): nat {
    match recipe
    case ShapedRecipe(_, _, _) => HashForGrid(defs, layer, Sort(RecipeNames(defs, recipe)))
    case ShapelessRecipe(_, _) => HashForGrid(defs, layer, RecipeNames(defs, recipe))
    case ToolRepair(_) => 2
    case _ => if layer == ItemNames then defs.hashOf(RecipeNames(defs, recipe)[0]) else 1
  }

  function InputNames(input: CraftInput): (r: seq<string>)
    ensures |r| == |input.items| && forall i :: 0 <= i < |r| ==> r[i] == input.items[i].name
  {
    seq(|input.items|, i requires 0 <= i < |input.items| => input.items[i].name)
  }

  function InputHash(defs: ItemDefs, input: CraftInput, layer: HashType): nat {
    HashForGrid(defs, layer, Sort(InputNames(input)))
  }

  // ---------------------------------------------------------------------------
  // When a recipe applies
  // ---------------------------------------------------------------------------

  function NonEmptyStacks(items: seq<Stack>): (r: seq<Stack>)
    ensures forall s <- r :: s.count != 0
  {
    if items == [] then []
    else if items[0].count == 0 then NonEmptyStacks(items[1..])
    else [items[0]] + NonEmptyStacks(items[1..])
  }

  predicate Repairable(defs: ItemDefs, a: Stack, b: Stack, wearOffset: int) {
    && a.count == 1 && b.count == 1 && a.name == b.name && a.name in defs.tools
    && defs.Rating(a.name, "disable_repair") != 1
    && 0x1_0000 - ((0x1_0000 - a.wear) + (0x1_0000 - b.wear)) + wearOffset < 0x1_0000
  }

  ghost predicate Accepts(defs: ItemDefs, recipe: Recipe, input: CraftInput) {
    var names := InputNames(input);
    var slots := RecipeNames(defs, recipe);
    match recipe
    case ShapedRecipe(_, width, _) =>
      input.craftMethod == Normal && Shaped.AcceptsBoxes(defs, names, input.width, slots, width)
    case ShapelessRecipe(_, _) =>
      && input.craftMethod == Normal && |Shapeless.Groups(slots)| <= Matching.SHAPELESS_GROUPS_MAX
      && Shapeless.Accepts(defs, names, slots)
    case ToolRepair(wearOffset) =>
      var stacks := NonEmptyStacks(input.items);
      input.craftMethod == Normal && |stacks| == 2 && Repairable(defs, stacks[0], stacks[1], wearOffset)
    case CookingRecipe(_, _) =>
      var items := Shapeless.NonEmpty(names);
      input.craftMethod == Cooking && |items| == 1 && Matches(defs, items[0], slots[0])
    case FuelRecipe(_) =>
      var items := Shapeless.NonEmpty(names);
      input.craftMethod == Fuel && |items| == 1 && Matches(defs, items[0], slots[0])
  }

  /** The crafted item exists. */
  predicate OutputKnown(defs: ItemDefs, recipe: Recipe, input: CraftInput) {
    match recipe
    case ShapedRecipe(output, _, _) => defs.Known(defs.nameOf(output))
    case ShapelessRecipe(output, _) => defs.Known(defs.nameOf(output))
    case ToolRepair(_) =>
      var stacks := NonEmptyStacks(input.items);
      stacks != [] && defs.Known(stacks[0].name)
    case CookingRecipe(output, _) => defs.Known(defs.nameOf(output))
    case FuelRecipe(_) => defs.Known(defs.nameOf(""))
  }

  ghost predicate Eligible(defs: ItemDefs, recipe: Recipe, input: CraftInput) {
    Accepts(defs, recipe, input) && OutputKnown(defs, recipe, input)
  }

  method CheckToolRepair(defs: ItemDefs, items: seq<Stack>, wearOffset: int) returns (ok: bool)
    ensures ok <==>
      var stacks := NonEmptyStacks(items);
      |stacks| == 2 && Repairable(defs, stacks[0], stacks[1], wearOffset)
    // Two tools of one repairable kind, whose uses left exceed together what the repair costs
    ensures ok <==>
      var stacks := NonEmptyStacks(items);
      && |stacks| == 2 && stacks[0].name == stacks[1].name && stacks[0].name in defs.tools
      && (forall i :: 0 <= i < 2 ==> stacks[i].count == 1 && defs.Rating(stacks[i].name, "disable_repair") != 1)
      && (0x1_0000 - stacks[0].wear) + (0x1_0000 - stacks[1].wear) > wearOffset
  {
    var none := Stack("", 0, 0);
    var item1, item2 := none, none;
    ghost var stacks := NonEmptyStacks(items);
    for i := 0 to |items|
      invariant var seen := NonEmptyStacks(items[..i]);
        && |seen| <= 2
        && item1 == (if |seen| > 0 then seen[0] else none)
        && item2 == (if |seen| > 1 then seen[1] else none)
      invariant NonEmptyStacks(items[..i]) <= stacks
    {
      NonEmptyStacksPrefix(items, i);
      if items[i].count != 0 {
        if item1.count == 0 {
          item1 := items[i];
        } else if item2.count == 0 {
          item2 := items[i];
        } else {
          return false;
        }
      }
    }
    assert items[..|items|] == items;
    ok := Repairable(defs, item1, item2, wearOffset);
  }

  lemma {:induction false} NonEmptyStacksPrefix(items: seq<Stack>, i: nat)
    requires i < |items|
    ensures NonEmptyStacks(items[..i + 1])
         == NonEmptyStacks(items[..i]) + if items[i].count == 0 then [] else [items[i]]
    ensures NonEmptyStacks(items[..i + 1]) <= NonEmptyStacks(items)
  {
    if i == 0 {
      assert items[..1] == [items[0]];
    } else {
      NonEmptyStacksPrefix(items[1..], i - 1);
      assert items[..i + 1][1..] == items[1..][..i] && items[..i][1..] == items[1..][..i - 1];
    }
  }

  lemma {:induction false} NonEmptyStacksMembers(items: seq<Stack>)
    ensures forall s :: s in NonEmptyStacks(items) <==> s in items && s.count != 0
  {
    if items != [] {
      NonEmptyStacksMembers(items[1..]);
      assert items == [items[0]] + items[1..];
    }
  }

  /** A recipe that accepts an input is passed over exactly if what it makes does not exist: its
      output, or the tool that is repaired. */
  lemma EligibleExactly(defs: ItemDefs, recipe: Recipe, input: CraftInput)
    requires Accepts(defs, recipe, input)
    ensures recipe.ShapedRecipe? || recipe.ShapelessRecipe? || recipe.CookingRecipe? ==>
      (Eligible(defs, recipe, input) <==> defs.Known(defs.nameOf(recipe.output)))
    ensures recipe.ToolRepair? ==>
      (Eligible(defs, recipe, input)
       <==> forall i :: 0 <= i < |input.items| && input.items[i].count != 0 ==> defs.Known(input.items[i].name))
  {
    if recipe.ToolRepair? {
      NonEmptyStacksMembers(input.items);
      var stacks := NonEmptyStacks(input.items);
      assert stacks[0] in input.items;
      forall i | 0 <= i < |input.items| && input.items[i].count != 0 ensures input.items[i].name == stacks[0].name {
        assert input.items[i] in stacks;
      }
    }
  }

  /** Cooking and fuel take a single item. */
  method CheckSingle(defs: ItemDefs, rightMethod: bool, names: seq<string>, slot: string) returns (ok: bool)
    ensures ok <==> var items := Shapeless.NonEmpty(names); rightMethod && |items| == 1 && Matches(defs, items[0], slot)
  {
    if !rightMethod {
      return false;
    }
    var filtered := [];
    for i := 0 to |names|
      invariant filtered == Shapeless.NonEmpty(names[..i])
    {
      Shapeless.NonEmptyAppend(names[..i], names[i]);
      assert names[..i + 1] == names[..i] + [names[i]];
      if names[i] != "" {
        filtered := filtered + [names[i]];
      }
    }
    assert names[..|names|] == names;
    if |filtered| != 1 {
      return false;
    }
    ok := InputItemMatchesRecipe(defs, filtered[0], slot);
  }

  // ---------------------------------------------------------------------------
  // Definitions and the winner among them
  // ---------------------------------------------------------------------------

  /** A registered recipe with the fields that initHash fills in. */
  class CraftDefinition {
    const recipe: Recipe
    var hashInited: bool
    var recipeNames: seq<string>
    var hashType: HashType

    constructor (recipe: Recipe)
      ensures this.recipe == recipe && !hashInited
    {
      this.recipe := recipe;
      hashInited := false;
      recipeNames := [];
      hashType := Unhashed;
    }

    ghost predicate Valid(defs: ItemDefs)
      reads this
    {
      hashInited ==> recipeNames == RecipeNames(defs, recipe) && hashType == LayerOf(defs, recipe)
    }

    method InitHash(defs: ItemDefs)
      requires Valid(defs)
      modifies this
      ensures Valid(defs) && hashInited
    {
      if hashInited {
        return;
      }
      hashInited := true;
      recipeNames := RecipeNames(defs, recipe);
      hashType := if recipe.ToolRepair? || HasGroup(recipeNames) then Count else ItemNames;
    }

    method GetHash(defs: ItemDefs) returns (hash: nat)
      requires Valid(defs) && hashInited
      ensures hash == RecipeHash(defs, recipe, LayerOf(defs, recipe))
    {
      match recipe
      case ShapedRecipe(_, _, _) => hash := HashForGrid(defs, hashType, Sort(recipeNames));
      case ShapelessRecipe(_, _) => hash := HashForGrid(defs, hashType, recipeNames);
      case ToolRepair(_) => hash := 2;
      case _ => hash := if hashType == ItemNames then defs.hashOf(recipeNames[0]) else 1;
    }

    method Check(defs: ItemDefs, input: CraftInput) returns (ok: bool)
      requires Valid(defs)
      ensures ok <==> Accepts(defs, recipe, input)
    {
      var names := InputNames(input);
      var slots := if hashInited then recipeNames else RecipeNames(defs, recipe);
      match recipe
      case ShapedRecipe(_, width, _) =>
        if input.craftMethod != Normal {
          return false;
        }
        ok := Shaped.CheckShaped(defs, names, input.width, slots, width);
      case ShapelessRecipe(_, _) =>
        if input.craftMethod != Normal {
          return false;
        }
        ok := Shapeless.CheckShapeless(defs, names, slots);
      case ToolRepair(wearOffset) =>
        if input.craftMethod != Normal {
          return false;
        }
        ok := CheckToolRepair(defs, input.items, wearOffset);
      case CookingRecipe(_, _) =>
        ok := CheckSingle(defs, input.craftMethod == Cooking, names, slots[0]);
      case FuelRecipe(_) =>
        ok := CheckSingle(defs, input.craftMethod == Fuel, names, slots[0]);
    }
  }

  function PriorityOf(best: CraftDefinition?): nat {
    if best == null then NO_RECIPE else Priority(best.recipe)
  }

  /** The later find replaces the earlier one only with a strictly higher priority. */
  function Better(earlier: CraftDefinition?, later: CraftDefinition?): CraftDefinition? {
    if PriorityOf(later) > PriorityOf(earlier) then later else earlier
  }

  ghost function IfEligible(defs: ItemDefs, def: CraftDefinition, input: CraftInput): CraftDefinition? {
    if Eligible(defs, def.recipe, input) then def else null
  }

  /** Walking a list of definitions from back to front. */
  ghost function Pick(defs: ItemDefs, list: seq<CraftDefinition>, input: CraftInput): CraftDefinition? {
    if list == [] then null
    else
      var n := |list| - 1;
      Better(IfEligible(defs, list[n], input), Pick(defs, list[..n], input))
  }

  /** What Pick means: the definition at position k applies, none has a higher priority, and
      none registered later has the same. */
  ghost predicate Wins(defs: ItemDefs, list: seq<CraftDefinition>, input: CraftInput, k: nat) {
    && k < |list| && Eligible(defs, list[k].recipe, input)
    && (forall j :: 0 <= j < |list| && Eligible(defs, list[j].recipe, input) ==>
          Priority(list[j].recipe) <= Priority(list[k].recipe))
    && (forall j :: k < j < |list| && Eligible(defs, list[j].recipe, input) ==>
          Priority(list[j].recipe) < Priority(list[k].recipe))
  }

  lemma PriorityPositive(recipe: Recipe)
    ensures Priority(recipe) > NO_RECIPE
  {
  }

  lemma {:induction false} PickWins(defs: ItemDefs, list: seq<CraftDefinition>, input: CraftInput) returns (k: nat)
    ensures var best := Pick(defs, list, input);
      if best == null then forall j :: 0 <= j < |list| ==> !Eligible(defs, list[j].recipe, input)
      else Wins(defs, list, input, k) && best == list[k]
  {
    hide Eligible;
    hide Priority;
    k := 0;
    if list != [] {
      var n := |list| - 1;
      var rest := Pick(defs, list[..n], input);
      k := PickWins(defs, list[..n], input);
      PriorityPositive(list[n].recipe);
      if rest != null { PriorityPositive(rest.recipe); }
      if Eligible(defs, list[n].recipe, input) && PriorityOf(rest) <= Priority(list[n].recipe) {
        forall j | 0 <= j < n && Eligible(defs, list[j].recipe, input)
          ensures Priority(list[j].recipe) <= Priority(list[n].recipe)
        {
          assert list[..n][j] == list[j];
        }
        k := n;
      }
    }
  }

  // ---------------------------------------------------------------------------
  // Which kind of recipe goes first
  // ---------------------------------------------------------------------------

  /** The kinds of recipe that a lookup tells apart, by the item strings as written. */
  datatype Kind = PlainShaped | GroupShaped | PlainLoose | GroupLoose | Repair

  function KindOf(recipe: Recipe): Kind {
    match recipe
    case ShapedRecipe(_, _, items) => if HasGroup(items) then GroupShaped else PlainShaped
    case ShapelessRecipe(_, items) => if HasGroup(items) then GroupLoose else PlainLoose
    case CookingRecipe(_, item) => if IsGroup(item) then GroupLoose else PlainLoose
    case FuelRecipe(_) => PlainLoose
    case ToolRepair(_) => Repair
  }

  ghost predicate AppliesAs(defs: ItemDefs, def: CraftDefinition, input: CraftInput, kind: Kind) {
    KindOf(def.recipe) == kind && Eligible(defs, def.recipe, input)
  }

  ghost predicate SomeApplies(defs: ItemDefs, list: seq<CraftDefinition>, input: CraftInput, kind: Kind) {
    exists i :: 0 <= i < |list| && AppliesAs(defs, list[i], input, kind)
  }

  ghost predicate LastApplies(defs: ItemDefs, list: seq<CraftDefinition>, input: CraftInput, kind: Kind,
                              def: CraftDefinition?) {
    exists k :: 0 <= k < |list| && list[k] == def && AppliesAs(defs, list[k], input, kind)
                && forall i :: k < i < |list| ==> !AppliesAs(defs, list[i], input, kind)
  }

  /** The last shaped recipe without groups that applies; if there is none, the last shaped one
      with groups; then the last without groups that is not shaped; then the last with groups;
      and a tool repair only if nothing else applies. */
  ghost predicate Chosen(defs: ItemDefs, list: seq<CraftDefinition>, input: CraftInput, def: CraftDefinition?) {
    if SomeApplies(defs, list, input, PlainShaped) then LastApplies(defs, list, input, PlainShaped, def)
    else if SomeApplies(defs, list, input, GroupShaped) then LastApplies(defs, list, input, GroupShaped, def)
    else if SomeApplies(defs, list, input, PlainLoose) then LastApplies(defs, list, input, PlainLoose, def)
    else if SomeApplies(defs, list, input, GroupLoose) then LastApplies(defs, list, input, GroupLoose, def)
    else if SomeApplies(defs, list, input, Repair) then LastApplies(defs, list, input, Repair, def)
    else def == null
  }

  /** The numbers given to the priorities put the kinds in that order. */
  lemma KindsByPriority(a: Recipe, b: Recipe)
    ensures Priority(a) == Priority(b) <==> KindOf(a) == KindOf(b)
    ensures Priority(a) <= Priority(b) ==>
      match KindOf(b)
      case PlainShaped => true
      case GroupShaped => KindOf(a) !in {PlainShaped}
      case PlainLoose => KindOf(a) !in {PlainShaped, GroupShaped}
      case GroupLoose => KindOf(a) !in {PlainShaped, GroupShaped, PlainLoose}
      case Repair => KindOf(a) == Repair
  {
  }

  /** A lookup chooses by kind first, and the definition registered last within the kind. */
  lemma PickOrder(defs: ItemDefs, list: seq<CraftDefinition>, input: CraftInput)
    ensures Chosen(defs, list, input, Pick(defs, list, input))
  {
    hide Eligible;
    hide Pick;
    hide Priority;
    hide KindOf;
    var best := Pick(defs, list, input);
    var k := PickWins(defs, list, input);
    if best != null {
      forall i | 0 <= i < |list| { KindsByPriority(list[i].recipe, best.recipe); }
      assert AppliesAs(defs, list[k], input, KindOf(best.recipe));
      assert LastApplies(defs, list, input, KindOf(best.recipe), best);
    }
  }

  /** A list walked after another one is as good as one put before it. */
  lemma {:induction false} PickConcat(defs: ItemDefs, a: seq<CraftDefinition>, b: seq<CraftDefinition>,
                                      input: CraftInput)
    ensures Pick(defs, a + b, input) == Better(Pick(defs, b, input), Pick(defs, a, input))
  {
    if b == [] {
      assert a + b == a;
      BetterNull(Pick(defs, a, input));
    } else {
      var init, def := b[..|b| - 1], b[|b| - 1];
      assert b == init + [def] && a + b == (a + init) + [def];
      PickConcat(defs, a, init, input);
      PickSnoc(defs, a + init, def, input);
      BetterAssociates(IfEligible(defs, def, input), Pick(defs, init, input), Pick(defs, a, input));
    }
  }

  // ---------------------------------------------------------------------------
  // Accepting an input implies having its hash
  // ---------------------------------------------------------------------------

  /** Stacks are cleared when their count reaches zero, and only then have no name. */
  ghost predicate ProperStacks(input: CraftInput) {
    forall i :: 0 <= i < |input.items| ==> (input.items[i].count == 0 <==> input.items[i].name == "")
  }

  lemma {:induction false} NonEmptyContents(s: seq<string>)
    ensures multiset(Shapeless.NonEmpty(s)) == multiset(s)["" := 0]
  {
    if s != [] {
      NonEmptyContents(s[1..]);
      TailContents(s);
    }
  }

  lemma {:induction false} NonEmptySorted(s: seq<string>)
    requires IsSorted(s)
    ensures IsSorted(Shapeless.NonEmpty(s))
  {
    hide Le;
    if s != [] {
      NonEmptySorted(s[1..]);
      NonEmptyContents(s[1..]);
      forall x | x in Shapeless.NonEmpty(s[1..]) ensures Le(s[0], x) {
        assert x in multiset(Shapeless.NonEmpty(s[1..]));
        assert x in multiset(s[1..]);
      }
    }
  }

  /** Lists with the same non-empty names have the same hash once sorted. */
  lemma SameHash(defs: ItemDefs, a: seq<string>, b: seq<string>, layer: HashType)
    requires multiset(Shapeless.NonEmpty(a)) == multiset(Shapeless.NonEmpty(b))
    ensures HashForGrid(defs, layer, Sort(a)) == HashForGrid(defs, layer, Sort(b))
    ensures IsSorted(b) ==> HashForGrid(defs, layer, Sort(a)) == HashForGrid(defs, layer, b)
  {
    NonEmptyContents(a);
    NonEmptyContents(b);
    NonEmptyContents(Sort(a));
    NonEmptyContents(Sort(b));
    NonEmptySorted(Sort(a));
    NonEmptySorted(Sort(b));
    SortedUnique(Shapeless.NonEmpty(Sort(a)), Shapeless.NonEmpty(Sort(b)));
    if IsSorted(b) {
      SortedUnique(Sort(b), b);
    }
  }

  lemma SortedCount(defs: ItemDefs, a: seq<string>)
    ensures HashForGrid(defs, Count, Sort(a)) == HashForGrid(defs, Count, a) == |Shapeless.NonEmpty(a)|
  {
    NonEmptyContents(a);
    NonEmptyContents(Sort(a));
    SameSize(Shapeless.NonEmpty(Sort(a)), Shapeless.NonEmpty(a));
  }

  lemma SameCount(defs: ItemDefs, a: seq<string>, b: seq<string>)
    requires |Shapeless.NonEmpty(a)| == |Shapeless.NonEmpty(b)|
    ensures HashForGrid(defs, Count, Sort(a)) == HashForGrid(defs, Count, Sort(b)) == HashForGrid(defs, Count, b)
  {
    SortedCount(defs, a);
    SortedCount(defs, b);
  }

  lemma SameSize(a: seq<string>, b: seq<string>)
    requires multiset(a) == multiset(b)
    ensures |a| == |b|
  {
    assert |multiset(a)| == |multiset(b)|;
  }

  /** No slot of a shaped recipe with groups lies over an empty cell, as it may if the hand is
      in a group. */
  ghost predicate NoHole(defs: ItemDefs, recipe: Recipe, input: CraftInput) {
    var slots := RecipeNames(defs, recipe);
    recipe.ShapedRecipe? && HasGroup(slots) ==>
      Shaped.AcceptsShape(defs, InputNames(input), input.width, slots, recipe.width)
  }

  lemma NoHoleByName(defs: ItemDefs, recipe: Recipe, input: CraftInput)
    ensures LayerOf(defs, recipe) == ItemNames ==> NoHole(defs, recipe, input)
  {
    hide RecipeNames;
    hide Shaped.AcceptsShape;
  }

  /** With the hand in no group there never is a hole. */
  lemma HandLeavesNoHole(defs: ItemDefs, recipe: Recipe, input: CraftInput)
    requires Accepts(defs, recipe, input) && Shaped.HandInNoGroup(defs)
    ensures NoHole(defs, recipe, input)
  {
    if recipe.ShapedRecipe? {
      Shaped.BoxesAreTranslations(defs, InputNames(input), input.width, RecipeNames(defs, recipe), recipe.width);
    }
  }

  /** A shaped recipe has the hash of what it accepts exactly if that has no hole. */
  lemma ShapedHash(defs: ItemDefs, recipe: Recipe, input: CraftInput)
    requires recipe.ShapedRecipe? && Accepts(defs, recipe, input)
    ensures RecipeHash(defs, recipe, LayerOf(defs, recipe)) == InputHash(defs, input, LayerOf(defs, recipe))
       <==> NoHole(defs, recipe, input)
  {
    var names, slots := InputNames(input), RecipeNames(defs, recipe);
    if HasGroup(slots) {
      ShapedContents.CountTellsHoles(defs, names, input.width, slots, recipe.width);
      hide *;
      SortedCount(defs, names);
      SortedCount(defs, slots);
    } else {
      ShapedContents.AcceptedNames(defs, names, input.width, slots, recipe.width);
      NonEmptyContents(names);
      NonEmptyContents(slots);
      hide *;
      SameHash(defs, names, slots, ItemNames);
    }
  }

  lemma {:induction false} NonEmptyOfFull(s: seq<string>)
    requires "" !in s
    ensures Shapeless.NonEmpty(s) == s
  {
    if s != [] {
      NonEmptyOfFull(s[1..]);
      assert s == [s[0]] + s[1..];
    }
  }

  /** The slots of an assignment are not empty, and without groups they are the items. */
  lemma AssignedSlots(defs: ItemDefs, items: seq<string>, slots: seq<string>)
    requires Assignable(defs, items, slots) && "" !in items
    ensures "" !in slots && |items| == |slots|
    ensures !HasGroup(slots) ==> multiset(items) == multiset(slots)
  {
    var p :| Assignment(defs, items, slots, p);
    var r := Reordered(slots, p);
    ReorderedSameContents(slots, p);
    forall i | 0 <= i < |r| ensures r[i] != "" && (IsGroup(r[i]) || r[i] == items[i]) {
      assert items[i] in items;
      if !IsGroup(r[i]) { PlainSlot(defs, items[i], r[i]); }
    }
    assert "" !in multiset(r);
    if !HasGroup(slots) {
      assert r == items;
    }
  }

  lemma ShapelessHash(defs: ItemDefs, recipe: Recipe, input: CraftInput)
    requires recipe.ShapelessRecipe? && Accepts(defs, recipe, input)
    ensures RecipeHash(defs, recipe, LayerOf(defs, recipe)) == InputHash(defs, input, LayerOf(defs, recipe))
  {
    var names, slots := InputNames(input), RecipeNames(defs, recipe);
    var items := Shapeless.NonEmpty(names);
    AssignedSlots(defs, items, slots);
    NonEmptyOfFull(slots);
    if HasGroup(slots) {
      SameCount(defs, names, slots);
    } else {
      SameHash(defs, names, slots, ItemNames);
    }
  }

  /** Cooking and fuel recipes: a single non-empty name. */
  lemma SingleHash(defs: ItemDefs, recipe: Recipe, input: CraftInput)
    requires (recipe.CookingRecipe? || recipe.FuelRecipe?) && Accepts(defs, recipe, input)
    ensures RecipeHash(defs, recipe, LayerOf(defs, recipe)) == InputHash(defs, input, LayerOf(defs, recipe))
  {
    var names, slots := InputNames(input), RecipeNames(defs, recipe);
    var items := Shapeless.NonEmpty(names);
    assert items[0] in items;
    if HasGroup(slots) {
      SameCount(defs, names, items);
      NonEmptyOfFull(items);
    } else {
      PlainSlot(defs, items[0], slots[0]);
      NonEmptyOfFull(items);
      SameHash(defs, names, items, ItemNames);
      assert JoinLines(items) == slots[0];
    }
  }

  lemma {:induction false} ProperStacksCount(items: seq<Stack>)
    requires forall s <- items :: s.count == 0 <==> s.name == ""
    ensures |NonEmptyStacks(items)| == |Shapeless.NonEmpty(InputNames(CraftInput(Normal, 0, items)))|
  {
    var names := InputNames(CraftInput(Normal, 0, items));
    if items != [] {
      ProperStacksCount(items[1..]);
      assert names[1..] == InputNames(CraftInput(Normal, 0, items[1..]));
      assert items[0] in items;
    }
  }

  lemma ToolRepairHash(defs: ItemDefs, recipe: Recipe, input: CraftInput)
    requires recipe.ToolRepair? && Accepts(defs, recipe, input) && ProperStacks(input)
    ensures RecipeHash(defs, recipe, LayerOf(defs, recipe)) == InputHash(defs, input, LayerOf(defs, recipe))
  {
    ProperStacksCount(input.items);
    var names := InputNames(input);
    assert names == InputNames(CraftInput(Normal, 0, input.items));
    SameCount(defs, names, names);
  }

  /** Whatever accepts an input has the hash of the input, in its own layer, exactly if there is
      no hole. */
  lemma AcceptedHash(defs: ItemDefs, recipe: Recipe, input: CraftInput)
    requires Accepts(defs, recipe, input) && ProperStacks(input)
    ensures RecipeHash(defs, recipe, LayerOf(defs, recipe)) == InputHash(defs, input, LayerOf(defs, recipe))
       <==> NoHole(defs, recipe, input)
  {
    OnlyShapedHasHoles(defs, recipe, input);
    hide *;
    match recipe
    case ShapedRecipe(_, _, _) => ShapedHash(defs, recipe, input);
    case ShapelessRecipe(_, _) => ShapelessHash(defs, recipe, input);
    case ToolRepair(_) => ToolRepairHash(defs, recipe, input);
    case _ => SingleHash(defs, recipe, input);
  }

  lemma OnlyShapedHasHoles(defs: ItemDefs, recipe: Recipe, input: CraftInput)
    ensures !recipe.ShapedRecipe? ==> NoHole(defs, recipe, input)
  {
  }

  // ---------------------------------------------------------------------------
  // The index finds what the scan finds
  // ---------------------------------------------------------------------------

  /** The definitions of one hash bucket, in the order of the list. */
  function Bucket(defs: ItemDefs, list: seq<CraftDefinition>, layer: HashType, hash: nat): seq<CraftDefinition> {
    if list == [] then []
    else
      var n := |list| - 1;
      var rest := Bucket(defs, list[..n], layer, hash);
      var recipe := list[n].recipe;
      if LayerOf(defs, recipe) == layer && RecipeHash(defs, recipe, layer) == hash then rest + [list[n]] else rest
  }

  /** The priority given by the written recipe fits the layer given by the normalised one:
      normalising adds or removes no leading "group:", and no fuel recipe uses a group. */
  predicate PriorityFitsLayer(defs: ItemDefs, recipe: Recipe) {
    Priority(recipe) in (if LayerOf(defs, recipe) == ItemNames then {SHAPELESS, SHAPED}
                         else {TOOLREPAIR, SHAPELESS_AND_GROUPS, SHAPED_AND_GROUPS})
  }

  lemma BetterAssociates(a: CraftDefinition?, b: CraftDefinition?, c: CraftDefinition?)
    ensures Better(Better(a, b), c) == Better(a, Better(b, c))
  {
  }

  lemma HasGroupSameContents(a: seq<string>, b: seq<string>)
    requires multiset(a) == multiset(b)
    ensures HasGroup(a) <==> HasGroup(b)
  {
    hide IsGroup;
    if HasGroup(a) {
      var i :| 0 <= i < |a| && IsGroup(a[i]);
      assert a[i] in multiset(b);
    }
    if HasGroup(b) {
      var i :| 0 <= i < |b| && IsGroup(b[i]);
      assert b[i] in multiset(a);
    }
  }

  /** In terms of the item strings: for all but fuel recipes, some written item is a group
      exactly when some normalised one is; a fuel recipe names no group. */
  lemma PriorityFitsWhen(defs: ItemDefs, recipe: Recipe)
    ensures PriorityFitsLayer(defs, recipe) <==>
      match recipe
      case ShapedRecipe(_, _, items) => HasGroup(items) <==> HasGroup(defs.NamesOf(items))
      case ShapelessRecipe(_, items) => HasGroup(items) <==> HasGroup(defs.NamesOf(items))
      case ToolRepair(_) => true
      case CookingRecipe(_, item) => IsGroup(item) <==> IsGroup(defs.nameOf(item))
      case FuelRecipe(item) => !IsGroup(defs.nameOf(item))
  {
    var names := RecipeNames(defs, recipe);
    if recipe.ShapelessRecipe? {
      HasGroupSameContents(names, defs.NamesOf(recipe.items));
    }
    if recipe.CookingRecipe? || recipe.FuelRecipe? {
      assert HasGroup(names) <==> IsGroup(names[0]);
    }
    hide IsGroup;
  }

  lemma {:induction false} BucketMembers(defs: ItemDefs, list: seq<CraftDefinition>, layer: HashType, hash: nat,
                                         def: CraftDefinition)
    ensures def in Bucket(defs, list, layer, hash)
       <==> def in list && LayerOf(defs, def.recipe) == layer && RecipeHash(defs, def.recipe, layer) == hash
  {
    hide LayerOf;
    hide RecipeHash;
    if list != [] {
      var init := list[..|list| - 1];
      assert list == init + [list[|list| - 1]];
      BucketMembers(defs, init, layer, hash, def);
    }
  }

  lemma PickApplies(defs: ItemDefs, list: seq<CraftDefinition>, input: CraftInput)
    requires Pick(defs, list, input) != null
    ensures Pick(defs, list, input) in list && Eligible(defs, Pick(defs, list, input).recipe, input)
  {
    hide Eligible;
    var k := PickWins(defs, list, input);
  }

  lemma PickAtLeast(defs: ItemDefs, list: seq<CraftDefinition>, def: CraftDefinition, input: CraftInput)
    requires def in list && Eligible(defs, def.recipe, input)
    ensures PriorityOf(Pick(defs, list, input)) >= Priority(def.recipe)
  {
    hide Eligible;
    var k := PickWins(defs, list, input);
    var j :| 0 <= j < |list| && list[j] == def;
  }

  lemma PickSnoc(defs: ItemDefs, list: seq<CraftDefinition>, def: CraftDefinition, input: CraftInput)
    ensures Pick(defs, list + [def], input) == Better(IfEligible(defs, def, input), Pick(defs, list, input))
  {
    assert (list + [def])[..|list|] == list;
  }

  /** The result of trying the two layers one after the other, given the two input hashes. */
  ghost function PickIndexed(defs: ItemDefs, list: seq<CraftDefinition>, input: CraftInput): CraftDefinition? {
    Better(Pick(defs, Bucket(defs, list, ItemNames, InputHash(defs, input, ItemNames)), input),
           Pick(defs, Bucket(defs, list, Count, InputHash(defs, input, Count)), input))
  }

  /** One more definition, registered last, in the bucket of a layer that the input hashes to. */
  lemma BucketSnoc(defs: ItemDefs, list: seq<CraftDefinition>, def: CraftDefinition, layer: HashType, input: CraftInput)
    requires ProperStacks(input)
    ensures var h := InputHash(defs, input, layer);
      Pick(defs, Bucket(defs, list + [def], layer, h), input) ==
        Better(if LayerOf(defs, def.recipe) == layer && NoHole(defs, def.recipe, input)
               then IfEligible(defs, def, input) else null,
               Pick(defs, Bucket(defs, list, layer, h), input))
  {
    hide NoHole;
    var h := InputHash(defs, input, layer);
    var bucket := Bucket(defs, list, layer, h);
    assert (list + [def])[..|list|] == list;
    PickSnoc(defs, bucket, def, input);
    BetterNull(Pick(defs, bucket, input));
    if Eligible(defs, def.recipe, input) {
      AcceptedHash(defs, def.recipe, input);
    }
  }

  lemma BetterNull(a: CraftDefinition?)
    ensures Better(null, a) == a
  {
    if a != null { PriorityPositive(a.recipe); }
  }

  /** A bucket holds nothing better than the whole list. */
  lemma BucketBound(defs: ItemDefs, list: seq<CraftDefinition>, layer: HashType, input: CraftInput)
    ensures PriorityOf(Pick(defs, Bucket(defs, list, layer, InputHash(defs, input, layer)), input))
         <= PriorityOf(Pick(defs, list, input))
  {
    hide *;
    var h := InputHash(defs, input, layer);
    var best := Pick(defs, Bucket(defs, list, layer, h), input);
    PriorityOfBest(best);
    if best != null {
      PickApplies(defs, Bucket(defs, list, layer, h), input);
      BucketMembers(defs, list, layer, h, best);
      PickAtLeast(defs, list, best, input);
    }
  }

  /** The definition a scan chooses is chosen within the bucket the input hashes to exactly if
      it leaves no hole. */
  lemma WinnerInItsBucket(defs: ItemDefs, list: seq<CraftDefinition>, input: CraftInput)
    requires ProperStacks(input) && Pick(defs, list, input) != null
    ensures var best := Pick(defs, list, input);
      var layer := LayerOf(defs, best.recipe);
      (Pick(defs, Bucket(defs, list, layer, InputHash(defs, input, layer)), input) == best
       <==> NoHole(defs, best.recipe, input))
  {
    hide NoHole;
    var best := Pick(defs, list, input);
    var layer := LayerOf(defs, best.recipe);
    if NoHole(defs, best.recipe, input) {
      HolelessWinner(defs, list, input);
    } else {
      hide Pick;
      hide Bucket;
      hide InputHash;
      hide LayerOf;
      hide RecipeHash;
      PickApplies(defs, list, input);
      AcceptedHash(defs, best.recipe, input);
      var h := InputHash(defs, input, layer);
      BucketMembers(defs, list, layer, h, best);
      if Pick(defs, Bucket(defs, list, layer, h), input) != null {
        PickApplies(defs, Bucket(defs, list, layer, h), input);
      }
    }
  }

  lemma {:induction false} HolelessWinner(defs: ItemDefs, list: seq<CraftDefinition>, input: CraftInput)
    requires ProperStacks(input)
    requires Pick(defs, list, input) != null && NoHole(defs, Pick(defs, list, input).recipe, input)
    ensures var best := Pick(defs, list, input);
      var layer := LayerOf(defs, best.recipe);
      Pick(defs, Bucket(defs, list, layer, InputHash(defs, input, layer)), input) == best
  {
    hide NoHole;
    var init, def := list[..|list| - 1], list[|list| - 1];
    assert list == init + [def];
    var best := Pick(defs, list, input);
    var layer := LayerOf(defs, best.recipe);
    PickSnoc(defs, init, def, input);
    hide Pick;
    hide Bucket;
    hide InputHash;
    hide LayerOf;
    hide Eligible;
    PriorityPositive(def.recipe);
    BucketSnoc(defs, init, def, layer, input);
    BucketBound(defs, init, layer, input);
    if best == Pick(defs, init, input) {
      HolelessWinner(defs, init, input);
      PriorityPositive(best.recipe);
    }
    hide Priority;
  }

  /** A definition hashed by its names that applies with the given priority. */
  ghost predicate NamedRival(defs: ItemDefs, list: seq<CraftDefinition>, input: CraftInput, priority: nat) {
    exists def :: def in list && Eligible(defs, def.recipe, input)
      && LayerOf(defs, def.recipe) == ItemNames && Priority(def.recipe) == priority
  }

  lemma RivalInBucket(defs: ItemDefs, list: seq<CraftDefinition>, input: CraftInput)
    requires ProperStacks(input) && Pick(defs, list, input) != null
    ensures var byName := Pick(defs, Bucket(defs, list, ItemNames, InputHash(defs, input, ItemNames)), input);
      var priority := PriorityOf(Pick(defs, list, input));
      && (byName != null ==> LayerOf(defs, byName.recipe) == ItemNames)
      && (NamedRival(defs, list, input, priority) <==> PriorityOf(byName) == priority)
  {
    hide *;
    var h := InputHash(defs, input, ItemNames);
    var bucket := Bucket(defs, list, ItemNames, h);
    var byName := Pick(defs, bucket, input);
    var best := Pick(defs, list, input);
    PriorityOfBest(best);
    PriorityOfBest(byName);
    BucketBound(defs, list, ItemNames, input);
    if byName != null {
      PickApplies(defs, bucket, input);
      BucketMembers(defs, list, ItemNames, h, byName);
      if Priority(byName.recipe) == Priority(best.recipe) {
        RivalExists(defs, list, input, byName);
      }
    }
    if NamedRival(defs, list, input, Priority(best.recipe)) {
      var def := ARival(defs, list, input, Priority(best.recipe));
      BucketMembers(defs, list, ItemNames, h, def);
      PickAtLeast(defs, bucket, def, input);
    }
  }

  lemma PriorityOfBest(best: CraftDefinition?)
    ensures PriorityOf(best) == (if best == null then 0 else Priority(best.recipe))
    ensures best != null ==> Priority(best.recipe) > 0
  {
  }

  lemma RivalExists(defs: ItemDefs, list: seq<CraftDefinition>, input: CraftInput, def: CraftDefinition)
    requires def in list && Eligible(defs, def.recipe, input) && LayerOf(defs, def.recipe) == ItemNames
    ensures NamedRival(defs, list, input, Priority(def.recipe))
  {
  }

  lemma ARival(defs: ItemDefs, list: seq<CraftDefinition>, input: CraftInput, priority: nat)
    returns (def: CraftDefinition)
    requires ProperStacks(input) && NamedRival(defs, list, input, priority)
    ensures def in list && Eligible(defs, def.recipe, input)
    ensures LayerOf(defs, def.recipe) == ItemNames && Priority(def.recipe) == priority
    ensures RecipeHash(defs, def.recipe, ItemNames) == InputHash(defs, input, ItemNames)
  {
    def :| def in list && Eligible(defs, def.recipe, input)
      && LayerOf(defs, def.recipe) == ItemNames && Priority(def.recipe) == priority;
    NoHoleByName(defs, def.recipe, input);
    AcceptedHash(defs, def.recipe, input);
  }

  /** A definition that applies with the given priority and leaves no hole. */
  ghost predicate HolelessRival(defs: ItemDefs, list: seq<CraftDefinition>, input: CraftInput, priority: nat) {
    exists def :: def in list && Eligible(defs, def.recipe, input)
      && NoHole(defs, def.recipe, input) && Priority(def.recipe) == priority
  }

  /** The index finds the highest priority exactly if some definition without holes has it. */
  lemma HolelessFound(defs: ItemDefs, list: seq<CraftDefinition>, input: CraftInput)
    requires ProperStacks(input) && Pick(defs, list, input) != null
    ensures var priority := Priority(Pick(defs, list, input).recipe);
      PriorityOf(PickIndexed(defs, list, input)) == priority <==> HolelessRival(defs, list, input, priority)
  {
    hide *;
    var best, found := Pick(defs, list, input), PickIndexed(defs, list, input);
    PriorityOfBest(best);
    PriorityOfBest(found);
    BucketBound(defs, list, ItemNames, input);
    BucketBound(defs, list, Count, input);
    IndexedPriority(defs, list, input);
    if found != null && Priority(found.recipe) == Priority(best.recipe) {
      IndexedIsHoleless(defs, list, input);
      HolelessRivalIs(defs, list, input, found);
    }
    if HolelessRival(defs, list, input, Priority(best.recipe)) {
      var def := AHolelessRival(defs, list, input, Priority(best.recipe));
      var layer := LayerOf(defs, def.recipe);
      BucketMembers(defs, list, layer, InputHash(defs, input, layer), def);
      PickAtLeast(defs, Bucket(defs, list, layer, InputHash(defs, input, layer)), def, input);
      LayerIsHashed(defs, def.recipe);
    }
  }

  lemma LayerIsHashed(defs: ItemDefs, recipe: Recipe)
    ensures LayerOf(defs, recipe) != Unhashed
  {
  }

  lemma HolelessRivalIs(defs: ItemDefs, list: seq<CraftDefinition>, input: CraftInput, def: CraftDefinition)
    requires def in list && Eligible(defs, def.recipe, input) && NoHole(defs, def.recipe, input)
    ensures HolelessRival(defs, list, input, Priority(def.recipe))
  {
  }

  lemma AHolelessRival(defs: ItemDefs, list: seq<CraftDefinition>, input: CraftInput, priority: nat)
    returns (def: CraftDefinition)
    requires ProperStacks(input) && HolelessRival(defs, list, input, priority)
    ensures def in list && Eligible(defs, def.recipe, input) && Priority(def.recipe) == priority
    ensures var layer := LayerOf(defs, def.recipe); RecipeHash(defs, def.recipe, layer) == InputHash(defs, input, layer)
  {
    hide NoHole;
    def :| def in list && Eligible(defs, def.recipe, input)
      && NoHole(defs, def.recipe, input) && Priority(def.recipe) == priority;
    AcceptedHash(defs, def.recipe, input);
  }

  lemma IndexedPriority(defs: ItemDefs, list: seq<CraftDefinition>, input: CraftInput)
    ensures var byName := Pick(defs, Bucket(defs, list, ItemNames, InputHash(defs, input, ItemNames)), input);
      var byCount := Pick(defs, Bucket(defs, list, Count, InputHash(defs, input, Count)), input);
      PriorityOf(PickIndexed(defs, list, input))
        == if PriorityOf(byCount) > PriorityOf(byName) then PriorityOf(byCount) else PriorityOf(byName)
  {
    hide Pick;
    hide Bucket;
    hide InputHash;
    hide Priority;
  }

  /** What the index finds applies and leaves no hole. */
  lemma IndexedIsHoleless(defs: ItemDefs, list: seq<CraftDefinition>, input: CraftInput)
    requires ProperStacks(input) && PickIndexed(defs, list, input) != null
    ensures var found := PickIndexed(defs, list, input);
      found in list && Eligible(defs, found.recipe, input) && NoHole(defs, found.recipe, input)
  {
    hide NoHole;
    hide OutputKnown;
    hide Accepts;
    hide InputHash;
    hide LayerOf;
    hide RecipeHash;
    hide Bucket;
    hide Pick;
    var found := PickIndexed(defs, list, input);
    var layer := if found == Pick(defs, Bucket(defs, list, ItemNames, InputHash(defs, input, ItemNames)), input)
      then ItemNames else Count;
    var h := InputHash(defs, input, layer);
    PickApplies(defs, Bucket(defs, list, layer, h), input);
    BucketMembers(defs, list, layer, h, found);
    AcceptedHash(defs, found.recipe, input);
  }

  /** The two hash layers never find more than a scan of all definitions.  They find its winner
      exactly if that leaves no hole and is not hashed by its item count while a definition of the
      same priority that is hashed by its names applies as well; and they find the priority of the
      winner exactly if some definition of that priority leaves no hole. */
  lemma IndexVersusScan(defs: ItemDefs, list: seq<CraftDefinition>, input: CraftInput)
    requires ProperStacks(input)
    ensures var best := Pick(defs, list, input);
      var found := PickIndexed(defs, list, input);
      && PriorityOf(found) <= PriorityOf(best)
      && (best == null ==> found == null)
      && (best != null ==>
            && (found == best <==> FoundAgain(defs, list, input, best))
            && (PriorityOf(found) == Priority(best.recipe)
                <==> HolelessRival(defs, list, input, Priority(best.recipe))))
      && (Shaped.HandInNoGroup(defs) ==> PriorityOf(found) == PriorityOf(best))
  {
    hide *;
    var best := Pick(defs, list, input);
    BucketBound(defs, list, ItemNames, input);
    BucketBound(defs, list, Count, input);
    IndexedPriority(defs, list, input);
    PriorityOfBest(PickIndexed(defs, list, input));
    PriorityOfBest(best);
    if best != null {
      HolelessFound(defs, list, input);
      WinnerFoundAgain(defs, list, input);
      if Shaped.HandInNoGroup(defs) {
        PickApplies(defs, list, input);
        EligibleAccepts(defs, best.recipe, input);
        HandLeavesNoHole(defs, best.recipe, input);
        HolelessRivalIs(defs, list, input, best);
      }
    }
  }

  /** When the winner of a scan is also the winner of the two layers. */
  ghost predicate FoundAgain(defs: ItemDefs, list: seq<CraftDefinition>, input: CraftInput, best: CraftDefinition) {
    && NoHole(defs, best.recipe, input)
    && !(LayerOf(defs, best.recipe) == Count && NamedRival(defs, list, input, Priority(best.recipe)))
  }

  lemma WinnerFoundAgain(defs: ItemDefs, list: seq<CraftDefinition>, input: CraftInput)
    requires ProperStacks(input) && Pick(defs, list, input) != null
    ensures var best := Pick(defs, list, input);
      PickIndexed(defs, list, input) == best <==> FoundAgain(defs, list, input, best)
  {
    var best := Pick(defs, list, input);
    var byName := Pick(defs, Bucket(defs, list, ItemNames, InputHash(defs, input, ItemNames)), input);
    var byCount := Pick(defs, Bucket(defs, list, Count, InputHash(defs, input, Count)), input);
    LayerIsHashed(defs, best.recipe);
    if PickIndexed(defs, list, input) != null {
      IndexedIsHoleless(defs, list, input);
    }
    hide Pick;
    hide Bucket;
    hide InputHash;
    hide NamedRival;
    hide NoHole;
    if byName != null { PriorityPositive(byName.recipe); }
    if byCount != null { PriorityPositive(byCount.recipe); }
    PriorityPositive(best.recipe);
    hide Priority;
    BucketBound(defs, list, ItemNames, input);
    BucketBound(defs, list, Count, input);
    WinnerInItsBucket(defs, list, input);
    RivalInBucket(defs, list, input);
  }

  lemma LayersHaveDifferentPriorities(defs: ItemDefs, a: Recipe, b: Recipe)
    requires PriorityFitsLayer(defs, a) && PriorityFitsLayer(defs, b)
    requires LayerOf(defs, a) == ItemNames && LayerOf(defs, b) == Count
    ensures Priority(a) != Priority(b)
  {
    hide Priority;
    hide LayerOf;
  }

  /** With priorities that fit the layers, the index finds what a scan finds exactly if that
      leaves no hole; with the hand in no group it always does. */
  lemma IndexAgreesWithScan(defs: ItemDefs, list: seq<CraftDefinition>, input: CraftInput)
    requires ProperStacks(input)
    requires forall def <- list :: PriorityFitsLayer(defs, def.recipe)
    ensures var best := Pick(defs, list, input);
      PickIndexed(defs, list, input) == best <==> best == null || NoHole(defs, best.recipe, input)
    ensures Shaped.HandInNoGroup(defs) ==> PickIndexed(defs, list, input) == Pick(defs, list, input)
  {
    hide *;
    IndexVersusScan(defs, list, input);
    var best := Pick(defs, list, input);
    if best != null {
      PickApplies(defs, list, input);
      EligibleAccepts(defs, best.recipe, input);
      if Shaped.HandInNoGroup(defs) {
        HandLeavesNoHole(defs, best.recipe, input);
      }
      FoundAgainIs(defs, list, input, best);
      if LayerOf(defs, best.recipe) == Count && NamedRival(defs, list, input, Priority(best.recipe)) {
        var def := ARival(defs, list, input, Priority(best.recipe));
        LayersHaveDifferentPriorities(defs, def.recipe, best.recipe);
      }
    }
  }

  lemma EligibleAccepts(defs: ItemDefs, recipe: Recipe, input: CraftInput)
    requires Eligible(defs, recipe, input)
    ensures Accepts(defs, recipe, input)
  {
  }

  lemma FoundAgainIs(defs: ItemDefs, list: seq<CraftDefinition>, input: CraftInput, best: CraftDefinition)
    ensures FoundAgain(defs, list, input, best)
       <==> NoHole(defs, best.recipe, input)
            && !(LayerOf(defs, best.recipe) == Count && NamedRival(defs, list, input, Priority(best.recipe)))
  {
  }

  /** With the hand in a group, a recipe that wants a member of it accepts an input with a hole
      there.  A scan finds it; the index does not, since the input holds two items and the recipe
      three. */
  lemma HoleIsMissed(defs: ItemDefs, def: CraftDefinition, output: string, group: string)
    requires defs.Known("") && ',' !in group && defs.Rating("", group) != 0
    requires defs.nameOf("a") == "a" && defs.nameOf(GROUP_PREFIX + group) == GROUP_PREFIX + group
    requires defs.Known(defs.nameOf(output))
    requires def.recipe == ShapedRecipe(output, 3, ["a", GROUP_PREFIX + group, "a"])
    ensures var input := CraftInput(Normal, 3, [Stack("a", 1, 0), Stack("", 0, 0), Stack("a", 1, 0)]);
      && ProperStacks(input) && Pick(defs, [def], input) == def && PickIndexed(defs, [def], input) == null
  {
    hide Eligible;
    hide NoHole;
    hide Pick;
    hide PickIndexed;
    var input := CraftInput(Normal, 3, [Stack("a", 1, 0), Stack("", 0, 0), Stack("a", 1, 0)]);
    HoleApplies(defs, def, output, group);
    OnlyOneMissed(defs, def, input);
  }

  /** A definition on its own that applies but leaves a hole is found by a scan only. */
  lemma OnlyOneMissed(defs: ItemDefs, def: CraftDefinition, input: CraftInput)
    requires ProperStacks(input) && Eligible(defs, def.recipe, input) && !NoHole(defs, def.recipe, input)
    ensures Pick(defs, [def], input) == def && PickIndexed(defs, [def], input) == null
  {
    hide *;
    PickOnly(defs, def, input);
    IndexVersusScan(defs, [def], input);
    FoundAgainIs(defs, [def], input, def);
    IndexedOnly(defs, def, input);
  }

  lemma HoleApplies(defs: ItemDefs, def: CraftDefinition, output: string, group: string)
    requires defs.Known("") && ',' !in group && defs.Rating("", group) != 0
    requires defs.nameOf("a") == "a" && defs.nameOf(GROUP_PREFIX + group) == GROUP_PREFIX + group
    requires defs.Known(defs.nameOf(output))
    requires def.recipe == ShapedRecipe(output, 3, ["a", GROUP_PREFIX + group, "a"])
    ensures var input := CraftInput(Normal, 3, [Stack("a", 1, 0), Stack("", 0, 0), Stack("a", 1, 0)]);
      Eligible(defs, def.recipe, input) && !NoHole(defs, def.recipe, input)
  {
    var slot := GROUP_PREFIX + group;
    var input := CraftInput(Normal, 3, [Stack("a", 1, 0), Stack("", 0, 0), Stack("a", 1, 0)]);
    assert InputNames(input) == ["a", "", "a"];
    assert RecipeNames(defs, def.recipe) == ["a", slot, "a"];
    assert ["a", slot, "a"][1] == slot && IsGroup(slot);
    Shaped.HoleAccepted(defs, group);
    hide Shaped.AcceptsBoxes;
    hide Shaped.AcceptsShape;
  }

  lemma PickOnly(defs: ItemDefs, def: CraftDefinition, input: CraftInput)
    ensures Pick(defs, [def], input) == if Eligible(defs, def.recipe, input) then def else null
  {
    hide Eligible;
    PriorityPositive(def.recipe);
    assert [def] == [] + [def];
    PickSnoc(defs, [], def, input);
  }

  lemma IndexedOnly(defs: ItemDefs, def: CraftDefinition, input: CraftInput)
    requires ProperStacks(input)
    ensures PickIndexed(defs, [def], input) == null || PickIndexed(defs, [def], input) == def
  {
    if PickIndexed(defs, [def], input) != null {
      PickIsListed(defs, [def], input);
    }
  }

  /** A recipe keeps the priority of its written item: written plainly but normalised to a group,
      and registered after a plain recipe for the same item, it wins a scan, but loses once the
      two are hashed into different layers. */
  lemma RenamedGroupDiffers(defs: ItemDefs, plain: CraftDefinition, renamed: CraftDefinition,
                            output: string, name: string, written: string)
    requires name != "" && defs.nameOf(name) == name && defs.Known(defs.nameOf(output))
    requires !IsGroup(name) && !IsGroup(written)
    requires IsGroup(defs.nameOf(written)) && Matches(defs, name, defs.nameOf(written))
    requires plain.recipe == CookingRecipe(output, name) && renamed.recipe == CookingRecipe(output, written)
    ensures var input := CraftInput(Cooking, 1, [Stack(name, 1, 0)]);
      && !PriorityFitsLayer(defs, renamed.recipe)
      && Pick(defs, [plain, renamed], input) == renamed
      && PickIndexed(defs, [plain, renamed], input) == plain
  {
    var input := CraftInput(Cooking, 1, [Stack(name, 1, 0)]);
    assert InputNames(input) == [name];
    assert Shapeless.NonEmpty([name]) == [name];
    hide IsGroup;
    hide Matches;
    assert RecipeNames(defs, plain.recipe) == [name] && RecipeNames(defs, renamed.recipe)[0] == defs.nameOf(written);
    LayersSeparate(defs, plain, renamed, input);
  }

  /** Of two definitions with the same priority that apply, the one hashed by its item count and
      registered later wins a scan, but the other one is found by the index. */
  lemma LayersSeparate(defs: ItemDefs, named: CraftDefinition, counted: CraftDefinition, input: CraftInput)
    requires ProperStacks(input)
    requires Eligible(defs, named.recipe, input) && Eligible(defs, counted.recipe, input)
    requires LayerOf(defs, named.recipe) == ItemNames && LayerOf(defs, counted.recipe) == Count
    requires Priority(named.recipe) == Priority(counted.recipe)
    ensures Pick(defs, [named, counted], input) == counted && PickIndexed(defs, [named, counted], input) == named
  {
    var list := [named, counted];
    LaterWins(defs, named, counted, input);
    assert named == list[0];
    NoHoleByName(defs, named.recipe, input);
    hide *;
    RivalExists(defs, list, input, named);
    HolelessRivalIs(defs, list, input, named);
    IndexVersusScan(defs, list, input);
    FoundAgainIs(defs, list, input, counted);
    PriorityOfBest(counted);
    PriorityOfBest(PickIndexed(defs, list, input));
    PickIsListed(defs, list, input);
  }

  lemma LaterWins(defs: ItemDefs, a: CraftDefinition, b: CraftDefinition, input: CraftInput)
    requires Eligible(defs, a.recipe, input) && Eligible(defs, b.recipe, input)
    requires Priority(a.recipe) == Priority(b.recipe)
    ensures Pick(defs, [a, b], input) == b
  {
    hide Eligible;
    PriorityPositive(b.recipe);
    assert [a, b] == [a] + [b] && [a] == [] + [a];
    PickSnoc(defs, [a], b, input);
    PickSnoc(defs, [], a, input);
    hide Priority;
  }

  /** What the index finds is one of the definitions listed. */
  lemma PickIsListed(defs: ItemDefs, list: seq<CraftDefinition>, input: CraftInput)
    requires PickIndexed(defs, list, input) != null
    ensures PickIndexed(defs, list, input) in list
  {
    hide Accepts;
    hide OutputKnown;
    hide InputHash;
    hide Bucket;
    hide Pick;
    forall layer, h | Pick(defs, Bucket(defs, list, layer, h), input) != null
      ensures Pick(defs, Bucket(defs, list, layer, h), input) in list
    {
      PickApplies(defs, Bucket(defs, list, layer, h), input);
      BucketMembers(defs, list, layer, h, Pick(defs, Bucket(defs, list, layer, h), input));
    }
  }

  /** A group fuel recipe keeps the plain priority: registered after a plain fuel recipe for the
      same item it wins a scan, but loses once the two are hashed into different layers. */
  lemma GroupFuelDiffers(defs: ItemDefs, plain: CraftDefinition, group: CraftDefinition, name: string, slot: string)
    requires name != "" && defs.nameOf(name) == name && defs.nameOf(slot) == slot && defs.Known(defs.nameOf(""))
    requires !IsGroup(name) && IsGroup(slot) && Matches(defs, name, slot)
    requires plain.recipe == FuelRecipe(name) && group.recipe == FuelRecipe(slot)
    ensures var input := CraftInput(Fuel, 1, [Stack(name, 1, 0)]);
      && Pick(defs, [plain, group], input) == group
      && PickIndexed(defs, [plain, group], input) == plain
  {
    var input := CraftInput(Fuel, 1, [Stack(name, 1, 0)]);
    assert InputNames(input) == [name];
    assert Shapeless.NonEmpty([name]) == [name];
    hide IsGroup;
    hide Matches;
    assert RecipeNames(defs, plain.recipe) == [name] && RecipeNames(defs, group.recipe)[0] == slot;
    LayersSeparate(defs, plain, group, input);
  }
}
