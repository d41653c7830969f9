/** The manager that owns the hash layers: registering, hashing and looking up recipes. */
module CraftManager {
  import opened Recipes
  import opened CraftIndex
  import opened CraftOutputs

  type Layer = map<nat, seq<CraftDefinition>>

  function Listed(layer: Layer, hash: nat): seq<CraftDefinition> {
    if hash in layer then layer[hash] else []
  }

  function Push(layer: Layer, hash: nat, def: CraftDefinition): Layer {
    layer[hash := Listed(layer, hash) + [def]]
  }

  ghost predicate OwnedBy(layer: Layer, owned: set<CraftDefinition>) {
    forall hash, i :: hash in layer && 0 <= i < |layer[hash]| ==> layer[hash][i] in owned
  }

  lemma PushOwned(layer: Layer, hash: nat, def: CraftDefinition, owned: set<CraftDefinition>)
    requires OwnedBy(layer, owned) && def in owned
    ensures OwnedBy(Push(layer, hash, def), owned)
  {
  }

  /** Every bucket has been extended by the bucket of the given list. */
  ghost predicate Extended(defs: ItemDefs, before: Layer, layer: Layer, list: seq<CraftDefinition>, kind: HashType) {
    forall hash :: Listed(layer, hash) == Listed(before, hash) + Bucket(defs, list, kind, hash)
  }

  lemma ExtendSnoc(defs: ItemDefs, before: Layer, layer: Layer, list: seq<CraftDefinition>, def: CraftDefinition,
                   kind: HashType)
    requires Extended(defs, before, layer, list, kind)
    ensures var hash := RecipeHash(defs, def.recipe, kind);
      var next := if LayerOf(defs, def.recipe) == kind then Push(layer, hash, def) else layer;
      Extended(defs, before, next, list + [def], kind)
  {
    hide Bucket;
    hide LayerOf;
    hide RecipeHash;
    var next := layer;
    if LayerOf(defs, def.recipe) == kind {
      next := Push(layer, RecipeHash(defs, def.recipe, kind), def);
    }
    forall hash ensures Listed(next, hash) == Listed(before, hash) + Bucket(defs, list + [def], kind, hash) {
      BucketOneMore(defs, list, def, kind, hash);
    }
  }

  lemma BucketOneMore(defs: ItemDefs, list: seq<CraftDefinition>, def: CraftDefinition, kind: HashType, hash: nat)
    ensures Bucket(defs, list + [def], kind, hash)
         == Bucket(defs, list, kind, hash)
            + if LayerOf(defs, def.recipe) == kind && RecipeHash(defs, def.recipe, kind) == hash then [def] else []
  {
    hide LayerOf;
    hide RecipeHash;
    assert (list + [def])[..|list|] == list;
  }

  lemma ExtendNothing(defs: ItemDefs, layer: Layer, kind: HashType)
    ensures Extended(defs, layer, layer, [], kind)
  {
  }

  predicate AllEmpty(input: CraftInput) {
    forall i :: 0 <= i < |input.items| ==> input.items[i].count == 0
  }

  /** What a lookup answers when the layers hold the given lists for an input's hashes. */
  ghost function Answer(defs: ItemDefs, named: seq<CraftDefinition>, counted: seq<CraftDefinition>,
                        unhashed: seq<CraftDefinition>, input: CraftInput): CraftDefinition? {
    if AllEmpty(input) then null
    else Better(Better(Pick(defs, named, input), Pick(defs, counted, input)), Pick(defs, unhashed, input))
  }

  class CraftDefManager {
    /** One map from hashes to recipes per layer. */
    var byNames: Layer
    var byCount: Layer
    var unhashed: Layer
    /** The definitions by the name of their output. */
    var byOutput: OutputIndex
    /** Every definition handed to the manager. */
    ghost var owned: set<CraftDefinition>
    /** Those that have not been cleared, in the order in which they were registered. */
    ghost var registered: seq<CraftDefinition>

    constructor ()
      ensures byNames == byCount == unhashed == map[] && byOutput == map[] && owned == {} && registered == []
      ensures forall defs :: Valid(defs)
    {
      byNames, byCount, unhashed, byOutput := map[], map[], map[], map[];
      owned, registered := {}, [];
    }

    /** Every definition in a layer is owned, and in keeping with its recipe; every registered one
        is listed under its output. */
    ghost predicate Valid(defs: ItemDefs)
      reads this, owned
    {
      && OwnedBy(byNames, owned) && OwnedBy(byCount, owned) && OwnedBy(unhashed, owned)
      && AllInKeeping(defs, owned)
      && IndexedByOutput(defs, byOutput, registered)
    }

    /** Before hashes are initialised, definitions gather in one unhashed list. */
    method RegisterCraft(defs: ItemDefs, def: CraftDefinition)
      requires Valid(defs) && def.Valid(defs)
      modifies this
      ensures Valid(defs) && owned == old(owned) + {def} && registered == old(registered) + [def]
      ensures byNames == old(byNames) && byCount == old(byCount)
      ensures unhashed == old(unhashed)[0 := old(Listed(unhashed, 0)) + [def]]
      ensures var name := OutputName(defs, def.recipe);
        byOutput == old(byOutput)[name := old(ListedUnder(byOutput, name)) + [def]]
    {
      hide OutputName;
      PushOwned(unhashed, 0, def, owned + {def});
      unhashed := Push(unhashed, 0, def);
      owned := owned + {def};
      IndexOneMore(defs, byOutput, registered, def);
      var name := OutputName(defs, def.recipe);
      byOutput := byOutput[name := ListedUnder(byOutput, name) + [def]];
      registered := registered + [def];
    }

    /** The recipes for an output, the last registered first, and no more than a limit unless
        that is zero. */
    method GetCraftRecipes(defs: ItemDefs, output: string, limit: nat) returns (recipes: seq<CraftDefinition>)
      requires Valid(defs)
      ensures var all := Producing(defs, registered, output);
        recipes == Newest(all, if limit == 0 || limit > |all| then |all| else limit)
    {
      recipes := [];
      if output !in byOutput {
        return;
      }
      var list := byOutput[output];
      assert list == Producing(defs, registered, output);
      hide Producing;
      var i := |list|;
      while i > 0
        invariant 0 <= i <= |list| && (limit != 0 ==> |recipes| <= limit)
        invariant recipes == Newest(list, |list| - i)
      {
        if limit != 0 && |recipes| >= limit {
          break;
        }
        recipes := recipes + [list[i - 1]];
        i := i - 1;
      }
    }

    /** Forgets the recipes for an output, all of which are still in the unhashed list. */
    method ClearCraftsByOutput(defs: ItemDefs, output: string) returns (found: bool)
      requires Valid(defs) && Listed(unhashed, 0) == registered
      modifies this
      ensures Valid(defs) && Listed(unhashed, 0) == registered
      ensures registered == NotProducing(defs, old(registered), output)
      ensures found == (output in old(byOutput)) && output !in byOutput
      ensures byNames == old(byNames) && byCount == old(byCount) && owned == old(owned)
    {
      hide Producing;
      hide NotProducing;
      hide OwnedBy;
      hide Without;
      if output !in byOutput {
        NothingProduced(defs, registered, output);
        return false;
      }
      found := true;
      var list, cleared := Listed(unhashed, 0), byOutput[output];
      assert cleared == Producing(defs, registered, output);
      WithoutNothing(list);
      assert Members(cleared[..0]) == {};
      for i := 0 to |cleared|
        invariant unchanged(this) && Valid(defs)
        invariant list == Without(registered, Members(cleared[..i]))
      {
        WithoutOneMore(registered, cleared, i);
        list := WithoutOne(list, cleared[i]);
      }
      assert cleared[..|cleared|] == cleared;
      WithoutProducing(defs, registered, output);
      IndexCleared(defs, byOutput, registered, output);
      WithoutOwned(unhashed, registered, Members(cleared), owned);
      unhashed := unhashed[0 := list];
      byOutput := byOutput - {output};
      registered := list;
    }

    /** Forgets the recipes that accept an input, all of which are still in the unhashed list. */
    method ClearCraftsByInput(defs: ItemDefs, input: CraftInput) returns (found: bool)
      requires Valid(defs) && Listed(unhashed, 0) == registered
      modifies this
      ensures Valid(defs) && Listed(unhashed, 0) == registered
      ensures registered == if AllEmpty(input) then old(registered) else NotAccepting(defs, old(registered), input)
      ensures found <==> registered != old(registered)
      ensures byNames == old(byNames) && byCount == old(byCount) && owned == old(owned)
    {
      hide Producing;
      hide Accepts;
      hide OwnedBy;
      hide Without;
      hide IndexedByOutput;
      if AllEmpty(input) {
        return false;
      }
      Owned(defs);
      var list := Listed(unhashed, 0);
      var gone: set<CraftDefinition>, kept := {}, [];
      assert list[..0] == [];
      for i := 0 to |list|
        invariant unchanged(this) && Valid(defs)
        invariant gone == Accepting(defs, list[..i], input)
        invariant kept == NotAccepting(defs, list[..i], input)
      {
        var def := list[i];
        assert list[..i + 1] == list[..i] + [def];
        assert list[..i + 1][..i] == list[..i];
        var applies := def.Check(defs, input);
        if applies {
          gone := gone + {def};
        } else {
          kept := kept + [def];
        }
      }
      assert list[..|list|] == list;
      NotAcceptingIs(defs, list, input);
      if gone == {} {
        WithoutNothing(list);
        return false;
      }
      found := true;
      WithoutFewer(list, gone);
      WithoutOwned(unhashed, registered, gone, owned);
      var index := EraseFromIndex(byOutput, gone);
      IndexErased(defs, byOutput, registered, gone);
      unhashed := unhashed[0 := kept];
      byOutput := index;
      registered := kept;
    }

    method GetCraftResult(defs: ItemDefs, input: CraftInput) returns (best: CraftDefinition?)
      requires Valid(defs)
      ensures best == Answer(defs, Listed(byNames, InputHash(defs, input, ItemNames)),
                             Listed(byCount, InputHash(defs, input, Count)), Listed(unhashed, 0), input)
      ensures if AllEmpty(input) then best == null
              else Chosen(defs, Listed(unhashed, 0) + Listed(byCount, InputHash(defs, input, Count))
                                + Listed(byNames, InputHash(defs, input, ItemNames)), input, best)
    {
      hide *;
      AnswerChosen(defs, Listed(byNames, InputHash(defs, input, ItemNames)),
                   Listed(byCount, InputHash(defs, input, Count)), Listed(unhashed, 0), input);
      AnswerIs(defs, Listed(byNames, InputHash(defs, input, ItemNames)),
               Listed(byCount, InputHash(defs, input, Count)), Listed(unhashed, 0), input);
      if AllEmpty(input) {
        return null;
      }
      Owners(defs);
      best := TryBucket(defs, Listed(byNames, InputHash(defs, input, ItemNames)), input, null);
      Owners(defs);
      best := TryBucket(defs, Listed(byCount, InputHash(defs, input, Count)), input, best);
      Owners(defs);
      best := TryBucket(defs, Listed(unhashed, InputHash(defs, input, Unhashed)), input, best);
    }

    lemma Owners(defs: ItemDefs)
      requires Valid(defs)
      ensures forall hash :: AllValid(defs, Listed(byNames, hash))
      ensures forall hash :: AllValid(defs, Listed(byCount, hash))
      ensures forall hash :: AllValid(defs, Listed(unhashed, hash))
    {
    }

    /** Moves the definitions from the unhashed layer into the layers above it. */
    method InitHashes(defs: ItemDefs)
      requires Valid(defs)
      modifies this, owned
      ensures Valid(defs) && owned == old(owned) && registered == old(registered) && byOutput == old(byOutput)
      ensures Extended(defs, old(byNames), byNames, old(Listed(unhashed, 0)), ItemNames)
      ensures Extended(defs, old(byCount), byCount, old(Listed(unhashed, 0)), Count)
      ensures Listed(unhashed, 0) == []
    {
      hide Extended;
      hide OwnedBy;
      hide LayerOf;
      hide RecipeHash;
      Owned(defs);
      var pending := Listed(unhashed, 0);
      ExtendNothing(defs, byNames, ItemNames);
      ExtendNothing(defs, byCount, Count);
      assert pending[..0] == [];
      for i := 0 to |pending|
        invariant Valid(defs) && owned == old(owned) && registered == old(registered)
        invariant unhashed == old(unhashed) && byOutput == old(byOutput)
        invariant Extended(defs, old(byNames), byNames, pending[..i], ItemNames)
        invariant Extended(defs, old(byCount), byCount, pending[..i], Count)
      {
        var def := pending[i];
        assert def in owned;
        assert pending[..i + 1] == pending[..i] + [def];
        ExtendSnoc(defs, old(byNames), byNames, pending[..i], def, ItemNames);
        ExtendSnoc(defs, old(byCount), byCount, pending[..i], def, Count);
        LayerIsHashed(defs, def.recipe);
        def.InitHash(defs);
        var hash := def.GetHash(defs);
        if def.hashType == ItemNames {
          PushOwned(byNames, hash, def, owned);
          byNames := Push(byNames, hash, def);
        } else {
          PushOwned(byCount, hash, def, owned);
          byCount := Push(byCount, hash, def);
        }
      }
      assert pending[..|pending|] == pending;
      EmptiedOwned(unhashed, owned);
      unhashed := unhashed[0 := []];
    }

    lemma Owned(defs: ItemDefs)
      requires Valid(defs)
      ensures forall i :: 0 <= i < |Listed(unhashed, 0)| ==> Listed(unhashed, 0)[i] in owned
    {
    }
  }

  lemma WithoutOwned(layer: Layer, list: seq<CraftDefinition>, gone: set<CraftDefinition>, owned: set<CraftDefinition>)
    requires OwnedBy(layer, owned) && Listed(layer, 0) == list
    ensures OwnedBy(layer[0 := Without(list, gone)], owned)
  {
    WithoutKeeps(list, gone);
  }

  lemma EmptiedOwned(layer: Layer, owned: set<CraftDefinition>)
    requires OwnedBy(layer, owned)
    ensures OwnedBy(layer[0 := []], owned)
  {
  }

  ghost predicate AllInKeeping(defs: ItemDefs, owned: set<CraftDefinition>)
    reads owned
  {
    forall def :: def in owned ==> def.Valid(defs)
  }

  ghost predicate AllValid(defs: ItemDefs, list: seq<CraftDefinition>)
    reads list
  {
    forall i :: 0 <= i < |list| ==> list[i].Valid(defs)
  }

  lemma AnswerIs(defs: ItemDefs, named: seq<CraftDefinition>, counted: seq<CraftDefinition>,
                 unhashed: seq<CraftDefinition>, input: CraftInput)
    ensures InputHash(defs, input, Unhashed) == 0
    ensures AllEmpty(input) ==> Answer(defs, named, counted, unhashed, input) == null
    ensures !AllEmpty(input) ==>
      Answer(defs, named, counted, unhashed, input) ==
        Better(Better(Better(null, Pick(defs, named, input)), Pick(defs, counted, input)), Pick(defs, unhashed, input))
  {
    BetterNull(Pick(defs, named, input));
  }

  /** The answer is chosen by kind over all three lists; within a kind, the last one of the first
      layer that has any wins. */
  lemma AnswerChosen(defs: ItemDefs, named: seq<CraftDefinition>, counted: seq<CraftDefinition>,
                     unhashed: seq<CraftDefinition>, input: CraftInput)
    ensures var best := Answer(defs, named, counted, unhashed, input);
      if AllEmpty(input) then best == null else Chosen(defs, unhashed + counted + named, input, best)
  {
    hide Chosen;
    hide Pick;
    hide Priority;
    PickOrder(defs, unhashed + counted + named, input);
    PickConcat(defs, unhashed + counted, named, input);
    PickConcat(defs, unhashed, counted, input);
    BetterAssociates(Pick(defs, named, input), Pick(defs, counted, input), Pick(defs, unhashed, input));
  }

  /** The best of a bucket, walking it from back to front, after an earlier find. */
  method TryBucket(defs: ItemDefs, bucket: seq<CraftDefinition>, input: CraftInput, earlier: CraftDefinition?)
    returns (best: CraftDefinition?)
    requires AllValid(defs, bucket)
    ensures best == Better(earlier, Pick(defs, bucket, input))
  {
    best := earlier;
    var i := |bucket|;
    assert bucket[..i] == bucket;
    while i > 0
      invariant 0 <= i <= |bucket|
      invariant Better(best, Pick(defs, bucket[..i], input)) == Better(earlier, Pick(defs, bucket, input))
    {
      var def := bucket[i - 1];
      assert bucket[..i] == bucket[..i - 1] + [def];
      PickSnoc(defs, bucket[..i - 1], def, input);
      BetterAssociates(best, IfEligible(defs, def, input), Pick(defs, bucket[..i - 1], input));
      hide Pick;
      hide Priority;
      hide Accepts;
      hide OutputKnown;
      if Priority(def.recipe) > PriorityOf(best) {
        var applies := def.Check(defs, input);
        if applies && OutputKnown(defs, def.recipe, input) {
          best := def;
        }
      }
      i := i - 1;
    }
  }

  lemma AnswersAre(defs: ItemDefs, list: seq<CraftDefinition>, input: CraftInput)
    ensures Answer(defs, [], [], list, input) == if AllEmpty(input) then null else Pick(defs, list, input)
    ensures Answer(defs, Bucket(defs, list, ItemNames, InputHash(defs, input, ItemNames)),
                   Bucket(defs, list, Count, InputHash(defs, input, Count)), [], input)
         == if AllEmpty(input) then null else PickIndexed(defs, list, input)
  {
    hide Bucket;
    hide InputHash;
    BetterNull(Pick(defs, list, input));
  }

  lemma AnswerBeforeAndAfter(defs: ItemDefs, list: seq<CraftDefinition>, input: CraftInput)
    requires ProperStacks(input)
    ensures var before := Answer(defs, [], [], list, input);
      var after := Answer(defs, Bucket(defs, list, ItemNames, InputHash(defs, input, ItemNames)),
                          Bucket(defs, list, Count, InputHash(defs, input, Count)), [], input);
      && (after == before <==> before == null || FoundAgain(defs, list, input, before))
      && (Shaped.HandInNoGroup(defs) ==>
            (forall def <- list :: PriorityFitsLayer(defs, def.recipe)) ==> after == before)
  {
    hide *;
    AnswersAre(defs, list, input);
    IndexVersusScan(defs, list, input);
    if Shaped.HandInNoGroup(defs) && forall def <- list :: PriorityFitsLayer(defs, def.recipe) {
      IndexAgreesWithScan(defs, list, input);
    }
  }

  /** Looking an input up before and after the hashes are initialised gives the same definition
      exactly if the first one leaves no hole and has no rival of the same priority in the layer
      above; with priorities that fit the layers and the hand in no group it always does. */
  method SameResultAfterHashing(manager: CraftDefManager, defs: ItemDefs, input: CraftInput)
    returns (scanned: CraftDefinition?, indexed: CraftDefinition?)
    requires manager.Valid(defs) && manager.byNames == map[] && manager.byCount == map[]
    requires ProperStacks(input)
    modifies manager, manager.owned
    ensures scanned == Answer(defs, [], [], old(Listed(manager.unhashed, 0)), input)
    ensures indexed == scanned
       <==> scanned == null || FoundAgain(defs, old(Listed(manager.unhashed, 0)), input, scanned)
    ensures Shaped.HandInNoGroup(defs) ==>
      (forall def <- old(Listed(manager.unhashed, 0)) :: PriorityFitsLayer(defs, def.recipe)) ==>
        indexed == scanned
  {
    hide *;
    ghost var list := Listed(manager.unhashed, 0);
    NothingListed(manager.byNames);
    NothingListed(manager.byCount);
    AnswerBeforeAndAfter(defs, list, input);
    scanned := manager.GetCraftResult(defs, input);
    manager.InitHashes(defs);
    ExtendedEmpty(defs, manager.byNames, list, ItemNames);
    ExtendedEmpty(defs, manager.byCount, list, Count);
    indexed := manager.GetCraftResult(defs, input);
  }

  lemma NothingListed(layer: Layer)
    requires layer == map[]
    ensures forall hash :: Listed(layer, hash) == []
  {
  }

  lemma ExtendedEmpty(defs: ItemDefs, layer: Layer, list: seq<CraftDefinition>, kind: HashType)
    requires Extended(defs, map[], layer, list, kind)
    ensures forall hash :: Listed(layer, hash) == Bucket(defs, list, kind, hash)
  {
  }
}
