/** Item definitions and the question whether one input item satisfies one recipe slot: by its
    name, or by being a member of every group that the slot lists. */
module Recipes {
  import opened Names

  /** The registered items with their groups, and the normalisation of item strings:
      parsing an item string and resolving aliases, as one fixed function.  hashOf stands for
      the string hash, about which nothing is assumed. */
  datatype ItemDefs = ItemDefs(groups: map<string, map<string, int>>, tools: set<string>,
                               nameOf: string -> string, hashOf: string -> nat)
  {
    predicate Known(name: string) {
      name in groups
    }

    function Rating(name: string, group: string): int {
      if name in groups && group in groups[name] then groups[name][group] else 0
    }

    function NamesOf(items: seq<string>): (r: seq<string>)
      ensures |r| == |items| && forall i :: 0 <= i < |items| ==> r[i] == nameOf(items[i])
    {
      seq(|items|, i requires 0 <= i < |items| => nameOf(items[i]))
    }
  }

  const GROUP_PREFIX := "group:"

  predicate IsGroup(name: string) {
    GROUP_PREFIX <= name
  }

  predicate HasGroup(names: seq<string>) {
    exists i :: 0 <= i < |names| && IsGroup(names[i])
  }

  // ---------------------------------------------------------------------------
  // The comma-separated list behind "group:"
  // ---------------------------------------------------------------------------

  /** Index of the first comma, or the length. */
  function CommaIn(s: string): (k: nat)
    ensures k <= |s| && ',' !in s[..k] && (k < |s| ==> s[k] == ',')
  {
    if s == [] || s[0] == ',' then 0
    else
      var k := CommaIn(s[1..]);
      assert s[..k + 1] == [s[0]] + s[1..][..k];
      1 + k
  }

  /** The pieces between commas.  A comma at the very end starts no further piece. */
  function Pieces(s: string): seq<string> {
    var k := CommaIn(s);
    if k + 1 >= |s| then [s[..k]] else [s[..k]] + Pieces(s[k + 1..])
  }

  function Joined(pieces: seq<string>): string {
    if pieces == [] then ""
    else if |pieces| == 1 then pieces[0]
    else pieces[0] + "," + Joined(pieces[1..])
  }

  function WithoutTrailingComma(s: string): string {
    if s != "" && s[|s| - 1] == ',' then s[..|s| - 1] else s
  }

  lemma SplitAt(s: string, k: nat)
    requires k < |s| && s[k] == ','
    ensures s == s[..k] + "," + s[k + 1..]
  {
  }

  lemma PrefixChop(piece: string, text: string)
    requires text != ""
    ensures WithoutTrailingComma(piece + "," + text) == piece + "," + WithoutTrailingComma(text)
  {
  }

  /** Splitting loses nothing but a trailing comma. */
  lemma {:induction false} PiecesRejoin(s: string)
    ensures Joined(Pieces(s)) == WithoutTrailingComma(s)
  {
    var k := CommaIn(s);
    if k + 1 < |s| {
      var piece, rest := s[..k], Pieces(s[k + 1..]);
      assert Pieces(s) == [piece] + rest && rest != [];
      PiecesRejoin(s[k + 1..]);
      PrefixChop(piece, s[k + 1..]);
      SplitAt(s, k);
    }
  }

  lemma {:induction false} PiecesHoldNoComma(s: string)
    ensures Pieces(s) != []
    ensures forall piece <- Pieces(s) :: ',' !in piece
  {
    var k := CommaIn(s);
    if k + 1 < |s| {
      PiecesHoldNoComma(s[k + 1..]);
    }
  }

  // ---------------------------------------------------------------------------
  // One item against one slot
  // ---------------------------------------------------------------------------

  ghost predicate MemberOfAll(defs: ItemDefs, name: string, groups: seq<string>) {
    forall i :: 0 <= i < |groups| ==> defs.Rating(name, groups[i]) != 0
  }

  ghost predicate InAllGroups(defs: ItemDefs, name: string, text: string) {
    MemberOfAll(defs, name, Pieces(text))
  }

  /** The slot names the item, or lists groups that a known item is a member of. */
  ghost predicate Matches(defs: ItemDefs, item: string, slot: string) {
    item == slot || (IsGroup(slot) && defs.Known(item) && InAllGroups(defs, item, slot[|GROUP_PREFIX|..]))
  }

  lemma MemberOfAllCons(defs: ItemDefs, name: string, group: string, rest: seq<string>)
    ensures MemberOfAll(defs, name, [group] + rest) <==> defs.Rating(name, group) != 0 && MemberOfAll(defs, name, rest)
  {
    var all := [group] + rest;
    assert all[0] == group;
    forall i | 0 <= i < |rest| ensures rest[i] == all[i + 1] {}
  }

  /** Looking at the first piece of a list of groups. */
  lemma FirstGroup(defs: ItemDefs, name: string, text: string, k: nat)
    requires k == CommaIn(text)
    ensures k + 1 < |text| ==>
      (InAllGroups(defs, name, text) <==> defs.Rating(name, text[..k]) != 0 && InAllGroups(defs, name, text[k + 1..]))
    ensures k + 1 >= |text| ==> (InAllGroups(defs, name, text) <==> defs.Rating(name, text[..k]) != 0)
  {
    if k + 1 < |text| {
      var rest := Pieces(text[k + 1..]);
      assert Pieces(text) == [text[..k]] + rest;
      MemberOfAllCons(defs, name, text[..k], rest);
      assert InAllGroups(defs, name, text[k + 1..]) <==> MemberOfAll(defs, name, rest);
      assert InAllGroups(defs, name, text) <==> MemberOfAll(defs, name, [text[..k]] + rest);
      hide *;
    } else {
      assert Pieces(text) == [text[..k]];
    }
  }

  method InputItemMatchesRecipe(defs: ItemDefs, item: string, slot: string) returns (matches: bool)
    ensures matches <==> Matches(defs, item, slot)
  {
    hide InAllGroups;
    hide Pieces;
    hide CommaIn;
    if item == slot {
      return true;
    }
    if IsGroup(slot) && defs.Known(item) {
      var text := slot[|GROUP_PREFIX|..];
      var pos := 0;
      while true
        invariant 0 <= pos <= |text|
        invariant InAllGroups(defs, item, text) <==> InAllGroups(defs, item, text[pos..])
        decreases |text| - pos
      {
        var rest := text[pos..];
        var k := CommaIn(rest);
        var checkGroup := rest[..k];
        FirstGroup(defs, item, rest, k);
        if defs.Rating(item, checkGroup) == 0 {
          return false;
        }
        if pos + k + 1 >= |text| {
          return true;
        }
        assert rest[k + 1..] == text[pos + k + 1..];
        pos := pos + k + 1;
      }
    }
    return false;
  }

  /** A slot that is no group accepts exactly the item it names. */
  lemma PlainSlot(defs: ItemDefs, item: string, slot: string)
    requires !IsGroup(slot)
    ensures Matches(defs, item, slot) <==> item == slot
  {
  }

  // ---------------------------------------------------------------------------
  // Many items against many slots
  // ---------------------------------------------------------------------------

  /** p assigns every item a slot of its own that it satisfies. */
  ghost predicate Assignment(defs: ItemDefs, items: seq<string>, slots: seq<string>, p: seq<nat>) {
    && |items| == |slots|
    && Permutation(p, |slots|)
    && forall i :: 0 <= i < |items| ==> Matches(defs, items[i], slots[p[i]])
  }

  ghost predicate Assignable(defs: ItemDefs, items: seq<string>, slots: seq<string>) {
    exists p :: Assignment(defs, items, slots, p)
  }
}
