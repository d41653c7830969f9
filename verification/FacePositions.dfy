/** The positions on the surface of a cube around the origin, and the cache of such lists.  The
    order of a list is that of the loops that make it: height by height up and down from the
    middle, at each height first the left and right side and then what is between them at the
    back and front, and at last the bottom and top row by row. */
module FacePositions {
  import opened Integers

  datatype Position = Position(x: int, y: int, z: int)

  function Abs(n: int): nat {
    if n < 0 then -n else n
  }

  /** The distance of a position by its largest coordinate. */
  predicate AtDistance(p: Position, d: int) {
    Abs(p.x) <= d && Abs(p.y) <= d && Abs(p.z) <= d && (Abs(p.x) == d || Abs(p.y) == d || Abs(p.z) == d)
  }

  ghost predicate Unique(c: seq<Position>) {
    forall i, j :: 0 <= i < j < |c| ==> c[i] != c[j]
  }

  /** Lists every position of a cube's surface once, and nothing else. */
  ghost predicate IsShell(c: seq<Position>, d: int) {
    Unique(c) && forall p :: p in c <==> AtDistance(p, d)
  }

  /** The sides up to a height, both above and below. */
  predicate InSides(p: Position, d: int, y: int) {
    Abs(p.y) < y && Abs(p.x) <= d && Abs(p.z) <= d && (Abs(p.x) == d || Abs(p.z) == d)
  }

  ghost predicate Sides(c: seq<Position>, d: int, y: int) {
    Unique(c) && forall p :: p in c <==> InSides(p, d, y)
  }

  ghost predicate LeftAndRight(c: seq<Position>, d: int, y: int, z: int) {
    Unique(c) && forall p :: p in c <==> InSides(p, d, y) || (Abs(p.y) == y && Abs(p.x) == d && -d <= p.z < z)
  }

  ghost predicate BackAndFront(c: seq<Position>, d: int, y: int, x: int) {
    Unique(c) && forall p :: p in c <==>
      InSides(p, d, y) || (Abs(p.y) == y && ((Abs(p.x) == d && Abs(p.z) <= d) || (Abs(p.z) == d && -d < p.x < x)))
  }

  ghost predicate Faces(c: seq<Position>, d: int, x: int) {
    Unique(c) && forall p :: p in c <==> InSides(p, d, d) || (Abs(p.y) == d && Abs(p.z) <= d && -d <= p.x < x)
  }

  ghost predicate FacesUpTo(c: seq<Position>, d: int, x: int, z: int) {
    Unique(c) && forall p :: p in c <==>
      InSides(p, d, d) || (Abs(p.y) == d && ((Abs(p.z) <= d && -d <= p.x < x) || (p.x == x && -d <= p.z < z)))
  }

  lemma UniqueConcat(c: seq<Position>, more: seq<Position>)
    requires Unique(c) && Unique(more) && forall p :: p in more ==> p !in c
    ensures Unique(c + more)
  {
    var all := c + more;
    forall i, j | 0 <= i < j < |all| ensures all[i] != all[j] {
      if i < |c| <= j { assert all[j] in more; }
    }
  }

  /** The two positions that a step adds at height y, and the two at height -y. */
  function Mirrored(a: Position, b: Position): seq<Position> {
    if a.y != 0 then [a, b, a.(y := -a.y), b.(y := -b.y)] else [a, b]
  }

  lemma MirroredUnique(a: Position, b: Position)
    requires a != b && a.y == b.y && a.y >= 0
    ensures Unique(Mirrored(a, b))
    ensures forall p :: p in Mirrored(a, b) <==> Abs(p.y) == a.y && (p.(y := a.y) == a || p.(y := b.y) == b)
  {
  }

  lemma AddLeftAndRight(c: seq<Position>, d: int, y: int, z: int)
    requires LeftAndRight(c, d, y, z) && 0 <= y < d && -d <= z <= d
    ensures LeftAndRight(c + Mirrored(Position(d, y, z), Position(-d, y, z)), d, y, z + 1)
  {
    var more := Mirrored(Position(d, y, z), Position(-d, y, z));
    MirroredUnique(Position(d, y, z), Position(-d, y, z));
    hide Mirrored;
    UniqueConcat(c, more);
  }

  lemma AddBackAndFront(c: seq<Position>, d: int, y: int, x: int)
    requires BackAndFront(c, d, y, x) && 0 <= y < d && -d < x < d
    ensures BackAndFront(c + Mirrored(Position(x, y, d), Position(x, y, -d)), d, y, x + 1)
  {
    var more := Mirrored(Position(x, y, d), Position(x, y, -d));
    MirroredUnique(Position(x, y, d), Position(x, y, -d));
    hide Mirrored;
    UniqueConcat(c, more);
  }

  lemma AddFaces(c: seq<Position>, d: int, x: int, z: int)
    requires FacesUpTo(c, d, x, z) && d > 0 && -d <= x <= d && -d <= z <= d
    ensures FacesUpTo(c + [Position(x, -d, z), Position(x, d, z)], d, x, z + 1)
  {
    UniqueConcat(c, [Position(x, -d, z), Position(x, d, z)]);
  }

  /** From one loop to the next. */
  lemma Passes(c: seq<Position>, d: int, n: int)
    requires d > 0
    ensures Sides(c, d, n) ==> LeftAndRight(c, d, n, -d)
    ensures LeftAndRight(c, d, n, d + 1) ==> BackAndFront(c, d, n, -d + 1)
    ensures BackAndFront(c, d, n, d) && n >= 0 ==> Sides(c, d, n + 1)
    ensures Sides(c, d, d) ==> Faces(c, d, -d)
    ensures Faces(c, d, n) ==> FacesUpTo(c, d, n, -d)
    ensures FacesUpTo(c, d, n, d + 1) && n >= -d ==> Faces(c, d, n + 1)
    ensures Faces(c, d, d + 1) ==> IsShell(c, d)
  {
  }

  // ---------------------------------------------------------------------------
  // The nearest positions
  // ---------------------------------------------------------------------------

  const FACES: seq<Position> := [
    Position(0, 1, 0), Position(0, 0, 1), Position(-1, 0, 0), Position(1, 0, 0), Position(0, 0, -1), Position(0, -1, 0)]

  const EDGES: seq<Position> := [
    Position(-1, 0, 1), Position(1, 0, 1), Position(-1, 0, -1), Position(1, 0, -1),
    Position(-1, -1, 0), Position(1, -1, 0), Position(0, -1, 1), Position(0, -1, -1),
    Position(-1, 1, 0), Position(1, 1, 0), Position(0, 1, 1), Position(0, 1, -1)]

  const CORNERS: seq<Position> := [
    Position(-1, 1, 1), Position(1, 1, 1), Position(-1, 1, -1), Position(1, 1, -1),
    Position(-1, -1, 1), Position(1, -1, 1), Position(-1, -1, -1), Position(1, -1, -1)]

  /** At distance one, how many coordinates are not zero. */
  function NonZero(p: Position): nat {
    Abs(p.x) + Abs(p.y) + Abs(p.z)
  }

  lemma FacesAre()
    ensures Unique(FACES) && forall p :: p in FACES <==> AtDistance(p, 1) && NonZero(p) == 1
  {
  }

  lemma EdgesAre()
    ensures Unique(EDGES) && forall p :: p in EDGES <==> AtDistance(p, 1) && NonZero(p) == 2
  {
  }

  lemma CornersAre()
    ensures Unique(CORNERS) && forall p :: p in CORNERS <==> AtDistance(p, 1) && NonZero(p) == 3
  {
  }

  /** The optimized sequence for the nearest positions is complete. */
  lemma NearestIsShell()
    ensures IsShell(FACES + EDGES + CORNERS, 1)
  {
    hide Unique;
    FacesAre();
    EdgesAre();
    CornersAre();
    UniqueConcat(FACES, EDGES);
    UniqueConcat(FACES + EDGES, CORNERS);
  }

  // ---------------------------------------------------------------------------
  // How many there are
  // ---------------------------------------------------------------------------

  ghost function SidesCount(d: nat, y: nat): nat {
    if y == 0 then 0 else SidesCount(d, y - 1) + if y == 1 then 8 * d else 16 * d
  }

  ghost function FacesCount(d: nat, n: nat): nat {
    if n == 0 then 0 else FacesCount(d, n - 1) + 2 * (2 * d + 1)
  }

  ghost function ShellSize(d: nat): nat {
    if d == 0 then 1 else 24 * d * d + 2
  }

  lemma {:induction false} SidesCountIs(d: nat, y: nat)
    requires y > 0
    ensures SidesCount(d, y) == 16 * d * y - 8 * d
  {
    if y > 1 {
      SidesCountIs(d, y - 1);
      assert 16 * d * y == 16 * d * (y - 1) + 16 * d;
    }
  }

  lemma {:induction false} FacesCountIs(d: nat, n: nat)
    ensures FacesCount(d, n) == 2 * (2 * d + 1) * n
  {
    if n > 0 {
      FacesCountIs(d, n - 1);
      assert 2 * (2 * d + 1) * n == 2 * (2 * d + 1) * (n - 1) + 2 * (2 * d + 1);
    }
  }

  lemma ShellCount(d: nat)
    requires d > 0
    ensures SidesCount(d, d) + FacesCount(d, 2 * d + 1) == ShellSize(d)
  {
    SidesCountIs(d, d);
    FacesCountIs(d, 2 * d + 1);
    assert 2 * (2 * d + 1) * (2 * d + 1) == 8 * d * d + 8 * d + 2;
    assert 16 * d * d + 8 * d * d == 24 * d * d;
  }

  /** Two lists of the same surface hold the same positions. */
  lemma ShellsAgree(a: seq<Position>, b: seq<Position>, d: int)
    requires IsShell(a, d) && IsShell(b, d)
    ensures multiset(a) == multiset(b)
  {
    forall p ensures multiset(a)[p] == multiset(b)[p] {
      UniqueOnce(a, p);
      UniqueOnce(b, p);
    }
  }

  lemma {:induction false} UniqueOnce(c: seq<Position>, p: Position)
    requires Unique(c)
    ensures multiset(c)[p] == if p in c then 1 else 0
  {
    if c != [] {
      var init, last := c[..|c| - 1], c[|c| - 1];
      assert c == init + [last];
      UniqueOnce(init, p);
    }
  }

  // ---------------------------------------------------------------------------
  // The order in which the positions are listed
  // ---------------------------------------------------------------------------

  /** The first n steps along the left and right side at heights y and -y. */
  ghost function LeftRight(d: int, y: int, n: nat): seq<Position> {
    if n == 0 then [] else
      LeftRight(d, y, n - 1) + Mirrored(Position(d, y, n - 1 - d), Position(-d, y, n - 1 - d))
  }

  /** The first n steps along the back and front side, which leave out the edges. */
  ghost function BackFront(d: int, y: int, n: nat): seq<Position> {
    if n == 0 then [] else BackFront(d, y, n - 1) + Mirrored(Position(n - d, y, d), Position(n - d, y, -d))
  }

  /** All sides at the heights nearer to the middle than y. */
  ghost function SidesBelow(d: int, y: nat): seq<Position>
    requires d > 0
  {
    if y == 0 then [] else SidesBelow(d, y - 1) + LeftRight(d, y - 1, 2 * d + 1) + BackFront(d, y - 1, 2 * d - 1)
  }

  /** The first n steps along one row of the bottom face and of the top face. */
  ghost function Row(d: int, x: int, n: nat): seq<Position> {
    if n == 0 then [] else Row(d, x, n - 1) + [Position(x, -d, n - 1 - d), Position(x, d, n - 1 - d)]
  }

  ghost function Rows(d: nat, n: nat): seq<Position> {
    if n == 0 then [] else Rows(d, n - 1) + Row(d, n - 1 - d, 2 * d + 1)
  }

  /** The list for a distance. */
  ghost function Generated(d: nat): seq<Position> {
    if d == 0 then [Position(0, 0, 0)]
    else if d == 1 then FACES + EDGES + CORNERS
    else SidesBelow(d, d) + Rows(d, 2 * d + 1)
  }

  lemma Associative(a: seq<Position>, b: seq<Position>, c: seq<Position>)
    ensures a + (b + c) == a + b + c
  {
  }

  lemma {:induction false} LeftRightListed(c: seq<Position>, d: int, y: int, n: nat)
    requires Sides(c, d, y) && 0 <= y < d && n <= 2 * d + 1
    ensures LeftAndRight(c + LeftRight(d, y, n), d, y, n - d)
  {
    hide Sides;
    hide LeftAndRight;
    hide Mirrored;
    if n == 0 {
      Passes(c, d, y);
      assert c + [] == c;
    } else {
      LeftRightListed(c, d, y, n - 1);
      AddLeftAndRight(c + LeftRight(d, y, n - 1), d, y, n - 1 - d);
      Associative(c, LeftRight(d, y, n - 1), Mirrored(Position(d, y, n - 1 - d), Position(-d, y, n - 1 - d)));
    }
  }

  lemma {:induction false} BackFrontListed(c: seq<Position>, d: int, y: int, n: nat)
    requires LeftAndRight(c, d, y, d + 1) && 0 <= y < d && n < 2 * d
    ensures BackAndFront(c + BackFront(d, y, n), d, y, n - d + 1)
  {
    hide LeftAndRight;
    hide BackAndFront;
    hide Mirrored;
    if n == 0 {
      Passes(c, d, y);
      assert c + [] == c;
    } else {
      BackFrontListed(c, d, y, n - 1);
      AddBackAndFront(c + BackFront(d, y, n - 1), d, y, n - d);
      Associative(c, BackFront(d, y, n - 1), Mirrored(Position(n - d, y, d), Position(n - d, y, -d)));
    }
  }

  lemma {:induction false} SidesListed(d: nat, y: nat)
    requires 0 < d && y <= d
    ensures Sides(SidesBelow(d, y), d, y)
  {
    hide Sides;
    hide LeftAndRight;
    hide BackAndFront;
    hide LeftRight;
    hide BackFront;
    if y == 0 {
      NoSides(d);
    } else {
      SidesListed(d, y - 1);
      var c := SidesBelow(d, y - 1) + LeftRight(d, y - 1, 2 * d + 1);
      LeftRightListed(SidesBelow(d, y - 1), d, y - 1, 2 * d + 1);
      BackFrontListed(c, d, y - 1, 2 * d - 1);
      Passes(c + BackFront(d, y - 1, 2 * d - 1), d, y - 1);
    }
  }

  lemma NoSides(d: int)
    ensures Sides([], d, 0)
  {
  }

  lemma {:induction false} RowListed(c: seq<Position>, d: int, x: int, n: nat)
    requires Faces(c, d, x) && 0 < d && -d <= x <= d && n <= 2 * d + 1
    ensures FacesUpTo(c + Row(d, x, n), d, x, n - d)
  {
    hide Faces;
    hide FacesUpTo;
    if n == 0 {
      Passes(c, d, x);
      assert c + [] == c;
    } else {
      RowListed(c, d, x, n - 1);
      AddFaces(c + Row(d, x, n - 1), d, x, n - 1 - d);
      Associative(c, Row(d, x, n - 1), [Position(x, -d, n - 1 - d), Position(x, d, n - 1 - d)]);
    }
  }

  lemma {:induction false} RowsListed(c: seq<Position>, d: nat, n: nat)
    requires Sides(c, d, d) && 0 < d && n <= 2 * d + 1
    ensures Faces(c + Rows(d, n), d, n - d)
  {
    hide Sides;
    hide Faces;
    hide FacesUpTo;
    hide Row;
    if n == 0 {
      Passes(c, d, d);
      assert c + [] == c;
    } else {
      RowsListed(c, d, n - 1);
      RowListed(c + Rows(d, n - 1), d, n - 1 - d, 2 * d + 1);
      Associative(c, Rows(d, n - 1), Row(d, n - 1 - d, 2 * d + 1));
      Passes(c + Rows(d, n), d, n - 1 - d);
    }
  }

  /** The positions that one height adds. */
  lemma {:induction false} HeightCount(d: int, y: int, n: nat)
    ensures |LeftRight(d, y, n)| == |BackFront(d, y, n)| == if y == 0 then 2 * n else 4 * n
  {
    if n > 0 {
      HeightCount(d, y, n - 1);
    }
  }

  lemma {:induction false} SidesBelowCount(d: nat, y: nat)
    requires d > 0
    ensures |SidesBelow(d, y)| == SidesCount(d, y)
  {
    hide LeftRight;
    hide BackFront;
    if y > 0 {
      SidesBelowCount(d, y - 1);
      HeightCount(d, y - 1, 2 * d + 1);
      HeightCount(d, y - 1, 2 * d - 1);
    }
  }

  lemma {:induction false} RowCount(d: int, x: int, n: nat)
    ensures |Row(d, x, n)| == 2 * n
  {
    if n > 0 {
      RowCount(d, x, n - 1);
    }
  }

  lemma {:induction false} RowsCount(d: nat, n: nat)
    ensures |Rows(d, n)| == FacesCount(d, n)
  {
    hide Row;
    if n > 0 {
      RowsCount(d, n - 1);
      RowCount(d, n - 1 - d, 2 * d + 1);
    }
  }

  /** The rows of the bottom and the top complete the sides. */
  lemma FacesComplete(c: seq<Position>, d: int)
    requires Sides(c, d, d) && 0 < d
    ensures IsShell(c + Rows(d, 2 * d + 1), d) && |Rows(d, 2 * d + 1)| == FacesCount(d, 2 * d + 1)
  {
    hide Sides;
    hide Faces;
    hide IsShell;
    RowsListed(c, d, 2 * d + 1);
    Passes(c + Rows(d, 2 * d + 1), d, d);
    RowsCount(d, 2 * d + 1);
  }

  lemma OriginIsShell()
    ensures IsShell([Position(0, 0, 0)], 0) && ShellSize(0) == 1
  {
  }

  lemma NearestCount()
    ensures |FACES + EDGES + CORNERS| == ShellSize(1)
  {
  }

  /** Every position at a distance is listed, once, and no other position is. */
  lemma GeneratedIsShell(d: nat)
    ensures IsShell(Generated(d), d) && |Generated(d)| == ShellSize(d)
  {
    hide IsShell;
    hide ShellSize;
    hide SidesBelow;
    hide Rows;
    hide Sides;
    hide Faces;
    if d == 0 {
      OriginIsShell();
    } else if d == 1 {
      NearestIsShell();
      NearestCount();
    } else {
      SidesListed(d, d);
      FacesComplete(SidesBelow(d, d), d);
      SidesBelowCount(d, d);
      ShellCount(d);
    }
  }

  // ---------------------------------------------------------------------------
  // The generator and its cache
  // ---------------------------------------------------------------------------

  /** Coordinates are sixteen-bit and signed: a loop up to a larger distance would never end. */
  const MAX_DISTANCE: int := 0x7FFE

  class FacePositionCache {
    var cache: map<u16, seq<Position>>

    ghost predicate Valid()
      reads this
    {
      forall d :: d in cache ==> cache[d] == Generated(d)
    }

    constructor ()
      ensures Valid() && cache == map[]
    {
      cache := map[];
    }

    /** The positions from the cache, or newly generated ones: the same list either way. */
    method GetFacePositions(d: u16) returns (c: seq<Position>)
      requires Valid() && d <= MAX_DISTANCE
      modifies this
      ensures Valid() && c == Generated(d) && IsShell(c, d) && |c| == ShellSize(d)
      ensures d in old(cache) ==> c == old(cache)[d] && cache == old(cache)
      ensures cache == old(cache)[d := c]
    {
      hide Generated;
      hide IsShell;
      hide ShellSize;
      if d in cache {
        GeneratedIsShell(d);
        return cache[d];
      }
      c := GenerateFacePosition(d);
    }

    /** Lists each position of the surface exactly once. */
    method GenerateFacePosition(d: u16) returns (c: seq<Position>)
      requires Valid() && d <= MAX_DISTANCE
      modifies this
      ensures Valid() && cache == old(cache)[d := c]
      ensures c == Generated(d) && IsShell(c, d) && |c| == ShellSize(d)
    {
      hide IsShell;
      hide ShellSize;
      hide SidesBelow;
      hide Rows;
      GeneratedIsShell(d);
      if d == 0 {
        c := [Position(0, 0, 0)];
      } else if d == 1 {
        c := FACES + EDGES + CORNERS;
      } else {
        c := AddSides(d);
        c := AddBottomAndTop(d, c);
      }
      cache := cache[d := c];
    }
  }

  /** All sides, from the middle on up and down at once. */
  method AddSides(d: int) returns (c: seq<Position>)
    requires 0 < d <= MAX_DISTANCE
    ensures c == SidesBelow(d, d) && Sides(c, d, d) && |c| == SidesCount(d, d)
  {
    hide Sides;
    hide LeftRight;
    hide BackFront;
    hide SidesCount;
    SidesListed(d, d);
    SidesBelowCount(d, d);
    c := [];
    var y := 0;
    while y <= d - 1
      invariant 0 <= y <= d && c == SidesBelow(d, y)
    {
      c := AddLeftRight(d, y, c);
      c := AddBackFront(d, y, c);
      y := y + 1;
    }
  }

  /** The left and right side at one height, including the edges. */
  method AddLeftRight(d: int, y: int, before: seq<Position>) returns (c: seq<Position>)
    requires 0 <= y < d <= MAX_DISTANCE
    ensures c == before + LeftRight(d, y, 2 * d + 1)
  {
    c := before;
    var z := -d;
    while z <= d
      invariant -d <= z <= d + 1
      invariant c == before + LeftRight(d, y, z + d)
    {
      c := c + [Position(d, y, z)];
      c := c + [Position(-d, y, z)];
      if y != 0 {
        c := c + [Position(d, -y, z)];
        c := c + [Position(-d, -y, z)];
      }
      assert c == before + (LeftRight(d, y, z + d) + Mirrored(Position(d, y, z), Position(-d, y, z)));
      z := z + 1;
    }
  }

  /** The back and front side at one height, excluding the edges. */
  method AddBackFront(d: int, y: int, before: seq<Position>) returns (c: seq<Position>)
    requires 0 <= y < d <= MAX_DISTANCE
    ensures c == before + BackFront(d, y, 2 * d - 1)
  {
    c := before;
    var x := -d + 1;
    while x <= d - 1
      invariant -d < x <= d
      invariant c == before + BackFront(d, y, x + d - 1)
    {
      c := c + [Position(x, y, d)];
      c := c + [Position(x, y, -d)];
      if y != 0 {
        c := c + [Position(x, -y, d)];
        c := c + [Position(x, -y, -d)];
      }
      assert c == before + (BackFront(d, y, x + d - 1) + Mirrored(Position(x, y, d), Position(x, y, -d)));
      x := x + 1;
    }
  }

  /** The bottom and top face including the edges. */
  method AddBottomAndTop(d: int, before: seq<Position>) returns (c: seq<Position>)
    requires 0 < d <= MAX_DISTANCE && Sides(before, d, d)
    ensures c == before + Rows(d, 2 * d + 1)
    ensures IsShell(c, d) && |c| == |before| + FacesCount(d, 2 * d + 1)
  {
    hide Sides;
    hide IsShell;
    hide FacesCount;
    hide Row;
    FacesComplete(before, d);
    c := before;
    var x := -d;
    while x <= d
      invariant -d <= x <= d + 1
      invariant c == before + Rows(d, x + d)
    {
      c := AddRow(d, x, c);
      Associative(before, Rows(d, x + d), Row(d, x, 2 * d + 1));
      x := x + 1;
    }
  }

  /** One row of the bottom face and the one above it. */
  method AddRow(d: int, x: int, before: seq<Position>) returns (c: seq<Position>)
    requires 0 < d <= MAX_DISTANCE && -d <= x <= d
    ensures c == before + Row(d, x, 2 * d + 1)
  {
    c := before;
    var z := -d;
    while z <= d
      invariant -d <= z <= d + 1
      invariant c == before + Row(d, x, z + d)
    {
      c := c + [Position(x, -d, z)];
      c := c + [Position(x, d, z)];
      assert c == before + (Row(d, x, z + d) + [Position(x, -d, z), Position(x, d, z)]);
      z := z + 1;
    }
  }
}
