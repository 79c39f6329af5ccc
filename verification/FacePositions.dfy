/** The positions on the surface of a cube around the origin, listed once each. */
module FacePositions {
  import opened Common

  function Abs(a: int): nat {
    if a >= 0 then a else -a
  }

  function Norm(p: Pos): nat {
    var xy := if Abs(p.x) > Abs(p.y) then Abs(p.x) else Abs(p.y);
    if xy > Abs(p.z) then xy else Abs(p.z)
  }

  /** Every position with the property is listed, no other, and none twice. */
  ghost predicate Enumerates(c: seq<Pos>, wanted: Pos -> bool) {
    && (forall k :: 0 <= k < |c| ==> wanted(c[k]))
    && (forall p :: wanted(p) ==> p in c)
    && (forall j, k :: 0 <= j < k < |c| ==> c[j] != c[k])
  }

  // ----- What has been listed at each point of the loops -----

  /** Side faces at heights below `y`, both up and down. */
  predicate Below(p: Pos, d: int, y: int) {
    Norm(p) == d && Abs(p.y) < y
  }

  /** And, at height `y`, the left and right sides up to `z`. */
  predicate LeftRight(p: Pos, d: int, y: int, z: int) {
    Below(p, d, y) || (Abs(p.y) == y && Abs(p.x) == d && -d <= p.z < z)
  }

  /** And the front and back sides up to `x`. */
  predicate FrontBack(p: Pos, d: int, y: int, x: int) {
    LeftRight(p, d, y, d + 1) || (Abs(p.y) == y && Abs(p.z) == d && -d < p.x < x)
  }

  /** All side faces, and the bottom and top ones up to `x` and, there, up to `z`. */
  predicate BottomTop(p: Pos, d: int, x: int, z: int) {
    Below(p, d, d) || (Abs(p.y) == d && -d <= p.z <= d && -d <= p.x <= d && (p.x < x || (p.x == x && p.z < z)))
  }

  lemma ListsMore(c: seq<Pos>, wanted: Pos -> bool, more: seq<Pos>, wanted': Pos -> bool)
    requires Enumerates(c, wanted)
    requires forall k :: 0 <= k < |more| ==> !wanted(more[k])
    requires forall j, k :: 0 <= j < k < |more| ==> more[j] != more[k]
    requires forall p :: wanted'(p) <==> wanted(p) || p in more
    ensures Enumerates(c + more, wanted')
  {
    forall p | wanted'(p) ensures p in c + more {
      assert wanted(p) ==> p in c;
    }
  }

  lemma SameList(c: seq<Pos>, wanted: Pos -> bool, wanted': Pos -> bool)
    requires Enumerates(c, wanted) && forall p :: wanted'(p) <==> wanted(p)
    ensures Enumerates(c, wanted')
  {
  }

  /** The surface of a cube of `2 * d + 1` is made up of this many positions. */
  function ShellSize(d: nat): nat {
    if d == 0 then 1 else 24 * (d * d) + 2
  }

  /** A signed 16-bit variable holds this for `n`. */
  function Wrapped(n: int): (r: int)
    ensures -0x8000 <= r < 0x8000
    ensures -0x8000 <= n < 0x8000 ==> r == n
  {
    (n + 0x8000) % 0x1_0000 - 0x8000
  }

  /** A coordinate counted up from `-d`, after `n` steps. */
  function Counted(d: int, n: int): int {
    Wrapped(n - d)
  }

  /** It never exceeds `d`. */
  ghost predicate CountsForEver(d: int) {
    forall n :: 0 <= n ==> Counted(d, n) <= d
  }

  lemma CountsForEverIff(d: U16)
    ensures CountsForEver(d) <==> d >= 0x7FFF
  {
    if d < 0x7FFF {
      assert Counted(d, 2 * d + 1) == d + 1;
    }
  }

  /**
   Lists the positions at distance `d`, those of distances 0 and 1 in a fixed order; unless
   `d` is so large that the loop over a coordinate is `endless`.  That is decided here by a
   test the source does not have; `CountsForEverIff` ties it to the 16-bit coordinate.
   */
  method GenerateFacePosition(d: U16) returns (endless: bool, c: seq<Pos>)
    ensures endless <==> CountsForEver(d)
    ensures !endless ==> Enumerates(c, p => Norm(p) == d) && |c| == ShellSize(d)
  {
    endless, c := false, [];
    CountsForEverIff(d);
    if d == 0 {
      c := [Pos(0, 0, 0)];
      assert forall p :: Norm(p) == 0 ==> p == c[0];
      return;
    }
    if d == 1 {
      c := FirstShell();
      return;
    }
    if d >= 0x7FFF {
      endless := true;
      return;
    }
    c := Sides(d);
    c := BottomAndTop(d, c);
  }

  /** How many coordinates are not 0: 1 on a face, 2 on an edge, 3 at a corner. */
  function Weight(p: Pos): nat {
    (if p.x != 0 then 1 else 0) + (if p.y != 0 then 1 else 0) + (if p.z != 0 then 1 else 0)
  }

  /** The group of the first shell a position belongs to. */
  function GroupOf(p: Pos): nat {
    match Weight(p)
    case 1 => 0
    case 2 => (if p.y == 0 then 1 else if p.y == -1 then 2 else 3)
    case _ => (if p.y == 1 then 4 else 5)
  }

  function Members(n: nat): seq<Pos> {
    match n
    case 0 => [Pos(0, 1, 0), Pos(0, 0, 1), Pos(-1, 0, 0), Pos(1, 0, 0), Pos(0, 0, -1), Pos(0, -1, 0)]
    case 1 => [Pos(-1, 0, 1), Pos(1, 0, 1), Pos(-1, 0, -1), Pos(1, 0, -1)]
    case 2 => [Pos(-1, -1, 0), Pos(1, -1, 0), Pos(0, -1, 1), Pos(0, -1, -1)]
    case 3 => [Pos(-1, 1, 0), Pos(1, 1, 0), Pos(0, 1, 1), Pos(0, 1, -1)]
    case 4 => [Pos(-1, 1, 1), Pos(1, 1, 1), Pos(-1, 1, -1), Pos(1, 1, -1)]
    case 5 => [Pos(-1, -1, 1), Pos(1, -1, 1), Pos(-1, -1, -1), Pos(1, -1, -1)]
    case _ => []
  }

  lemma GroupIsComplete(n: nat, p: Pos)
    ensures p in Members(n) <==> Norm(p) == 1 && GroupOf(p) == n
  {
  }

  predicate UpToGroup(p: Pos, n: int) {
    Norm(p) == 1 && GroupOf(p) <= n
  }

  lemma MembersDiffer(n: nat)
    ensures forall j, k :: 0 <= j < k < |Members(n)| ==> Members(n)[j] != Members(n)[k]
  {
  }

  lemma AddGroup(c: seq<Pos>, n: nat)
    requires Enumerates(c, p => UpToGroup(p, n - 1))
    ensures Enumerates(c + Members(n), p => UpToGroup(p, n))
  {
    var more := Members(n);
    MembersDiffer(n);
    forall p ensures UpToGroup(p, n) <==> UpToGroup(p, n - 1) || p in more {
      GroupIsComplete(n, p);
    }
    forall k | 0 <= k < |more| ensures !UpToGroup(more[k], n - 1) {
      GroupIsComplete(n, more[k]);
    }
    ListsMore(c, p => UpToGroup(p, n - 1), more, p => UpToGroup(p, n));
  }

  function Groups(n: nat): seq<Pos> {
    if n == 0 then Members(0) else Groups(n - 1) + Members(n)
  }

  lemma {:induction false} GroupsAreListed(n: nat)
    ensures Enumerates(Groups(n), p => UpToGroup(p, n))
  {
    if n == 0 {
      AddGroup([], 0);
      assert [] + Members(0) == Members(0);
    } else {
      GroupsAreListed(n - 1);
      AddGroup(Groups(n - 1), n);
    }
  }

  /** The positions at distance 1, those that share a face with the middle first. */
  method FirstShell() returns (c: seq<Pos>)
    ensures Enumerates(c, p => Norm(p) == 1) && |c| == 26
  {
    c := Members(0);
    // The faces are done.
    c := c + Members(1);
    c := c + Members(2);
    assert c == Groups(2);
    c := c + Members(3);
    // The edges are done.
    c := c + Members(4);
    assert c == Groups(4);
    c := c + Members(5);
    // The corners are done.
    GroupsAreListed(5);
    SameList(c, p => UpToGroup(p, 5), p => Norm(p) == 1);
  }

  /** The left and right positions of one row, up and, if that is another row, down. */
  function LeftRightRow(d: int, y: int, z: int): seq<Pos> {
    [Pos(d, y, z), Pos(-d, y, z)] + (if y != 0 then [Pos(d, -y, z), Pos(-d, -y, z)] else [])
  }

  function FrontBackRow(d: int, y: int, x: int): seq<Pos> {
    [Pos(x, y, d), Pos(x, y, -d)] + (if y != 0 then [Pos(x, -y, d), Pos(x, -y, -d)] else [])
  }

  lemma LeftRightStep(c: seq<Pos>, d: int, y: int, z: int)
    requires 0 <= y < d && -d <= z <= d && Enumerates(c, p => LeftRight(p, d, y, z))
    ensures Enumerates(c + LeftRightRow(d, y, z), p => LeftRight(p, d, y, z + 1))
  {
    ListsMore(c, p => LeftRight(p, d, y, z), LeftRightRow(d, y, z), p => LeftRight(p, d, y, z + 1));
  }

  lemma FrontBackStep(c: seq<Pos>, d: int, y: int, x: int)
    requires 0 <= y < d && -d < x < d && Enumerates(c, p => FrontBack(p, d, y, x))
    ensures Enumerates(c + FrontBackRow(d, y, x), p => FrontBack(p, d, y, x + 1))
  {
    ListsMore(c, p => FrontBack(p, d, y, x), FrontBackRow(d, y, x), p => FrontBack(p, d, y, x + 1));
  }

  /** How many positions the heights below `y` have. */
  function SidesSize(d: nat, y: nat): nat {
    if y == 0 then 0 else SidesSize(d, y - 1) + (if y == 1 then 8 * d else 16 * d)
  }

  lemma OneMoreTimes(a: int, n: int)
    ensures a * (n + 1) == a * n + a
  {
  }

  lemma {:induction false} SidesSizeClosed(d: nat, y: nat)
    ensures SidesSize(d, y) == if y == 0 then 0 else 16 * (d * y) - 8 * d
  {
    if y > 0 {
      SidesSizeClosed(d, y - 1);
      OneMoreTimes(d, y - 1);
    }
  }

  /** The side faces, from the middle height up and down. */
  method Sides(d: int) returns (c: seq<Pos>)
    requires d >= 2
    ensures Enumerates(c, p => Below(p, d, d)) && |c| == 16 * (d * d) - 8 * d
  {
    c := [];
    var y := 0;
    while y <= d - 1
      invariant 0 <= y <= d && Enumerates(c, p => Below(p, d, y)) && |c| == SidesSize(d, y)
    {
      c := Level(d, y, c);
      y := y + 1;
    }
    SidesSizeClosed(d, d);
  }

  /** One height of the side faces. */
  method Level(d: int, y: int, below: seq<Pos>) returns (c: seq<Pos>)
    requires 0 <= y < d && Enumerates(below, p => Below(p, d, y))
    ensures Enumerates(c, p => Below(p, d, y + 1)) && |c| == |below| + (if y == 0 then 8 * d else 16 * d)
  {
    c := below;
    SameList(c, p => Below(p, d, y), p => LeftRight(p, d, y, -d));
    var z: int := -d;
    // The two sides in x, with their edges.
    while z <= d
      invariant -d <= z <= d + 1 && Enumerates(c, p => LeftRight(p, d, y, z))
      invariant |c| == |below| + (if y == 0 then 2 * (z + d) else 4 * (z + d))
    {
      LeftRightStep(c, d, y, z);
      ghost var more := c + LeftRightRow(d, y, z);
      c := c + [Pos(d, y, z), Pos(-d, y, z)];
      if y != 0 {
        c := c + [Pos(d, -y, z), Pos(-d, -y, z)];
      }
      assert c == more;
      z := z + 1;
    }
    SameList(c, p => LeftRight(p, d, y, d + 1), p => FrontBack(p, d, y, -d + 1));
    var x: int := -d + 1;
    // The two sides in z, without the edges already listed.
    while x <= d - 1
      invariant -d + 1 <= x <= d && Enumerates(c, p => FrontBack(p, d, y, x))
      invariant |c| ==
                |below| + (if y == 0 then 2 * (2 * d + 1) + 2 * (x + d - 1) else 4 * (2 * d + 1) + 4 * (x + d - 1))
    {
      FrontBackStep(c, d, y, x);
      ghost var more := c + FrontBackRow(d, y, x);
      c := c + [Pos(x, y, d), Pos(x, y, -d)];
      if y != 0 {
        c := c + [Pos(x, -y, d), Pos(x, -y, -d)];
      }
      assert c == more;
      x := x + 1;
    }
    SameList(c, p => FrontBack(p, d, y, d), p => Below(p, d, y + 1));
  }

  lemma BottomTopStep(c: seq<Pos>, d: int, x: int, z: int)
    requires d >= 2 && -d <= x <= d && -d <= z <= d && Enumerates(c, p => BottomTop(p, d, x, z))
    ensures Enumerates(c + [Pos(x, -d, z), Pos(x, d, z)], p => BottomTop(p, d, x, z + 1))
  {
    ListsMore(c, p => BottomTop(p, d, x, z), [Pos(x, -d, z), Pos(x, d, z)], p => BottomTop(p, d, x, z + 1));
  }

  /** One row of the bottom and the top face. */
  method BottomTopRow(d: int, x: int, before: seq<Pos>) returns (c: seq<Pos>)
    requires d >= 2 && -d <= x <= d && Enumerates(before, p => BottomTop(p, d, x, -d))
    ensures Enumerates(c, p => BottomTop(p, d, x + 1, -d)) && |c| == |before| + 2 * (2 * d + 1)
  {
    c := before;
    var z: int := -d;
    while z <= d
      invariant -d <= z <= d + 1 && Enumerates(c, p => BottomTop(p, d, x, z))
      invariant |c| == |before| + 2 * (z + d)
    {
      BottomTopStep(c, d, x, z);
      c := c + [Pos(x, -d, z), Pos(x, d, z)];
      z := z + 1;
    }
    SameList(c, p => BottomTop(p, d, x, d + 1), p => BottomTop(p, d, x + 1, -d));
  }

  /** The bottom and the top face, borders included. */
  method BottomAndTop(d: int, sides: seq<Pos>) returns (c: seq<Pos>)
    requires d >= 2 && Enumerates(sides, p => Below(p, d, d)) && |sides| == 16 * (d * d) - 8 * d
    ensures Enumerates(c, p => Norm(p) == d) && |c| == ShellSize(d)
  {
    c := sides;
    SameList(c, p => Below(p, d, d), p => BottomTop(p, d, -d, -d));
    var x: int := -d;
    ghost var side, rows := 2 * d + 1, 0;
    while x <= d
      invariant -d <= x <= d + 1 && Enumerates(c, p => BottomTop(p, d, x, -d))
      invariant rows == x + d && |c| == |sides| + 2 * (side * rows)
    {
      c := BottomTopRow(d, x, c);
      OneMoreTimes(side, rows);
      rows := rows + 1;
      x := x + 1;
    }
    SameList(c, p => BottomTop(p, d, d + 1, -d), p => Norm(p) == d);
    SquareOfSide(d);
  }

  lemma SquareOfSide(d: int)
    ensures (2 * d + 1) * (2 * d + 1) == 4 * (d * d) + 4 * d + 1
  {
  }

  /** Shells once listed are kept. */
  class FacePositionCache {
    var cache: map<int, seq<Pos>>

    ghost predicate Valid()
      reads this
    {
      forall d :: d in cache ==> d >= 0 && Enumerates(cache[d], p => Norm(p) == d) && |cache[d]| == ShellSize(d)
    }

    constructor ()
      ensures Valid() && cache == map[]
    {
      cache := map[];
    }

    method GetFacePositions(d: U16) returns (endless: bool, c: seq<Pos>)
      requires Valid()
      modifies this
      ensures Valid()
              && (!endless ==> d in cache && c == cache[d] && Enumerates(c, p => Norm(p) == d) && |c| == ShellSize(d))
      ensures endless <==> d !in old(cache) && CountsForEver(d)
      ensures forall e :: e != d ==> (e in cache <==> e in old(cache)) && (e in cache ==> cache[e] == old(cache[e]))
    {
      if d in cache {
        return false, cache[d];
      }
      endless, c := GenerateFacePosition(d);
      if !endless {
        cache := cache[d := c];
      }
    }
  }
}
