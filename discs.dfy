// The first lab's 2-D sampler (package A_bilderzeugung): discs with a centre,
// a radius and a colour, and a sampler that paints the smallest disc covering
// a point, over a background colour.
module Discs {
  import opened Numerics
  import opened Linalg
  import opened Randomness

  /** DiscModel: its fields never change after construction; getRadius and getColor are the fields. */
  datatype DiscModel = DiscModel(midX: real, midY: real, radius: real, color: Color)

  /** coversPoint: the distance to the centre, through Math.sqrt, is at most the radius. */
  function CoversPoint(lib: Lib, d: DiscModel, x: real, y: real): bool
  {
    lib.sqrt((x - d.midX) * (x - d.midX) + (y - d.midY) * (y - d.midY)) <= d.radius
  }

  /** The squared distance from a disc's centre. */
  function SquaredDistance(d: DiscModel, x: real, y: real): (r: real)
    ensures 0.0 <= r
  {
    (x - d.midX) * (x - d.midX) + (y - d.midY) * (y - d.midY)
  }

  // ---------------------------------------------------------------------
  // Generating the discs

  /**
   * The disc made from six successive draws starting at base: the centre
   * scaled to the image, the radius to half its smaller side, then the
   * three colour channels, in the order Java evaluates them.
   */
  function MakeDisc(rnd: Stream, base: nat, width: int, height: int): DiscModel
  {
    DiscModel(ScaledDraw(rnd, base, width as real),
              ScaledDraw(rnd, base + 1, height as real),
              ScaledDraw(rnd, base + 2, Min(width as real, height as real)) / 2.0,
              Color(At(rnd, base + 3), At(rnd, base + 4), At(rnd, base + 5)))
  }

  /** Random.random() * b for the k-th draw. */
  function ScaledDraw(rnd: Stream, k: nat, b: real): real
  {
    At(rnd, k) * b
  }

  /** The first count discs, in creation order; disc number k uses draws 6k .. 6k + 5. */
  function Generated(rnd: Stream, count: nat, width: int, height: int): seq<DiscModel>
  {
    if count == 0 then [] else Generated(rnd, count - 1, width, height) + [MakeDisc(rnd, 6 * (count - 1), width, height)]
  }

  /** The loop of the constructor runs numbdiscs times, not at all when numbdiscs is negative. */
  function DiscCount(numbdiscs: int): nat
  {
    if numbdiscs < 0 then 0 else numbdiscs
  }

  // ---------------------------------------------------------------------
  // Sorting by radius

  predicate SortedByRadius(s: seq<DiscModel>)
  {
    forall i, j :: 0 <= i <= j < |s| ==> s[i].radius <= s[j].radius
  }

  /** Places d in front of the first disc whose radius is not smaller, so equal radii keep their order. */
  function Insert(d: DiscModel, s: seq<DiscModel>): seq<DiscModel>
  {
    if |s| == 0 then [d]
    else if d.radius <= s[0].radius then [d] + s
    else [s[0]] + Insert(d, s[1..])
  }

  /**
   * discs.sort by Double.compare on the radii: ArrayList.sort is stable, and
   * so is this insertion sort.
   */
  function SortByRadius(s: seq<DiscModel>): seq<DiscModel>
  {
    if |s| == 0 then [] else Insert(s[0], SortByRadius(s[1..]))
  }

  /** [d] when d has radius r, else nothing. */
  function Only(d: DiscModel, r: real): seq<DiscModel>
  {
    if d.radius == r then [d] else []
  }

  /** The discs of s with radius r, in their order in s. */
  function WithRadius(s: seq<DiscModel>, r: real): seq<DiscModel>
  {
    if |s| == 0 then []
    else Only(s[0], r) + WithRadius(s[1..], r)
  }

  // ---------------------------------------------------------------------
  // Choosing the colour

  /** The index of the first disc from position from on that covers (x, y). */
  function FirstCovering(lib: Lib, discs: seq<DiscModel>, x: real, y: real, from: nat): (r: Option<nat>)
    requires from <= |discs|
    ensures r.None? <==> forall i :: from <= i < |discs| ==> !CoversPoint(lib, discs[i], x, y)
    ensures r.Some? ==> from <= r.value < |discs| && CoversPoint(lib, discs[r.value], x, y)
    ensures r.Some? ==> forall i :: from <= i < r.value ==> !CoversPoint(lib, discs[i], x, y)
    decreases |discs| - from
  {
    if from == |discs| then None
    else if CoversPoint(lib, discs[from], x, y) then Some(from)
    else FirstCovering(lib, discs, x, y, from + 1)
  }

  /** getColor: the colour of the first covering disc, or the background. */
  function Paint(lib: Lib, discs: seq<DiscModel>, bgcolor: Color, x: real, y: real): Color
  {
    match FirstCovering(lib, discs, x, y, 0)
    case None => bgcolor
    case Some(k) => discs[k].color
  }

  class ColoredDiscs {
    const lib: Lib
    var discs: seq<DiscModel>
    const bgcolor: Color

    /** Draws numbdiscs discs from rnd and sorts them by radius. */
    constructor(lib: Lib, numbdiscs: int, width: int, height: int, bgcolor: Color, rnd: Stream)
      ensures this.lib == lib && this.bgcolor == bgcolor
      ensures discs == SortByRadius(Generated(rnd, DiscCount(numbdiscs), width, height))
    {
      var list: seq<DiscModel> := [];
      var i := 0;
      while i < numbdiscs
        invariant 0 <= i <= DiscCount(numbdiscs)
        invariant list == Generated(rnd, i, width, height)
      {
        list := list + [MakeDisc(rnd, 6 * i, width, height)];
        i := i + 1;
      }
      this.lib := lib;
      this.bgcolor := bgcolor;
      discs := SortByRadius(list);
    }

    /** getColor: scans the sorted list and returns at the first covering disc. */
    method GetColor(x: real, y: real) returns (c: Color)
      ensures c == Paint(lib, discs, bgcolor, x, y)
    {
      var i := 0;
      while i < |discs|
        invariant 0 <= i <= |discs|
        invariant FirstCovering(lib, discs, x, y, 0) == FirstCovering(lib, discs, x, y, i)
      {
        if CoversPoint(lib, discs[i], x, y) {
          return discs[i].color;
        }
        i := i + 1;
      }
      return bgcolor;
    }
  }

  // ---------------------------------------------------------------------
  // Lemmas: covering

  /** For a non-negative radius, covering is a comparison of squared distances. */
  lemma CoversIffSquared(lib: Lib, d: DiscModel, x: real, y: real)
    requires SqrtLaws(lib) && 0.0 <= d.radius
    ensures CoversPoint(lib, d, x, y) <==> SquaredDistance(d, x, y) <= d.radius * d.radius
  {
    SqrtAtMost(lib, SquaredDistance(d, x, y), d.radius);
  }

  /** A disc with negative radius covers nothing. */
  lemma NegativeRadiusCoversNothing(lib: Lib, d: DiscModel, x: real, y: real)
    requires SqrtLaws(lib) && d.radius < 0.0
    ensures !CoversPoint(lib, d, x, y)
  {
    assert 0.0 <= lib.sqrt(SquaredDistance(d, x, y));
  }

  /** The rim is part of the disc: a point at distance exactly the radius is covered. */
  lemma BoundaryCovered(lib: Lib, d: DiscModel, x: real, y: real)
    requires SqrtLaws(lib) && 0.0 <= d.radius
    requires SquaredDistance(d, x, y) == d.radius * d.radius
    ensures CoversPoint(lib, d, x, y)
  {
    SqrtUnique(lib, SquaredDistance(d, x, y), d.radius);
  }

  /** The point radius to the right of the centre is on the rim, and covered. */
  lemma RimPointCovered(lib: Lib, d: DiscModel)
    requires SqrtLaws(lib) && 0.0 <= d.radius
    ensures CoversPoint(lib, d, d.midX + d.radius, d.midY)
  {
    assert SquaredDistance(d, d.midX + d.radius, d.midY) == d.radius * d.radius;
    BoundaryCovered(lib, d, d.midX + d.radius, d.midY);
  }

  /** The centre is covered exactly when the radius is not negative. */
  lemma CentreCovered(lib: Lib, d: DiscModel)
    requires SqrtLaws(lib)
    ensures CoversPoint(lib, d, d.midX, d.midY) <==> 0.0 <= d.radius
  {
    assert SquaredDistance(d, d.midX, d.midY) == 0.0;
    SqrtUnique(lib, 0.0, 0.0);
  }

  // ---------------------------------------------------------------------
  // Lemmas: generating

  lemma {:induction false} GeneratedLength(rnd: Stream, count: nat, width: int, height: int)
    ensures |Generated(rnd, count, width, height)| == count
    ensures forall k :: 0 <= k < count ==> Generated(rnd, count, width, height)[k] == MakeDisc(rnd, 6 * k, width, height)
  {
    if count > 0 {
      GeneratedLength(rnd, count - 1, width, height);
    }
  }

  /** A draw in [0, 1) scaled by a positive b lies in [0, b). */
  lemma ScaledDrawBelow(rnd: Stream, k: nat, b: real)
    requires UnitValues(rnd) && 0.0 < b
    ensures 0.0 <= ScaledDraw(rnd, k, b) < b
  {
    AtUnit(rnd, k);
  }

  /** With draws in [0, 1), a disc's centre lies in the image and its radius in [0, min(width, height) / 2). */
  lemma MakeDiscInRange(rnd: Stream, base: nat, width: int, height: int)
    requires UnitValues(rnd) && 0 < width && 0 < height
    ensures 0.0 <= MakeDisc(rnd, base, width, height).midX < width as real
    ensures 0.0 <= MakeDisc(rnd, base, width, height).midY < height as real
    ensures 0.0 <= MakeDisc(rnd, base, width, height).radius < Min(width as real, height as real) / 2.0
  {
    ScaledDrawBelow(rnd, base, width as real);
    ScaledDrawBelow(rnd, base + 1, height as real);
    ScaledDrawBelow(rnd, base + 2, Min(width as real, height as real));
  }

  /** The constructor makes numbdiscs discs (none for a negative count), each in range. */
  lemma GeneratedInRange(rnd: Stream, numbdiscs: int, width: int, height: int)
    requires UnitValues(rnd) && 0 < width && 0 < height
    ensures var s := Generated(rnd, DiscCount(numbdiscs), width, height);
      |s| == (if numbdiscs < 0 then 0 else numbdiscs)
      && forall d :: d in s ==> 0.0 <= d.radius < Min(width as real, height as real) / 2.0
  {
    var s := Generated(rnd, DiscCount(numbdiscs), width, height);
    GeneratedLength(rnd, DiscCount(numbdiscs), width, height);
    forall d | d in s
      ensures 0.0 <= d.radius < Min(width as real, height as real) / 2.0
    {
      var k :| 0 <= k < |s| && s[k] == d;
      MakeDiscInRange(rnd, 6 * k, width, height);
    }
  }

  // ---------------------------------------------------------------------
  // Lemmas: sorting

  lemma {:induction false} InsertPermutes(d: DiscModel, s: seq<DiscModel>)
    ensures multiset(Insert(d, s)) == multiset{d} + multiset(s)
    ensures |Insert(d, s)| == |s| + 1
  {
    if |s| > 0 && d.radius > s[0].radius {
      InsertPermutes(d, s[1..]);
      assert s == [s[0]] + s[1..];
    }
  }

  /** Every disc of s has radius at least x. */
  predicate RadiiAtLeast(x: real, s: seq<DiscModel>)
  {
    forall i :: 0 <= i < |s| ==> x <= s[i].radius
  }

  lemma SortedCons(e: DiscModel, t: seq<DiscModel>)
    requires SortedByRadius(t) && RadiiAtLeast(e.radius, t)
    ensures SortedByRadius([e] + t)
  {
    var r := [e] + t;
    forall i, j | 0 <= i <= j < |r|
      ensures r[i].radius <= r[j].radius
    {
      if 0 < i {
        assert r[i] == t[i - 1] && r[j] == t[j - 1];
      } else if 0 < j {
        assert r[j] == t[j - 1];
      }
    }
  }

  lemma SortedTail(s: seq<DiscModel>)
    requires SortedByRadius(s) && 0 < |s|
    ensures SortedByRadius(s[1..]) && RadiiAtLeast(s[0].radius, s[1..])
  {
    var t := s[1..];
    assert forall i :: 0 <= i < |t| ==> t[i] == s[i + 1];
  }

  lemma {:induction false} InsertAtLeast(x: real, d: DiscModel, s: seq<DiscModel>)
    requires RadiiAtLeast(x, s) && x <= d.radius
    ensures RadiiAtLeast(x, Insert(d, s))
  {
    if |s| > 0 && d.radius > s[0].radius {
      var rest := Insert(d, s[1..]);
      assert RadiiAtLeast(x, s[1..]) by {
        assert forall i :: 0 <= i < |s| - 1 ==> s[1..][i] == s[i + 1];
      }
      InsertAtLeast(x, d, s[1..]);
      var r := [s[0]] + rest;
      assert forall i :: 0 < i < |r| ==> r[i] == rest[i - 1];
    }
  }

  lemma {:induction false} InsertSorted(d: DiscModel, s: seq<DiscModel>)
    requires SortedByRadius(s)
    ensures SortedByRadius(Insert(d, s))
  {
    if |s| == 0 {
      SortedCons(d, s);
    } else {
      SortedTail(s);
      if d.radius <= s[0].radius {
        assert RadiiAtLeast(d.radius, s);
        SortedCons(d, s);
      } else {
        InsertSorted(d, s[1..]);
        InsertAtLeast(s[0].radius, d, s[1..]);
        SortedCons(s[0], Insert(d, s[1..]));
      }
    }
  }

  /** After the sort the discs are in non-decreasing order of radius. */
  lemma {:induction false} SortSorted(s: seq<DiscModel>)
    ensures SortedByRadius(SortByRadius(s))
  {
    if |s| > 0 {
      SortSorted(s[1..]);
      InsertSorted(s[0], SortByRadius(s[1..]));
    }
  }

  /** The sort keeps every disc exactly as often as it occurs. */
  lemma {:induction false} SortPermutes(s: seq<DiscModel>)
    ensures multiset(SortByRadius(s)) == multiset(s)
  {
    if |s| > 0 {
      SortPermutes(s[1..]);
      InsertPermutes(s[0], SortByRadius(s[1..]));
      assert s == [s[0]] + s[1..];
    }
  }

  lemma WithRadiusCons(e: DiscModel, t: seq<DiscModel>, r: real)
    ensures WithRadius([e] + t, r) == Only(e, r) + WithRadius(t, r)
  {
    assert ([e] + t)[1..] == t;
  }

  lemma {:induction false} InsertStable(d: DiscModel, s: seq<DiscModel>, r: real)
    ensures WithRadius(Insert(d, s), r) == Only(d, r) + WithRadius(s, r)
  {
    if |s| == 0 {
      WithRadiusCons(d, s, r);
      assert [d] + s == [d];
    } else if d.radius <= s[0].radius {
      WithRadiusCons(d, s, r);
    } else {
      var rest := Insert(d, s[1..]);
      InsertStable(d, s[1..], r);
      WithRadiusCons(s[0], rest, r);
      WithRadiusCons(s[0], s[1..], r);
      assert s == [s[0]] + s[1..];
      // d and s[0] differ in radius, so at most one of them is kept
      if d.radius == r {
        assert Only(s[0], r) == [];
      } else {
        assert Only(d, r) == [];
      }
    }
  }

  /** Stability: the discs of any one radius keep their relative order. */
  lemma {:induction false} SortStable(s: seq<DiscModel>, r: real)
    ensures WithRadius(SortByRadius(s), r) == WithRadius(s, r)
  {
    if |s| > 0 {
      SortStable(s[1..], r);
      InsertStable(s[0], SortByRadius(s[1..]), r);
      WithRadiusCons(s[0], s[1..], r);
      assert s == [s[0]] + s[1..];
    }
  }

  // ---------------------------------------------------------------------
  // Lemmas: the colour of a point

  /** The colour is the background exactly when no disc covers the point. */
  lemma PaintBackground(lib: Lib, discs: seq<DiscModel>, bgcolor: Color, x: real, y: real)
    requires forall d :: d in discs ==> !CoversPoint(lib, d, x, y)
    ensures Paint(lib, discs, bgcolor, x, y) == bgcolor
  {
    assert forall i :: 0 <= i < |discs| ==> discs[i] in discs;
  }

  /** In a list sorted by radius, the first covering disc has the smallest radius among all covering discs. */
  lemma FirstIsSmallest(lib: Lib, discs: seq<DiscModel>, x: real, y: real)
    requires SortedByRadius(discs)
    ensures var r := FirstCovering(lib, discs, x, y, 0);
      r.Some? ==> forall d :: d in discs && CoversPoint(lib, d, x, y) ==> discs[r.value].radius <= d.radius
  {
    var r := FirstCovering(lib, discs, x, y, 0);
    if r.Some? {
      forall d | d in discs && CoversPoint(lib, d, x, y)
        ensures discs[r.value].radius <= d.radius
      {
        var i :| 0 <= i < |discs| && discs[i] == d;
        assert r.value <= i;
      }
    }
  }

  /**
   * A constructed sampler paints a covered point with the colour of a
   * covering disc whose radius is the least among all generated discs that
   * cover the point, and with the background when none covers it.
   */
  lemma ColoredDiscsPaint(lib: Lib, rnd: Stream, numbdiscs: int, width: int, height: int, bgcolor: Color, x: real, y: real)
    ensures var made := Generated(rnd, DiscCount(numbdiscs), width, height);
      var c := Paint(lib, SortByRadius(made), bgcolor, x, y);
      ((forall d :: d in made ==> !CoversPoint(lib, d, x, y)) ==> c == bgcolor)
      && ((exists d :: d in made && CoversPoint(lib, d, x, y)) ==>
            exists w :: w in made && CoversPoint(lib, w, x, y) && c == w.color
              && forall d :: d in made && CoversPoint(lib, d, x, y) ==> w.radius <= d.radius)
  {
    var made := Generated(rnd, DiscCount(numbdiscs), width, height);
    var sorted := SortByRadius(made);
    SortPermutes(made);
    SortSorted(made);
    assert forall d :: d in made <==> d in sorted by {
      forall d
        ensures d in made <==> d in sorted
      {
        assert d in made <==> d in multiset(made);
        assert d in sorted <==> d in multiset(sorted);
      }
    }
    var r := FirstCovering(lib, sorted, x, y, 0);
    if r.None? {
      forall d | d in made
        ensures !CoversPoint(lib, d, x, y)
      {
        var i :| 0 <= i < |sorted| && sorted[i] == d;
      }
    } else {
      FirstIsSmallest(lib, sorted, x, y);
      var w := sorted[r.value];
      assert w in sorted;
      assert w in made && CoversPoint(lib, w, x, y);
    }
  }
}
