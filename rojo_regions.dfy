/**
 * The geometry of extractor_rojo.py: which bounding rectangles of red
 * contours become candidate areas (`detectar_areas_rojas` after
 * `cv2.boundingRect`), the order they are returned in, and how an area is
 * widened before OCR (`expandir_area_roja`).
 */
module RojoRegions {

  /** A rectangle `(x, y, ancho, alto)` in image pixels. */
  datatype Rect = Rect(x: int, y: int, w: int, h: int)

  // ---------------------------------------------------------------------
  // The red mask

  /** OpenCV's `inRange` on one HSV pixel: every channel within its bounds. */
  predicate InRange(h: int, s: int, v: int, lo: (int, int, int), hi: (int, int, int)) {
    lo.0 <= h <= hi.0 && lo.1 <= s <= hi.1 && lo.2 <= v <= hi.2
  }

  /**
   * A pixel is in the combined mask `bitwise_or(mask1, mask2)`: the union of
   * the low-hue range [0,10] and the high-hue range [170,180], each with
   * saturation and value at least 50.
   */
  predicate IsRedPixel(h: int, s: int, v: int) {
    InRange(h, s, v, (0, 50, 50), (10, 255, 255)) || InRange(h, s, v, (170, 50, 50), (180, 255, 255))
  }

  // ---------------------------------------------------------------------
  // Candidate areas

  /** The noise filter: wider than 20 and taller than 5 pixels. */
  predicate IsCandidate(r: Rect) { r.w > 20 && r.h > 5 }

  /** The rectangles the filter loop appends, in contour order. */
  function Kept(s: seq<Rect>): seq<Rect> {
    if s == [] then []
    else Kept(s[..|s| - 1]) + (if IsCandidate(s[|s| - 1]) then [s[|s| - 1]] else [])
  }

  /** A rectangle is kept exactly as many times as it occurs, if it passes the filter, and never otherwise. */
  lemma {:induction false} KeptCount(s: seq<Rect>, r: Rect)
    ensures multiset(Kept(s))[r] == if IsCandidate(r) then multiset(s)[r] else 0
  {
    if s != [] {
      KeptCount(s[..|s| - 1], r);
      assert s == s[..|s| - 1] + [s[|s| - 1]];
    }
  }

  /** Membership in the kept list: the filter holds and the rectangle was among the inputs. */
  lemma KeptMembers(s: seq<Rect>)
    ensures forall r :: r in Kept(s) <==> r in s && IsCandidate(r)
  {
    forall r ensures r in Kept(s) <==> r in s && IsCandidate(r) {
      KeptCount(s, r);
      assert r in Kept(s) <==> multiset(Kept(s))[r] > 0;
      assert r in s <==> multiset(s)[r] > 0;
    }
  }

  /** `r` is ordered by `y`, top to bottom. */
  ghost predicate SortedByY(r: seq<Rect>) {
    forall i, j :: 0 <= i < j < |r| ==> r[i].y <= r[j].y
  }

  /** The rectangles of `s` whose top is at `y`, in the order of `s`. */
  function AtRow(s: seq<Rect>, y: int): seq<Rect> {
    if s == [] then [] else (if s[0].y == y then [s[0]] else []) + AtRow(s[1..], y)
  }

  /** Insertion of `r` in front of the first rectangle that is not above it. */
  function InsertByY(r: Rect, s: seq<Rect>): seq<Rect> {
    if s == [] || r.y <= s[0].y then [r] + s else [s[0]] + InsertByY(r, s[1..])
  }

  lemma {:induction false} InsertByYPermutes(r: Rect, s: seq<Rect>)
    ensures multiset(InsertByY(r, s)) == multiset(s) + multiset{r}
  {
    if s != [] && r.y > s[0].y {
      InsertByYPermutes(r, s[1..]);
      assert s == [s[0]] + s[1..];
    }
  }

  lemma {:induction false} InsertByYSorted(r: Rect, s: seq<Rect>)
    requires SortedByY(s)
    ensures SortedByY(InsertByY(r, s))
  {
    if s != [] && r.y > s[0].y {
      var rest := InsertByY(r, s[1..]);
      var ins := [s[0]] + rest;
      InsertByYSorted(r, s[1..]);
      InsertByYAbove(r, s[1..], s[0].y);
      forall i, j | 0 <= i < j < |ins| ensures ins[i].y <= ins[j].y {
        assert ins[j] == rest[j - 1];
        if i > 0 { assert ins[i] == rest[i - 1]; }
      }
    }
  }

  /** Inserting a rectangle no higher than `lo` into rectangles no higher than `lo` keeps them all there. */
  lemma {:induction false} InsertByYAbove(r: Rect, s: seq<Rect>, lo: int)
    requires lo <= r.y && forall k :: 0 <= k < |s| ==> lo <= s[k].y
    ensures forall k :: 0 <= k < |InsertByY(r, s)| ==> lo <= InsertByY(r, s)[k].y
  {
    if s != [] && r.y > s[0].y {
      InsertByYAbove(r, s[1..], lo);
      var rest := InsertByY(r, s[1..]);
      forall k | 0 <= k < |rest| + 1 ensures lo <= ([s[0]] + rest)[k].y {
        if k > 0 { assert ([s[0]] + rest)[k] == rest[k - 1]; }
      }
    }
  }

  lemma {:induction false} InsertByYAtRow(r: Rect, s: seq<Rect>, y: int)
    ensures AtRow(InsertByY(r, s), y) == (if r.y == y then [r] else []) + AtRow(s, y)
  {
    var ins := InsertByY(r, s);
    if s == [] || r.y <= s[0].y {
      assert ins[1..] == s;
    } else {
      var rest := InsertByY(r, s[1..]);
      InsertByYAtRow(r, s[1..], y);
      assert ins[0] == s[0] && ins[1..] == rest;
      var head := if s[0].y == y then [s[0]] else [];
      assert AtRow(ins, y) == head + AtRow(rest, y);
      assert AtRow(s, y) == head + AtRow(s[1..], y);
      if r.y == y {
        assert head == [];
      }
    }
  }

  /**
   * `areas_rojas.sort(key=lambda a: a[1])`: Python's sort is stable, so the
   * result is ordered by `y`, holds the same rectangles, and keeps the
   * contour order among rectangles at the same height.
   */
  function SortByY(s: seq<Rect>): (r: seq<Rect>)
    ensures multiset(r) == multiset(s)
    ensures SortedByY(r)
    ensures forall y :: AtRow(r, y) == AtRow(s, y)
  {
    if s == [] then []
    else
      var rest := SortByY(s[1..]);
      InsertByYPermutes(s[0], rest);
      InsertByYSorted(s[0], rest);
      InsertByYRows(s, rest);
      assert s == [s[0]] + s[1..];
      InsertByY(s[0], rest)
  }

  /** Inserting the head into a list with the same rows as the tail gives the rows of the whole list. */
  lemma InsertByYRows(s: seq<Rect>, rest: seq<Rect>)
    requires s != [] && forall y :: AtRow(rest, y) == AtRow(s[1..], y)
    ensures forall y :: AtRow(InsertByY(s[0], rest), y) == AtRow(s, y)
  {
    forall y ensures AtRow(InsertByY(s[0], rest), y) == AtRow(s, y) {
      InsertByYAtRow(s[0], rest, y);
    }
  }

  /**
   * `detectar_areas_rojas` from the bounding rectangles of the contours on:
   * the candidates, sorted top to bottom.
   */
  method DetectCandidates(bounds: seq<Rect>) returns (areas: seq<Rect>)
    ensures areas == SortByY(Kept(bounds))
    ensures forall r :: r in areas <==> r in bounds && IsCandidate(r)
    ensures forall r :: multiset(areas)[r] == if IsCandidate(r) then multiset(bounds)[r] else 0
    ensures SortedByY(areas)
    ensures forall y :: AtRow(areas, y) == AtRow(Kept(bounds), y)
  {
    var kept: seq<Rect> := [];
    for i := 0 to |bounds|
      invariant kept == Kept(bounds[..i])
    {
      assert bounds[..i + 1][..i] == bounds[..i];
      if IsCandidate(bounds[i]) {
        kept := kept + [bounds[i]];
      }
    }
    assert bounds[..|bounds|] == bounds;
    areas := SortByY(kept);
    KeptMembers(bounds);
    forall r ensures multiset(areas)[r] == if IsCandidate(r) then multiset(bounds)[r] else 0 {
      KeptCount(bounds, r);
    }
    forall r ensures r in areas <==> r in kept {
      assert r in areas <==> r in multiset(areas);
      assert r in kept <==> r in multiset(kept);
    }
  }

  // ---------------------------------------------------------------------
  // Expansion

  const ExpansionX: int := 10
  const ExpansionY: int := 5

  function Max(a: int, b: int): int { if a >= b then a else b }

  function Min(a: int, b: int): int { if a <= b then a else b }

  /** The rectangle lies inside a `width` by `height` image. */
  predicate Inside(r: Rect, width: int, height: int) {
    0 <= r.x && 0 <= r.y && 0 <= r.w && 0 <= r.h && r.x + r.w <= width && r.y + r.h <= height
  }

  /**
   * `expandir_area_roja`: `ex` pixels to each side, `3*ey` pixels upwards,
   * and `ey` pixels of extra height, clamped to the image.
   */
  function Expand(r: Rect, width: int, height: int, ex: int, ey: int): (e: Rect)
    ensures e.x >= 0 && e.y >= 0 && e.x + e.w <= width && e.y + e.h <= height
    ensures Inside(r, width, height) && ex >= 0 && ey >= 0 ==> Inside(e, width, height)
    ensures r.x >= ex && r.x + r.w + ex <= width ==> e.x == r.x - ex && e.w == r.w + 2 * ex
    ensures r.y >= 3 * ey && r.y + r.h - 2 * ey <= height ==> e.y == r.y - 3 * ey && e.h == r.h + ey
  {
    var nx := Max(0, r.x - ex);
    var nw := Min(width - nx, r.w + ex * 2);
    var ny := Max(0, r.y - ey * 3);
    var nh := Min(height - ny, r.h + ey);
    Rect(nx, ny, nw, nh)
  }

  /** Horizontally the expanded area covers the original one. */
  lemma ExpandCoversHorizontally(r: Rect, width: int, height: int, ex: int, ey: int)
    requires 0 <= r.x && r.x + r.w <= width && ex >= 0
    ensures Expand(r, width, height, ex, ey).x <= r.x
    ensures r.x + r.w <= Expand(r, width, height, ex, ey).x + Expand(r, width, height, ex, ey).w
  {
  }

  /** Away from the top edge, the bottom of the expanded area is `2*ey` pixels above the original bottom. */
  lemma ExpandBottomRises(r: Rect, width: int, height: int, ex: int, ey: int)
    requires r.y >= 3 * ey && r.y + r.h <= height && ey >= 0
    ensures Expand(r, width, height, ex, ey).y + Expand(r, width, height, ex, ey).h == r.y + r.h - 2 * ey
  {
  }

  /**
   * For an area inside the image and any positive `ey`, the expanded area
   * covers the original vertically exactly when the original top is at most
   * `ey`, that is, only when the upward move is clamped at the image top.
   */
  lemma ExpandCoversVerticallyIff(r: Rect, width: int, height: int, ex: int, ey: int)
    requires Inside(r, width, height) && ey > 0
    ensures var e := Expand(r, width, height, ex, ey);
      (e.y <= r.y && r.y + r.h <= e.y + e.h) <==> r.y <= ey
  {
  }

  /** With the default expansion of 5 pixels, only areas whose top is within 5 pixels of the image top stay covered. */
  lemma DefaultExpansionCoversIff(r: Rect, width: int, height: int)
    requires Inside(r, width, height)
    ensures var e := Expand(r, width, height, ExpansionX, ExpansionY);
      (e.y <= r.y && r.y + r.h <= e.y + e.h) <==> r.y <= 5
  {
    ExpandCoversVerticallyIff(r, width, height, ExpansionX, ExpansionY);
  }
}
