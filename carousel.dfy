/**
 The per-project image carousel of the portfolio page.

 The page keeps one map from a project's position in the project list to the
 index of the image currently shown for that project. A project with no entry
 shows image 0. The arrows step the index forward or back modulo the
 project's image count, and the indicator dots set it directly. Every update
 copies the old map and overwrites a single key, so the other projects keep
 their indices.

 The functions here are the updaters themselves (pure: old map in, new map
 out); the class in module App applies them to the page's state.
 */
module Carousel {

  /** The index map: project position -> active image index. */
  type IndexMap = map<int, int>

  /**
   JavaScript's `%`: the remainder of truncating division, so its sign
   follows the dividend. Only positive divisors occur on the page.
   */
  function JsRem(a: int, n: int): (r: int)
    requires n > 0
    ensures -n < r < n
    ensures a >= 0 ==> r >= 0
    ensures a <= 0 ==> r <= 0
    ensures (a - r) % n == 0
  {
    if a >= 0 then
      ModUnique(a - a % n, n, a / n, 0);
      a % n
    else
      var q := (-a) / n;
      ModUnique(a + (-a) % n, n, -q, 0);
      -((-a) % n)
  }

  /** `d * n` is at least `n` once `d` is a positive multiplier. */
  lemma MulAtLeast(d: int, n: int)
    requires d >= 1 && n > 0
    ensures d * n >= n
  {
    assert (d - 1) * n >= 0;
    assert d * n == (d - 1) * n + n;
  }

  /** Euclidean division is unique: a quotient and an in-range remainder determine `%` and `/`. */
  lemma ModUnique(x: int, n: int, q: int, r: int)
    requires n > 0 && 0 <= r < n && x == q * n + r
    ensures x % n == r && x / n == q
  {
    var q0, r0 := x / n, x % n;
    assert x == q0 * n + r0;
    var d := q0 - q;
    assert d * n == r - r0 by { assert q0 * n - q * n == (q0 - q) * n; }
    if d >= 1 {
      MulAtLeast(d, n);
    } else if d <= -1 {
      MulAtLeast(-d, n);
    }
  }

  /** With a non-negative dividend, JavaScript's `%` and Dafny's agree. */
  lemma JsRemOfNonNegative(a: int, n: int)
    requires n > 0 && a >= 0
    ensures JsRem(a, n) == a % n
  {
  }

  /**
   The active index of project `p`: `activeImageIndices[p] || 0`.
   A missing key (undefined) and a stored 0 both read as 0.
   */
  function ActiveIndex(m: IndexMap, p: int): (r: int)
    ensures p in m ==> r == m[p]
    ensures p !in m ==> r == 0
  {
    if p in m then m[p] else 0
  }

  /**
   The index the right arrow moves to: `(current + 1) % totalImages`.
   From a valid index it is the next image, or image 0 after the last one.
   */
  function NextIndex(current: int, totalImages: int): (r: int)
    requires totalImages > 0
    ensures current >= -1 ==> 0 <= r < totalImages
    ensures 0 <= current < totalImages ==> r == if current == totalImages - 1 then 0 else current + 1
  {
    if 0 <= current < totalImages then
      if current == totalImages - 1 then
        ModUnique(current + 1, totalImages, 1, 0);
        JsRem(current + 1, totalImages)
      else
        ModUnique(current + 1, totalImages, 0, current + 1);
        JsRem(current + 1, totalImages)
    else
      JsRem(current + 1, totalImages)
  }

  /**
   The index the left arrow moves to: `(current - 1 + totalImages) % totalImages`.
   From a valid index it is the previous image, or the last image from image 0.
   */
  function PrevIndex(current: int, totalImages: int): (r: int)
    requires totalImages > 0
    ensures current >= 1 - totalImages ==> 0 <= r < totalImages
    ensures 0 <= current < totalImages ==> r == if current == 0 then totalImages - 1 else current - 1
  {
    if 0 <= current < totalImages then
      if current == 0 then
        ModUnique(current - 1 + totalImages, totalImages, 0, totalImages - 1);
        JsRem(current - 1 + totalImages, totalImages)
      else
        ModUnique(current - 1 + totalImages, totalImages, 1, current - 1);
        JsRem(current - 1 + totalImages, totalImages)
    else
      JsRem(current - 1 + totalImages, totalImages)
  }

  /** `nextImage`: copy the map and overwrite the entry of project `p`. */
  function Next(m: IndexMap, p: int, totalImages: int): (r: IndexMap)
    requires totalImages > 0
    ensures r.Keys == m.Keys + {p}
    ensures forall q :: q in m && q != p ==> r[q] == m[q]
    ensures ActiveIndex(m, p) >= -1 ==> 0 <= r[p] < totalImages
  {
    m[p := NextIndex(ActiveIndex(m, p), totalImages)]
  }

  /** `prevImage`: copy the map and overwrite the entry of project `p`. */
  function Prev(m: IndexMap, p: int, totalImages: int): (r: IndexMap)
    requires totalImages > 0
    ensures r.Keys == m.Keys + {p}
    ensures forall q :: q in m && q != p ==> r[q] == m[q]
    ensures ActiveIndex(m, p) >= 1 - totalImages ==> 0 <= r[p] < totalImages
  {
    m[p := PrevIndex(ActiveIndex(m, p), totalImages)]
  }

  /** An indicator dot: copy the map and set project `p` to `imgIndex`. */
  function Jump(m: IndexMap, p: int, imgIndex: int): (r: IndexMap)
    ensures r.Keys == m.Keys + {p}
    ensures forall q :: q in m && q != p ==> r[q] == m[q]
    ensures ActiveIndex(r, p) == imgIndex
  {
    m[p := imgIndex]
  }

  /** The left arrow undoes the right arrow and the right arrow undoes the left one. */
  lemma {:induction false} PrevNextInverse(i: int, n: int)
    requires 0 <= i < n
    ensures PrevIndex(NextIndex(i, n), n) == i
    ensures NextIndex(PrevIndex(i, n), n) == i
  {
  }

  /**
   From an unset key (read as 0) the left arrow wraps to the last image on
   the first click.
   */
  lemma PrevFromUnsetWraps(m: IndexMap, p: int, n: int)
    requires n > 0 && p !in m
    ensures ActiveIndex(Prev(m, p, n), p) == n - 1
  {
  }

  /** The same inverse law on the whole map, for a project whose index is valid. */
  lemma {:induction false} PrevNextInverseOnMap(m: IndexMap, p: int, n: int)
    requires n > 0 && 0 <= ActiveIndex(m, p) < n
    ensures forall q :: ActiveIndex(Prev(Next(m, p, n), p, n), q) == ActiveIndex(m, q)
    ensures forall q :: ActiveIndex(Next(Prev(m, p, n), p, n), q) == ActiveIndex(m, q)
    ensures p in m ==> Prev(Next(m, p, n), p, n) == m && Next(Prev(m, p, n), p, n) == m
  {
    PrevNextInverse(ActiveIndex(m, p), n);
  }

  /** `count` clicks of the right arrow on project `p`. */
  function NextTimes(m: IndexMap, p: int, n: int, count: nat): (r: IndexMap)
    requires n > 0
    decreases count
  {
    if count == 0 then m else Next(NextTimes(m, p, n, count - 1), p, n)
  }

  /** Adding one to a residue and reducing again is reducing the successor. */
  lemma ModSuccessor(x: int, n: int)
    requires n > 0 && x >= 0
    ensures NextIndex(x % n, n) == (x + 1) % n
  {
    var q, r := x / n, x % n;
    assert x == q * n + r;
    if r == n - 1 {
      assert x + 1 == (q + 1) * n + 0;
      ModUnique(x + 1, n, q + 1, 0);
    } else {
      ModUnique(x + 1, n, q, r + 1);
    }
  }

  /**
   After `count` clicks of the right arrow a project that started at a valid
   index `i` shows image `(i + count) mod n`, and no other project moved.
   */
  lemma {:induction false} NextTimesIndex(m: IndexMap, p: int, n: int, count: nat)
    requires n > 0 && 0 <= ActiveIndex(m, p) < n
    ensures ActiveIndex(NextTimes(m, p, n, count), p) == (ActiveIndex(m, p) + count) % n
    ensures forall q :: q != p ==> ActiveIndex(NextTimes(m, p, n, count), q) == ActiveIndex(m, q)
  {
    var i := ActiveIndex(m, p);
    if count == 0 {
      ModUnique(i, n, 0, i);
    } else {
      NextTimesIndex(m, p, n, count - 1);
      var before := NextTimes(m, p, n, count - 1);
      assert ActiveIndex(before, p) == (i + count - 1) % n;
      ModSuccessor(i + count - 1, n);
    }
  }

  /**
   `n` clicks of the right arrow on a project with `n` images bring it back
   to the image it started on; if the project already had an entry, the map
   is exactly what it was.
   */
  lemma {:induction false} NextCycle(m: IndexMap, p: int, n: int)
    requires n > 0 && 0 <= ActiveIndex(m, p) < n
    ensures forall q :: ActiveIndex(NextTimes(m, p, n, n), q) == ActiveIndex(m, q)
    ensures p in m ==> NextTimes(m, p, n, n) == m
  {
    var i := ActiveIndex(m, p);
    NextTimesIndex(m, p, n, n);
    ModUnique(i + n, n, 1, i);
    var r := NextTimes(m, p, n, n);
    NextTimesKeys(m, p, n, n);
    if p in m {
      assert r.Keys == m.Keys;
      forall q | q in m
        ensures r[q] == m[q]
      {
        assert ActiveIndex(r, q) == ActiveIndex(m, q);
      }
    }
  }

  /** Clicking the right arrow adds at most the project's own key to the map. */
  lemma {:induction false} NextTimesKeys(m: IndexMap, p: int, n: int, count: nat)
    requires n > 0
    ensures NextTimes(m, p, n, count).Keys == if count == 0 then m.Keys else m.Keys + {p}
  {
    if count > 0 {
      NextTimesKeys(m, p, n, count - 1);
    }
  }

  /**
   The carousel invariant: every recorded project is one of the page's
   projects, and its index is one of that project's images.
   `imageCounts[p]` is the number of images of project `p`.
   */
  ghost predicate InRange(m: IndexMap, imageCounts: seq<nat>)
  {
    forall p :: p in m ==> 0 <= p < |imageCounts| && 0 <= m[p] < imageCounts[p]
  }

  /** The arrows and the dots keep the carousel invariant. */
  lemma UpdatesKeepInRange(m: IndexMap, imageCounts: seq<nat>, p: int, imgIndex: int)
    requires InRange(m, imageCounts)
    requires 0 <= p < |imageCounts| && imageCounts[p] > 0
    ensures InRange(Next(m, p, imageCounts[p]), imageCounts)
    ensures InRange(Prev(m, p, imageCounts[p]), imageCounts)
    ensures 0 <= imgIndex < imageCounts[p] ==> InRange(Jump(m, p, imgIndex), imageCounts)
  {
  }

  /**
   Image `imgIndex` of project `p` is the one drawn opaque: the one equal to
   the active index. Through the default-0 read, that is the stored index of a
   recorded project and image 0 of one with no entry.
   */
  predicate IsShown(m: IndexMap, p: int, imgIndex: int): (r: bool)
    ensures r <==> (p in m && m[p] == imgIndex) || (p !in m && imgIndex == 0)
  {
    imgIndex == ActiveIndex(m, p)
  }

  /** Under the invariant one of a project's own images is the one shown. */
  lemma ShownImageExists(m: IndexMap, imageCounts: seq<nat>, p: int)
    requires InRange(m, imageCounts)
    requires 0 <= p < |imageCounts| && imageCounts[p] > 0
    ensures exists j :: 0 <= j < imageCounts[p] && IsShown(m, p, j)
  {
    assert 0 <= ActiveIndex(m, p) < imageCounts[p] && IsShown(m, p, ActiveIndex(m, p));
  }
}
