/** Integer rectangles and the objects of the game (lab2/main.py:9, 54-57).
    The overlap, containment and clamping predicates are stated here on their own terms:
    strict overlap on both axes (touching edges do not collide), half-open point containment,
    and clamping that moves a rectangle the least distance needed to lie inside an area. */
module Rects {

  const SCREEN_WIDTH: nat := 800
  const SCREEN_HEIGHT: nat := 600

  /** An axis-aligned rectangle: top-left corner (x, y), width w and height h; y grows downwards. */
  datatype Rect = Rect(x: int, y: int, w: nat, h: nat) {
    function Right(): int { x + w }
    function Bottom(): int { y + h }
    function CenterX(): int { x + w / 2 }
  }

  const SCREEN: Rect := Rect(0, 0, SCREEN_WIDTH, SCREEN_HEIGHT)

  /** A rectangle with a scalar speed: the ship, a bullet, an asteroid or a crystal. */
  datatype GameObject = GameObject(rect: Rect, speed: int)

  /** The object built by `GameObject(x, y, width, height)` with the default speed 0. */
  function NewObject(x: int, y: int, w: nat, h: nat): (o: GameObject)
    ensures o.rect.x == x && o.rect.y == y && o.rect.w == w && o.rect.h == h && o.speed == 0
  {
    GameObject(Rect(x, y, w, h), 0)
  }

  /** The two rectangles share interior area on both axes. */
  predicate Collides(a: Rect, b: Rect) {
    a.x < b.Right() && b.x < a.Right() && a.y < b.Bottom() && b.y < a.Bottom()
  }

  /** The point (px, py) lies in the half-open rectangle [x, x+w) x [y, y+h). */
  predicate ContainsPoint(r: Rect, px: int, py: int) {
    r.x <= px < r.Right() && r.y <= py < r.Bottom()
  }

  /** r lies entirely inside area. */
  predicate Inside(r: Rect, area: Rect) {
    area.x <= r.x && r.Right() <= area.Right() && area.y <= r.y && r.Bottom() <= area.Bottom()
  }

  /** One axis of clamping a segment [pos, pos+size) into [lo, lo+extent): a segment that fits
      is moved the least distance that puts it inside; a segment that does not fit is centred. */
  function ClampAxis(pos: int, size: nat, lo: int, extent: nat): (p: int)
    ensures size <= extent ==> lo <= p && p + size <= lo + extent
    ensures size <= extent && lo <= pos && pos + size <= lo + extent ==> p == pos
    ensures size <= extent && pos < lo ==> p == lo
    ensures size <= extent && pos + size > lo + extent ==> p + size == lo + extent
  {
    if size >= extent then lo + extent / 2 - size / 2
    else if pos < lo then lo
    else if pos + size > lo + extent then lo + extent - size
    else pos
  }

  /** `rect.clamp_ip(area)`: the rectangle moved (never resized) so that it lies inside area. */
  function ClampInto(r: Rect, area: Rect): (c: Rect)
    ensures c.w == r.w && c.h == r.h
    ensures r.w <= area.w && r.h <= area.h ==> Inside(c, area)
    ensures Inside(r, area) ==> c == r
  {
    Rect(ClampAxis(r.x, r.w, area.x, area.w), ClampAxis(r.y, r.h, area.y, area.h), r.w, r.h)
  }

  /** Removing the element at index k, which is what `list.remove(obj)` does to the list that
      holds obj at index k. */
  function RemoveAt<T>(s: seq<T>, k: nat): (r: seq<T>)
    requires k < |s|
    ensures |r| == |s| - 1
    ensures forall i :: 0 <= i < k ==> r[i] == s[i]
    ensures forall i :: k <= i < |r| ==> r[i] == s[i + 1]
  {
    s[..k] + s[k + 1..]
  }

  /** a is a subsequence of b: b with some elements deleted, order kept. */
  predicate IsSubseq<T(==)>(a: seq<T>, b: seq<T>)
    decreases |b|
  {
    if a == [] then true
    else if b == [] then false
    else (a[0] == b[0] && IsSubseq(a[1..], b[1..])) || IsSubseq(a, b[1..])
  }

  lemma {:induction false} SubseqLength<T>(a: seq<T>, b: seq<T>)
    requires IsSubseq(a, b)
    ensures |a| <= |b|
    decreases |b|
  {
    if a != [] {
      if a[0] == b[0] && IsSubseq(a[1..], b[1..]) {
        SubseqLength(a[1..], b[1..]);
      } else {
        SubseqLength(a, b[1..]);
      }
    }
  }

  lemma {:induction false} SubseqRefl<T>(a: seq<T>)
    ensures IsSubseq(a, a)
    decreases |a|
  {
    if a != [] {
      SubseqRefl(a[1..]);
    }
  }

  lemma {:induction false} SubseqTrans<T>(a: seq<T>, b: seq<T>, c: seq<T>)
    requires IsSubseq(a, b) && IsSubseq(b, c)
    ensures IsSubseq(a, c)
    decreases |c|
  {
    if a == [] {
    } else {
      assert b != [] && c != [];
      if b[0] == c[0] && IsSubseq(b[1..], c[1..]) {
        if a[0] == b[0] && IsSubseq(a[1..], b[1..]) {
          SubseqTrans(a[1..], b[1..], c[1..]);
        } else {
          SubseqTrans(a, b[1..], c[1..]);
        }
      } else {
        SubseqTrans(a, b, c[1..]);
      }
    }
  }

  /** Every element of a subsequence is an element of the sequence. */
  lemma {:induction false} SubseqMember<T>(a: seq<T>, b: seq<T>, x: T)
    requires IsSubseq(a, b) && x in a
    ensures x in b
    decreases |b|
  {
    if a[0] == b[0] && IsSubseq(a[1..], b[1..]) {
      if x != a[0] {
        assert x in a[1..];
        SubseqMember(a[1..], b[1..], x);
      }
    } else {
      SubseqMember(a, b[1..], x);
    }
  }

  /** Dropping one element leaves a subsequence. */
  lemma {:induction false} RemoveAtSubseq<T>(s: seq<T>, k: nat)
    requires k < |s|
    ensures IsSubseq(RemoveAt(s, k), s)
    decreases k
  {
    if k == 0 {
      assert RemoveAt(s, 0) == s[1..];
      SubseqRefl(s[1..]);
    } else {
      RemoveAtSubseq(s[1..], k - 1);
      assert RemoveAt(s, k) == [s[0]] + RemoveAt(s[1..], k - 1);
      assert RemoveAt(s, k)[1..] == RemoveAt(s[1..], k - 1);
    }
  }

  /** A subsequence stays one when the same element is put in front of both sides, or in front
      of the longer side only. */
  lemma SubseqCons<T>(a: seq<T>, b: seq<T>, x: T)
    requires IsSubseq(a, b)
    ensures IsSubseq([x] + a, [x] + b)
    ensures IsSubseq(a, [x] + b)
  {
    assert ([x] + a)[1..] == a && ([x] + b)[1..] == b;
  }

  /** A subsequence stays one when the same element is put at the end of both sides, or at the
      end of the longer side only. */
  lemma {:induction false} SubseqSnoc<T>(a: seq<T>, b: seq<T>, x: T)
    requires IsSubseq(a, b)
    ensures IsSubseq(a + [x], b + [x])
    ensures IsSubseq(a, b + [x])
    decreases |b|
  {
    if b == [] {
      assert a == [];
      assert ([x] + [])[1..] == [];
    } else {
      assert (b + [x])[0] == b[0] && (b + [x])[1..] == b[1..] + [x];
      if a == [] {
        SubseqSnoc(a, b[1..], x);
      } else {
        assert (a + [x])[0] == a[0] && (a + [x])[1..] == a[1..] + [x];
        if a[0] == b[0] && IsSubseq(a[1..], b[1..]) {
          SubseqSnoc(a[1..], b[1..], x);
        } else {
          SubseqSnoc(a, b[1..], x);
        }
      }
    }
  }

  /** The prefix as long as the sequence is the sequence (kept as a lemma: the loops in
      SpaceGame.dfy close with it more cheaply than with the same fact asserted inline). */
  lemma WholePrefix<T>(s: seq<T>)
    ensures s[..|s|] == s
  {
  }
}
