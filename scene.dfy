/** The scene: a list of objects searched for the closest hit (`TestScene`),
    and the two-object `Couple` that the CSG operations are built on. */
module Scene {
  import opened Options
  import opened Vectors
  import opened Rays
  import opened Hits
  import opened Surfaces

  datatype TestScene = TestScene(objects: seq<Hittable>)

  /** The hit that the scan over `objects` keeps: a later hit replaces the
      current one only when it is strictly closer. */
  function ClosestHit(objects: seq<Hittable>, ray: Ray): Option<Hit>
    decreases |objects|
  {
    if |objects| == 0 then None
    else
      var current := ClosestHit(objects[..|objects| - 1], ray);
      match objects[|objects| - 1].trace(ray)
      case None => current
      case Some(h) => if current.Some? && !(h.t < current.value.t) then current else Some(h)
  }

  /** The scan finds nothing exactly when no object is hit. */
  lemma {:induction false} ClosestHitNone(objects: seq<Hittable>, ray: Ray)
    ensures ClosestHit(objects, ray).None? <==>
      forall i :: 0 <= i < |objects| ==> objects[i].trace(ray).None?
    decreases |objects|
  {
    if |objects| > 0 {
      var last := |objects| - 1;
      ClosestHitNone(objects[..last], ray);
      assert forall i :: 0 <= i < last ==> objects[..last][i] == objects[i];
    }
  }

  /** A hit found by the scan is the closest one, and among equally close hits
      that of the first object. */
  lemma {:induction false} ClosestHitFirst(objects: seq<Hittable>, ray: Ray)
    requires ClosestHit(objects, ray).Some?
    ensures exists i :: 0 <= i < |objects| && FirstClosest(objects, ray, i, ClosestHit(objects, ray).value)
    decreases |objects|
  {
    var last := |objects| - 1;
    var prefix := objects[..last];
    var current := ClosestHit(prefix, ray);
    assert forall i :: 0 <= i < last ==> prefix[i] == objects[i];
    if current.Some? {
      ClosestHitFirst(prefix, ray);
      var i :| 0 <= i < last && FirstClosest(prefix, ray, i, current.value);
      match objects[last].trace(ray)
      case None =>
        assert FirstClosest(objects, ray, i, current.value);
      case Some(h) =>
        if !(h.t < current.value.t) {
          assert FirstClosest(objects, ray, i, current.value);
        } else {
          assert FirstClosest(objects, ray, last, h);
        }
    } else {
      ClosestHitNone(prefix, ray);
      assert FirstClosest(objects, ray, last, ClosestHit(objects, ray).value);
    }
  }

  /** `h` is object `i`'s hit, no object hits closer, and every object before
      `i` hits strictly further away or not at all. */
  ghost predicate FirstClosest(objects: seq<Hittable>, ray: Ray, i: int, h: Hit)
    requires 0 <= i < |objects|
  {
    && objects[i].trace(ray) == Some(h)
    && (forall j :: 0 <= j < |objects| && objects[j].trace(ray).Some? ==> h.t <= objects[j].trace(ray).value.t)
    && (forall j :: 0 <= j < i && objects[j].trace(ray).Some? ==> h.t < objects[j].trace(ray).value.t)
  }

  /** The condition the scan asserts of every hit it sees. */
  ghost predicate HitsWithinRay(objects: seq<Hittable>, ray: Ray) {
    forall i :: 0 <= i < |objects| && objects[i].trace(ray).Some? ==>
      0.0 <= objects[i].trace(ray).value.t < 1.0
  }

  /** `TestScene::ray_trace`: the scan over the objects, which aborts unless
      every reported hit lies in [0, 1). */
  method TraceScene(scene: TestScene, ray: Ray) returns (hit: Option<Hit>)
    requires HitsWithinRay(scene.objects, ray)
    ensures hit == ClosestHit(scene.objects, ray)
  {
    hit := None;
    var i := 0;
    while i < |scene.objects|
      invariant 0 <= i <= |scene.objects|
      invariant hit == ClosestHit(scene.objects[..i], ray)
    {
      assert scene.objects[..i + 1][..i] == scene.objects[..i];
      var thisHit := scene.objects[i].trace(ray);
      if thisHit.Some? {
        if hit.Some? {
          if thisHit.value.t < hit.value.t {
            hit := thisHit;
          }
        } else {
          hit := thisHit;
        }
      }
      i := i + 1;
    }
    assert scene.objects[..i] == scene.objects;
  }

  /** Objects whose hits all lie in [0, 1) never make the scan abort. */
  lemma WithinRayObjects(objects: seq<Hittable>, ray: Ray)
    requires forall i :: 0 <= i < |objects| ==> WithinRay(objects[i])
    ensures HitsWithinRay(objects, ray)
  {
    forall i | 0 <= i < |objects| && objects[i].trace(ray).Some?
      ensures 0.0 <= objects[i].trace(ray).value.t < 1.0
    {
      assert WithinRay(objects[i]);
    }
  }

  /** `TestScene::is_inside`: an early-return scan. */
  method SceneIsInside(scene: TestScene, p: Vec3) returns (b: bool)
    ensures b <==> exists i :: 0 <= i < |scene.objects| && scene.objects[i].inside(p)
  {
    var i := 0;
    while i < |scene.objects|
      invariant 0 <= i <= |scene.objects|
      invariant forall j :: 0 <= j < i ==> !scene.objects[j].inside(p)
    {
      if scene.objects[i].inside(p) {
        return true;
      }
      i := i + 1;
    }
    return false;
  }

  /** Containment in a list of objects, as the scene reports it. */
  function AnyInside(objects: seq<Hittable>, p: Vec3): (b: bool)
    ensures b <==> exists i :: 0 <= i < |objects| && objects[i].inside(p)
  {
    if |objects| == 0 then false
    else objects[0].inside(p) || AnyInside(objects[1..], p)
  }

  /** The scene as a shape of its own. */
  function SceneShape(scene: TestScene): (s: Hittable)
    ensures forall ray :: s.trace(ray) == ClosestHit(scene.objects, ray)
    ensures forall p :: s.inside(p) == AnyInside(scene.objects, p)
  {
    Hittable(ray => ClosestHit(scene.objects, ray), p => AnyInside(scene.objects, p))
  }

  /** `Couple::ray_trace_tagged`: both shapes traced, the closer hit kept. */
  function CoupleTraceTagged(a: Hittable, b: Hittable, ray: Ray): (r: Option<(Hit, bool)>)
    ensures r.None? <==> a.trace(ray).None? && b.trace(ray).None?
    ensures a.trace(ray).Some? && b.trace(ray).Some? ==>
      var h1, h2 := a.trace(ray).value, b.trace(ray).value;
      r == Some((Closer(h1, h2), h2.t >= h1.t))
    ensures a.trace(ray).Some? && b.trace(ray).None? ==> r == Some((a.trace(ray).value, false))
    ensures a.trace(ray).None? && b.trace(ray).Some? ==> r == Some((b.trace(ray).value, true))
  {
    match a.trace(ray)
    case Some(h1) =>
      (match b.trace(ray)
       case Some(h2) => Some((Closer(h1, h2), h2.t >= h1.t))
       case None => Some((h1, false)))
    case None =>
      (match b.trace(ray)
       case Some(h2) => Some((h2, true))
       case None => None)
  }

  /** `Couple::ray_trace`: the tagged result without its tag.  It is exactly
      the scene scan over the two shapes. */
  function CoupleTrace(a: Hittable, b: Hittable, ray: Ray): (r: Option<Hit>)
    ensures r == ClosestHit([a, b], ray)
    ensures r.None? <==> a.trace(ray).None? && b.trace(ray).None?
    ensures r.Some? ==> Some(r.value) == a.trace(ray) || Some(r.value) == b.trace(ray)
  {
    var tagged := CoupleTraceTagged(a, b, ray);
    assert [a, b][..1] == [a];
    assert [a][..0] == [];
    assert ClosestHit([a], ray) == a.trace(ray);
    if tagged.Some? then Some(tagged.value.0) else None
  }

  /** `Couple::is_inside`. */
  function CoupleInside(a: Hittable, b: Hittable, p: Vec3): (r: bool)
    ensures r == AnyInside([a, b], p)
  {
    assert [a, b][1..] == [b];
    a.inside(p) || b.inside(p)
  }
}
