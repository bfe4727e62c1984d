/** Position of a halfedge in the cycle of its face (edge_index) and the
    vertices of the triangle a halfedge starts (triangle_from_halfedge), over a
    face-list graph. */
module FaceCycle {

  /** A face-list graph. Halfedge descriptors are the indices
      0 .. |next| - 1; face descriptors are the indices 0 .. |faceHalfedge| - 1.
      `next`, `source`, `target` and `face` are per halfedge; `faceHalfedge` is
      the designated halfedge of each face (halfedge(f)). */
  datatype FaceGraph = FaceGraph(
    next: seq<nat>,
    source: seq<nat>,
    target: seq<nat>,
    face: seq<nat>,
    faceHalfedge: seq<nat>)

  /** Every descriptor the graph hands out is in range. */
  predicate WellFormed(g: FaceGraph)
  {
    && |g.source| == |g.next|
    && |g.target| == |g.next|
    && |g.face| == |g.next|
    && (forall h | 0 <= h < |g.next| :: g.next[h] < |g.next| && g.face[h] < |g.faceHalfedge|)
    && (forall f | 0 <= f < |g.faceHalfedge| :: g.faceHalfedge[f] < |g.next|)
  }

  /** Consecutive halfedges of a face meet: each starts where the previous one
      ends. */
  ghost predicate Connected(g: FaceGraph)
    requires WellFormed(g)
  {
    forall h | 0 <= h < |g.next| :: g.source[g.next[h]] == g.target[h]
  }

  /** next applied k times. */
  function NextPow(g: FaceGraph, h: nat, k: nat): (r: nat)
    requires WellFormed(g) && h < |g.next|
    ensures r < |g.next|
    decreases k
  {
    if k == 0 then h else g.next[NextPow(g, h, k - 1)]
  }

  /** Walking a + b steps is walking a steps and then b more. */
  lemma {:induction false} NextPowAdd(g: FaceGraph, h: nat, a: nat, b: nat)
    requires WellFormed(g) && h < |g.next|
    ensures NextPow(g, h, a + b) == NextPow(g, NextPow(g, h, a), b)
    decreases b
  {
    if b != 0 {
      NextPowAdd(g, h, a, b - 1);
    }
  }

  /** halfedge(face(he)): the designated halfedge of the face of `he`, where the
      walk of edge_index starts. */
  function FaceStart(g: FaceGraph, he: nat): (s: nat)
    requires WellFormed(g) && he < |g.next|
    ensures s < |g.next|
  {
    g.faceHalfedge[g.face[he]]
  }

  /** `he` is reached by walking next from the designated halfedge of its face. */
  ghost predicate OnFaceCycle(g: FaceGraph, he: nat)
    requires WellFormed(g) && he < |g.next|
  {
    exists k: nat :: NextPow(g, FaceStart(g, he), k) == he
  }

  /** `count` is the least number of next steps from `start` that reach `he`. */
  ghost predicate IsLeastSteps(g: FaceGraph, start: nat, he: nat, count: nat)
    requires WellFormed(g) && start < |g.next|
  {
    && NextPow(g, start, count) == he
    && forall j | 0 <= j < count :: NextPow(g, start, j) != he
  }

  /** edge_index: counts the next steps from the designated halfedge of the face
      of `he` until `he` is reached. The walk ends because `he` lies on that
      cycle; the count is the least number of steps that reaches `he`, so it is
      0 for the designated halfedge itself and smaller than both the length of
      the face cycle and the number of halfedges. The graph is only read. */
  method EdgeIndex(he: nat, g: FaceGraph) returns (count: nat)
    requires WellFormed(g) && he < |g.next| && OnFaceCycle(g, he)
    ensures NextPow(g, FaceStart(g, he), count) == he
    ensures forall j | 0 <= j < count :: NextPow(g, FaceStart(g, he), j) != he
    ensures he == FaceStart(g, he) ==> count == 0
    ensures count < |g.next|
    ensures forall p: nat | 0 < p && NextPow(g, FaceStart(g, he), p) == FaceStart(g, he) :: count < p
  {
    var f := g.face[he];
    var start := g.faceHalfedge[f];
    var current := start;
    count := 0;
    ghost var k: nat :| NextPow(g, start, k) == he;
    while current != he
      invariant current == NextPow(g, start, count)
      invariant count <= k
      invariant forall j | 0 <= j < count :: NextPow(g, start, j) != he
      decreases k - count
    {
      current := g.next[current];
      count := count + 1;
    }
    LeastStepsBelowHalfedgeCount(g, start, he, count);
    forall p: nat | 0 < p && NextPow(g, start, p) == start ensures count < p {
      LeastStepsBelowCycleLength(g, start, he, count, p);
    }
  }

  /** The least number of steps is unique. */
  lemma LeastStepsUnique(g: FaceGraph, start: nat, he: nat, c1: nat, c2: nat)
    requires WellFormed(g) && start < |g.next|
    requires IsLeastSteps(g, start, he, c1) && IsLeastSteps(g, start, he, c2)
    ensures c1 == c2
  {
  }

  /** The count is smaller than the length of the face cycle: if `p` steps lead
      from `start` back to `start`, the count is below `p`. */
  lemma {:induction false} LeastStepsBelowCycleLength(g: FaceGraph, start: nat, he: nat, count: nat, p: nat)
    requires WellFormed(g) && start < |g.next|
    requires IsLeastSteps(g, start, he, count)
    requires 0 < p && NextPow(g, start, p) == start
    ensures count < p
  {
    if count >= p {
      NextPowAdd(g, start, p, count - p);
    }
  }

  /** The halfedges walked over before reaching `he` are pairwise distinct. */
  lemma {:induction false} LeastStepsWalkIsInjective(g: FaceGraph, start: nat, he: nat, count: nat, i: nat, j: nat)
    requires WellFormed(g) && start < |g.next|
    requires IsLeastSteps(g, start, he, count)
    requires i < j <= count
    ensures NextPow(g, start, i) != NextPow(g, start, j)
  {
    var d := i + (count - j);
    NextPowAdd(g, start, j, count - j);
    NextPowAdd(g, start, i, count - j);
    assert NextPow(g, start, d) != he;
  }

  /** The count is smaller than the number of halfedges: the count + 1
      halfedges of the walk are distinct. */
  lemma {:induction false} LeastStepsBelowHalfedgeCount(g: FaceGraph, start: nat, he: nat, count: nat)
    requires WellFormed(g) && start < |g.next|
    requires IsLeastSteps(g, start, he, count)
    ensures count < |g.next|
  {
    WalkSize(g, start, he, count, count);
    BoundedSetSize(Walk(g, start, count), |g.next|);
  }

  /** The halfedges reached in 0 .. n steps from `start`. */
  ghost function Walk(g: FaceGraph, start: nat, n: nat): (w: set<nat>)
    requires WellFormed(g) && start < |g.next|
    ensures forall x | x in w :: x < |g.next|
    decreases n
  {
    if n == 0 then {start} else Walk(g, start, n - 1) + {NextPow(g, start, n)}
  }

  /** Before the walk reaches `he`, no step revisits a halfedge. */
  lemma {:induction false} NotYetWalked(g: FaceGraph, start: nat, he: nat, count: nat, m: nat, n: nat)
    requires WellFormed(g) && start < |g.next|
    requires IsLeastSteps(g, start, he, count)
    requires m < n <= count
    ensures NextPow(g, start, n) !in Walk(g, start, m)
    decreases m
  {
    LeastStepsWalkIsInjective(g, start, he, count, m, n);
    if m != 0 {
      NotYetWalked(g, start, he, count, m - 1, n);
    }
  }

  /** The first n + 1 halfedges of the walk are n + 1 distinct halfedges. */
  lemma {:induction false} WalkSize(g: FaceGraph, start: nat, he: nat, count: nat, n: nat)
    requires WellFormed(g) && start < |g.next|
    requires IsLeastSteps(g, start, he, count)
    requires n <= count
    ensures |Walk(g, start, n)| == n + 1
    decreases n
  {
    if n != 0 {
      WalkSize(g, start, he, count, n - 1);
      NotYetWalked(g, start, he, count, n - 1, n);
    }
  }

  /** A set of naturals below n has at most n elements. */
  lemma {:induction false} BoundedSetSize(s: set<nat>, n: nat)
    requires forall x | x in s :: x < n
    ensures |s| <= n
    decreases n
  {
    if n == 0 {
      assert s == {};
    } else {
      BoundedSetSize(s - {n - 1}, n - 1);
    }
  }

  // ---------------------------------------------------------------------------
  // triangle_from_halfedge
  // ---------------------------------------------------------------------------

  /** The three vertices of a triangle, in order. */
  datatype Triangle = Triangle(a: nat, b: nat, c: nat)

  /** triangle_from_halfedge: the source and the target of `e`, then the target
      of next(e). (The point lookups through the vertex point map are not part
      of this model.) */
  function TriangleFromHalfedge(g: FaceGraph, e: nat): (t: Triangle)
    requires WellFormed(g) && e < |g.next|
    ensures t.a == g.source[e] && t.b == g.target[e]
    ensures t.c == g.target[NextPow(g, e, 1)]
  {
    Triangle(g.source[e], g.target[e], g.target[g.next[e]])
  }

  /** On a triangular face, starting one halfedge further along rotates the
      triangle's vertices by one place. */
  lemma TriangleRotates(g: FaceGraph, e: nat)
    requires WellFormed(g) && Connected(g) && e < |g.next|
    requires NextPow(g, e, 3) == e
    ensures TriangleFromHalfedge(g, g.next[e])
         == Triangle(TriangleFromHalfedge(g, e).b, TriangleFromHalfedge(g, e).c, TriangleFromHalfedge(g, e).a)
  {
  }
}
