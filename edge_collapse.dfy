/** Edge bookkeeping of the edge-collapse mesh simplifier: halfedge and edge
    ids, the cost order of the priority queue, the per-edge records, the
    border and constraint predicates, and the four queue wrappers that keep
    each record's queue handle in step with queue membership. */
module SurfaceMeshSimplification {
  import opened Wrappers

  // ---------------------------------------------------------------------------
  // The mesh, as far as the bookkeeping sees it
  // ---------------------------------------------------------------------------

  /** The halfedge graph. Halfedge descriptors are the indices
      0 .. |opposite| - 1; `opposite` is the opposite halfedge, `isBorder` the
      halfedge_is_border property and `halfedgeId` the halfedge index map. */
  datatype Mesh = Mesh(opposite: seq<nat>, isBorder: seq<bool>, halfedgeId: seq<nat>)

  /** A well-formed mesh: halfedges come in opposite pairs, and the index map
      numbers the halfedges 0 .. n - 1 so that the two halves of an edge get the
      ids 2k and 2k + 1. */
  ghost predicate ValidMesh(m: Mesh)
  {
    && |m.isBorder| == |m.opposite|
    && |m.halfedgeId| == |m.opposite|
    && |m.opposite| % 2 == 0
    && (forall h | 0 <= h < |m.opposite| ::
          m.opposite[h] < |m.opposite| && m.opposite[h] != h && m.opposite[m.opposite[h]] == h)
    && (forall h | 0 <= h < |m.opposite| :: m.halfedgeId[h] < |m.opposite|)
    && (forall h1, h2 | 0 <= h1 < |m.opposite| && 0 <= h2 < |m.opposite| && h1 != h2 ::
          m.halfedgeId[h1] != m.halfedgeId[h2])
    && (forall h | 0 <= h < |m.opposite| :: m.halfedgeId[m.opposite[h]] / 2 == m.halfedgeId[h] / 2)
  }

  // ---------------------------------------------------------------------------
  // Halfedge ids and edge ids
  // ---------------------------------------------------------------------------

  /** The edge id of a raw halfedge id: the id divided by 2. */
  function EdgeIdOf(id: nat): (k: nat)
    ensures 2 * k <= id < 2 * k + 2
  {
    id / 2
  }

  /** A raw halfedge id is primary when it is even. */
  predicate IsPrimaryId(id: nat)
  {
    id % 2 == 0
  }

  /** The halfedges with ids 2k and 2k + 1 share the edge id k, and the first of
      them is the primary one. */
  lemma SiblingIdsShareEdge(k: nat)
    ensures EdgeIdOf(2 * k) == k && EdgeIdOf(2 * k + 1) == k
    ensures IsPrimaryId(2 * k) && !IsPrimaryId(2 * k + 1)
  {
  }

  /** Exactly one id of each pair with a common edge id is primary, and the
      primary one is twice the edge id. */
  lemma PrimaryIdIsTwiceEdgeId(id: nat)
    ensures IsPrimaryId(id) <==> id == 2 * EdgeIdOf(id)
    ensures !IsPrimaryId(id) <==> id == 2 * EdgeIdOf(id) + 1
  {
  }

  /** get_halfedge_id: the index map's id of a halfedge. */
  function GetHalfedgeId(m: Mesh, h: nat): (id: nat)
    requires ValidMesh(m) && h < |m.opposite|
    ensures id < |m.opposite|
  {
    m.halfedgeId[h]
  }

  /** get_edge_id: the halfedge id divided by 2, an index into the record array
      (which holds one record per edge, half as many as there are halfedges). */
  function GetEdgeId(m: Mesh, h: nat): (k: nat)
    requires ValidMesh(m) && h < |m.opposite|
    ensures k < |m.opposite| / 2
    ensures k == EdgeIdOf(GetHalfedgeId(m, h))
  {
    GetHalfedgeId(m, h) / 2
  }

  /** is_primary_edge: the halfedge id is even, that is, it is twice the edge
      id rather than twice the edge id plus one. */
  function IsPrimaryEdge(m: Mesh, h: nat): (b: bool)
    requires ValidMesh(m) && h < |m.opposite|
    ensures b <==> GetHalfedgeId(m, h) == 2 * GetEdgeId(m, h)
    ensures !b <==> GetHalfedgeId(m, h) == 2 * GetEdgeId(m, h) + 1
  {
    IsPrimaryId(GetHalfedgeId(m, h))
  }

  /** A halfedge and its opposite share their edge id, and exactly one of the
      two is primary. */
  lemma OppositeHalfedges(m: Mesh, h: nat)
    requires ValidMesh(m) && h < |m.opposite|
    ensures m.opposite[h] < |m.opposite|
    ensures GetEdgeId(m, m.opposite[h]) == GetEdgeId(m, h)
    ensures IsPrimaryEdge(m, h) != IsPrimaryEdge(m, m.opposite[h])
  {
  }

  /** Two primary halfedges with the same edge id are the same halfedge, so the
      edge id of a primary halfedge names it uniquely. */
  lemma PrimaryEdgeIdsDistinct(m: Mesh, h1: nat, h2: nat)
    requires ValidMesh(m) && h1 < |m.opposite| && h2 < |m.opposite|
    requires IsPrimaryEdge(m, h1) && IsPrimaryEdge(m, h2)
    requires GetEdgeId(m, h1) == GetEdgeId(m, h2)
    ensures h1 == h2
  {
  }

  /** primary_edge: the halfedge itself when it is primary, otherwise its
      opposite; either way the primary halfedge of the same edge. */
  function PrimaryEdge(m: Mesh, h: nat): (p: nat)
    requires ValidMesh(m) && h < |m.opposite|
    ensures p < |m.opposite| && IsPrimaryEdge(m, p)
    ensures GetEdgeId(m, p) == GetEdgeId(m, h)
    ensures p == h || p == m.opposite[h]
    ensures IsPrimaryEdge(m, h) <==> p == h
  {
    OppositeHalfedges(m, h);
    if IsPrimaryEdge(m, h) then h else m.opposite[h]
  }

  /** Both halfedges of an edge have the same primary halfedge, and taking the
      primary halfedge twice changes nothing. */
  lemma PrimaryEdgeOfEdge(m: Mesh, h: nat)
    requires ValidMesh(m) && h < |m.opposite|
    ensures m.opposite[h] < |m.opposite|
    ensures PrimaryEdge(m, m.opposite[h]) == PrimaryEdge(m, h)
    ensures PrimaryEdge(m, PrimaryEdge(m, h)) == PrimaryEdge(m, h)
  {
  }

  // ---------------------------------------------------------------------------
  // The cost order (Compare_cost)
  // ---------------------------------------------------------------------------

  /** Compare_cost: the `<` of optional costs. An absent cost comes before every
      defined cost, no cost comes before an absent one, and defined costs are
      ordered by value. */
  function CompareCost(a: Option<int>, b: Option<int>): (r: bool)
    ensures a.None? && b.Some? ==> r
    ensures b.None? ==> !r
    ensures a.Some? && b.Some? ==> (r <==> a.value < b.value)
  {
    if b.None? then false else if a.None? then true else a.value < b.value
  }

  /** Compare_cost is a strict total order on optional costs, as the priority
      queue requires of its comparison. */
  lemma CompareCostIsStrictTotalOrder(a: Option<int>, b: Option<int>, c: Option<int>)
    ensures !CompareCost(a, a)
    ensures CompareCost(a, b) ==> !CompareCost(b, a)
    ensures CompareCost(a, b) && CompareCost(b, c) ==> CompareCost(a, c)
    ensures a != b ==> CompareCost(a, b) || CompareCost(b, a)
  {
  }

  /** `e` is an entry of the queue `q` that no other entry comes before: the
      entry extract_top hands out. */
  predicate IsLeastCost(q: map<nat, Option<int>>, e: nat)
  {
    e in q && forall x | x in q :: !CompareCost(q[x], q[e])
  }

  /** Every non-empty queue has an entry that no other entry comes before. */
  lemma {:induction false} LeastCostExists(q: map<nat, Option<int>>)
    requires q != map[]
    ensures exists e :: IsLeastCost(q, e)
    decreases q.Keys
  {
    var y :| y in q;
    var rest := q - {y};
    if rest == map[] {
      forall x | x in q ensures x == y {
        assert x !in rest.Keys;
      }
      assert IsLeastCost(q, y);
    } else {
      assert rest.Keys < q.Keys;
      LeastCostExists(rest);
      var e :| IsLeastCost(rest, e);
      if CompareCost(q[y], q[e]) {
        forall x | x in q ensures !CompareCost(q[x], q[y]) {
          CompareCostIsStrictTotalOrder(q[x], q[y], q[e]);
          if x != y { assert x in rest; }
        }
        assert IsLeastCost(q, y);
      } else {
        forall x | x in q ensures !CompareCost(q[x], q[e]) {
          if x != y { assert x in rest; }
        }
        assert IsLeastCost(q, e);
      }
    }
  }

  /** An entry with an undefined cost always beats one with a defined cost, so a
      least entry has a defined cost only when every entry has one. */
  lemma UndefinedCostsComeFirst(q: map<nat, Option<int>>, e: nat, x: nat)
    requires IsLeastCost(q, e) && x in q && q[x].None?
    ensures q[e].None?
  {
  }

  // ---------------------------------------------------------------------------
  // Per-edge records (Edge_data)
  // ---------------------------------------------------------------------------

  /** Edge_data: the cached, possibly absent, cost of an edge and its handle in
      the priority queue; `None` is the null handle. */
  datatype EdgeData = EdgeData(cost: Option<int>, pqHandle: Option<nat>)
  {
    /** is_in_PQ: the handle is not the null handle. */
    function IsInPQ(): (b: bool)
      ensures b <==> pqHandle != None
    {
      pqHandle.Some?
    }

    /** set_PQ_handle: stores a handle and keeps the cost. */
    function SetPQHandle(h: Option<nat>): (d: EdgeData)
      ensures d.cost == cost && d.pqHandle == h
      ensures d.IsInPQ() <==> h.Some?
    {
      this.(pqHandle := h)
    }

    /** reset_PQ_handle: the record no longer counts as being in the queue; its
        cost is kept. */
    function ResetPQHandle(): (d: EdgeData)
      ensures d.cost == cost && !d.IsInPQ()
    {
      this.(pqHandle := None)
    }
  }

  /** A default-constructed Edge_data: no cost, and the null handle, so not in
      the queue. */
  function DefaultEdgeData(): (d: EdgeData)
    ensures d.cost.None? && !d.IsInPQ()
  {
    EdgeData(None, None)
  }

  // ---------------------------------------------------------------------------
  // Border and constraint predicates
  // ---------------------------------------------------------------------------

  /** The edge-is-constrained map supplied by the caller, or the
      No_constrained_edge_map stand-in used when there are no constraints (its
      lookups all answer false). */
  datatype ConstraintMap = NoConstrainedEdgeMap | EdgeIsConstrainedMap(flags: seq<bool>)

  /** The constraint map has an entry for halfedge `h` (No_constrained_edge_map
      answers for every halfedge). */
  predicate MapCovers(c: ConstraintMap, h: nat)
  {
    c.EdgeIsConstrainedMap? ==> h < |c.flags|
  }

  /** is_constrained on a halfedge: the map's flag for that halfedge, and false
      for No_constrained_edge_map. */
  function IsConstrained(c: ConstraintMap, h: nat): (b: bool)
    requires MapCovers(c, h)
    ensures c.NoConstrainedEdgeMap? ==> !b
    ensures c.EdgeIsConstrainedMap? ==> (b <==> c.flags[h])
  {
    match c
    case NoConstrainedEdgeMap => false
    case EdgeIsConstrainedMap(flags) => flags[h]
  }

  /** is_edge_a_border: the halfedge or its opposite is a border halfedge. */
  function IsEdgeABorder(m: Mesh, h: nat): (r: bool)
    requires ValidMesh(m) && h < |m.opposite|
    ensures m.isBorder[h] ==> r
    ensures m.isBorder[m.opposite[h]] ==> r
    ensures r ==> m.isBorder[h] || m.isBorder[m.opposite[h]]
  {
    m.isBorder[h] || m.isBorder[m.opposite[h]]
  }

  /** Being a border edge is a property of the edge: both halfedges, and so the
      primary one, give the same answer. */
  lemma EdgeBorderIsPerEdge(m: Mesh, h: nat)
    requires ValidMesh(m) && h < |m.opposite|
    ensures m.opposite[h] < |m.opposite|
    ensures IsEdgeABorder(m, m.opposite[h]) == IsEdgeABorder(m, h)
    ensures IsEdgeABorder(m, PrimaryEdge(m, h)) == IsEdgeABorder(m, h)
  {
  }

  /** is_border_or_constrained on a halfedge: the caller's border map or the
      constraint map flags it. */
  function IsBorderOrConstrained(borderMap: seq<bool>, c: ConstraintMap, h: nat): (r: bool)
    requires h < |borderMap| && MapCovers(c, h)
    ensures borderMap[h] ==> r
    ensures IsConstrained(c, h) ==> r
    ensures r ==> borderMap[h] || IsConstrained(c, h)
  {
    borderMap[h] || IsConstrained(c, h)
  }

  /** Without a constraint map, being border-or-constrained is being flagged by
      the border map. */
  lemma BorderOrConstrainedWithoutConstraints(borderMap: seq<bool>, h: nat)
    requires h < |borderMap|
    ensures IsBorderOrConstrained(borderMap, NoConstrainedEdgeMap, h) == borderMap[h]
  {
  }

  /** The two endpoints of the edge under consideration (from its profile). */
  datatype Profile = Profile(v0: nat, v1: nat)

  /** is_edge_adjacent_to_a_constrained_edge: with a real constraint map, both
      endpoints are constrained vertices; with No_constrained_edge_map, never.
      `isConstrainedVertex` is is_constrained on a vertex. */
  function IsEdgeAdjacentToAConstrainedEdge(p: Profile, c: ConstraintMap, isConstrainedVertex: nat -> bool): (r: bool)
    ensures c.NoConstrainedEdgeMap? ==> !r
    ensures c.EdgeIsConstrainedMap? ==> (r <==> isConstrainedVertex(p.v0) && isConstrainedVertex(p.v1))
  {
    match c
    case NoConstrainedEdgeMap => false
    case EdgeIsConstrainedMap(_) => isConstrainedVertex(p.v0) && isConstrainedVertex(p.v1)
  }

  /** The test does not depend on the direction of the edge: the profile of the
      opposite halfedge, whose endpoints are swapped, gives the same answer. */
  lemma AdjacentToConstrainedIsUndirected(p: Profile, c: ConstraintMap, isConstrainedVertex: nat -> bool)
    ensures IsEdgeAdjacentToAConstrainedEdge(Profile(p.v1, p.v0), c, isConstrainedVertex)
         == IsEdgeAdjacentToAConstrainedEdge(p, c, isConstrainedVertex)
  {
  }

  // ---------------------------------------------------------------------------
  // The simplifier's records and its priority queue
  // ---------------------------------------------------------------------------

  /** The bookkeeping state of one simplification run: the record array
      (mEdgeDataArray, one record per edge id) and the modifiable priority queue
      (mPQ). The queue is modelled by what it holds: the primary halfedges in
      it, each with the cost it was last keyed by (at push or update), which is
      what the heap's order is built on. */
  class EdgeCollapse {
    const mesh: Mesh
    const edgeData: array<EdgeData>
    var pq: map<nat, Option<int>>

    /** The class invariant: the array has one record per edge, only primary
        halfedges are queued, and a record says it is in the queue exactly when
        the queue contains its edge. */
    ghost predicate Valid()
      reads this, edgeData
    {
      && ValidMesh(mesh)
      && edgeData.Length == |mesh.opposite| / 2
      && (forall h | h in pq :: h < |mesh.opposite| && IsPrimaryEdge(mesh, h))
      && (forall h | 0 <= h < |mesh.opposite| && IsPrimaryEdge(mesh, h) ::
            edgeData[GetEdgeId(mesh, h)].IsInPQ() <==> h in pq)
    }

    /** Every queued edge is keyed by the cost its record holds now (no cost was
        changed without an update_in_PQ). */
    ghost predicate InSync()
      requires Valid()
      reads this, edgeData
    {
      forall h | h in pq :: pq[h] == edgeData[GetEdgeId(mesh, h)].cost
    }

    /** Sets up the records for a mesh: one default record per edge, nothing
        queued. */
    constructor (m: Mesh)
      requires ValidMesh(m)
      ensures Valid() && InSync()
      ensures mesh == m && fresh(edgeData) && pq == map[]
      ensures forall k | 0 <= k < edgeData.Length :: edgeData[k] == DefaultEdgeData()
    {
      mesh := m;
      edgeData := new EdgeData[|m.opposite| / 2](_ => DefaultEdgeData());
      pq := map[];
    }

    /** get_data: the record of a primary halfedge's edge. */
    function GetData(h: nat): (d: EdgeData)
      requires Valid() && h < |mesh.opposite| && IsPrimaryEdge(mesh, h)
      reads this, edgeData
      ensures d.IsInPQ() <==> h in pq
    {
      edgeData[GetEdgeId(mesh, h)]
    }

    /** mPQ->contains. Under the class invariant, only a primary halfedge can be
        contained, and exactly when its record says it is in the queue. */
    function PQContains(h: nat): (b: bool)
      reads this, edgeData
      ensures Valid() && b ==> h < |mesh.opposite| && IsPrimaryEdge(mesh, h)
      ensures Valid() && h < |mesh.opposite| && IsPrimaryEdge(mesh, h) ==> (b <==> GetData(h).IsInPQ())
    {
      h in pq
    }

    /** The record array as a sequence. */
    ghost function Records(): seq<EdgeData>
      reads edgeData
    {
      edgeData[..]
    }

    /** Helper for the frame conditions: a primary halfedge other than `h` has
        a different record. */
    lemma OtherRecords(h: nat)
      requires Valid() && h < |mesh.opposite| && IsPrimaryEdge(mesh, h)
      ensures forall h' | 0 <= h' < |mesh.opposite| && IsPrimaryEdge(mesh, h') && h' != h ::
                GetEdgeId(mesh, h') != GetEdgeId(mesh, h)
    {
    }

    /** The cost accessor used as an lvalue (`get_data(h).cost() = c`): the
        record gets a new cost; its handle and the queue stay as they are. */
    method SetCost(h: nat, c: Option<int>)
      requires Valid() && h < |mesh.opposite| && IsPrimaryEdge(mesh, h)
      modifies edgeData
      ensures Valid()
      ensures GetData(h).cost == c
      ensures Records() == old(Records())[GetEdgeId(mesh, h) := old(GetData(h)).(cost := c)]
      ensures old(InSync()) && h !in pq ==> InSync()
    {
      var k := GetEdgeId(mesh, h);
      edgeData[k] := edgeData[k].(cost := c);
      OtherRecords(h);
    }

    /** insert_in_PQ: pushes a primary edge that is not queued, keyed by its
        record's cost, and stores the handle the queue hands back. Afterwards
        both the record and the queue report it as queued. */
    method InsertInPQ(h: nat)
      requires Valid() && h < |mesh.opposite| && IsPrimaryEdge(mesh, h)
      requires !GetData(h).IsInPQ()
      requires !PQContains(h)
      modifies this`pq, edgeData
      ensures Valid()
      ensures GetData(h).IsInPQ() && PQContains(h)
      ensures pq == old(pq)[h := old(GetData(h)).cost]
      ensures Records() == old(Records())[GetEdgeId(mesh, h) := old(GetData(h)).SetPQHandle(Some(GetEdgeId(mesh, h)))]
      ensures old(InSync()) ==> InSync()
    {
      var k := GetEdgeId(mesh, h);
      var d := edgeData[k];
      pq := pq[h := d.cost];
      edgeData[k] := d.SetPQHandle(Some(k));
      OtherRecords(h);
    }

    /** update_in_PQ: re-keys a queued edge by its record's current cost. The
        edge stays queued and keeps its handle. */
    method UpdateInPQ(h: nat)
      requires Valid() && h < |mesh.opposite| && IsPrimaryEdge(mesh, h)
      requires GetData(h).IsInPQ()
      requires PQContains(h)
      modifies this`pq, edgeData
      ensures Valid()
      ensures GetData(h).IsInPQ() && PQContains(h)
      ensures pq == old(pq)[h := GetData(h).cost]
      ensures Records() == old(Records())
      ensures (forall x | x in old(pq) && x != h :: old(pq)[x] == old(Records())[GetEdgeId(mesh, x)].cost) ==> InSync()
    {
      var k := GetEdgeId(mesh, h);
      var d := edgeData[k];
      pq := pq[h := d.cost];
      edgeData[k] := d.SetPQHandle(d.pqHandle);
      OtherRecords(h);
    }

    /** remove_from_PQ: erases a queued edge and stores the null handle the
        queue hands back. Afterwards neither the record nor the queue reports it
        as queued. */
    method RemoveFromPQ(h: nat)
      requires Valid() && h < |mesh.opposite| && IsPrimaryEdge(mesh, h)
      requires GetData(h).IsInPQ()
      requires PQContains(h)
      modifies this`pq, edgeData
      ensures Valid()
      ensures !GetData(h).IsInPQ() && !PQContains(h)
      ensures pq == old(pq) - {h}
      ensures Records() == old(Records())[GetEdgeId(mesh, h) := old(GetData(h)).ResetPQHandle()]
      ensures old(InSync()) ==> InSync()
    {
      var k := GetEdgeId(mesh, h);
      pq := pq - {h};
      edgeData[k] := edgeData[k].SetPQHandle(None);
      OtherRecords(h);
    }

    /** pop_from_PQ: extracts the queue's top, an entry that no other entry
        comes before under Compare_cost on the records' current costs, and resets
        its record's handle. An empty queue gives None and changes nothing. The
        queue must be in step with the records: every cost change on a queued
        edge has been followed by update_in_PQ. */
    method PopFromPQ() returns (r: Option<nat>)
      requires Valid() && InSync()
      modifies this`pq, edgeData
      ensures Valid()
      ensures r.None? <==> old(pq) == map[]
      ensures r.None? ==> pq == old(pq) && Records() == old(Records())
      ensures r.Some? ==>
        && r.value in old(pq)
        && r.value < |mesh.opposite| && IsPrimaryEdge(mesh, r.value)
        && IsLeastCost(old(pq), r.value)
        && pq == old(pq) - {r.value}
        && !GetData(r.value).IsInPQ() && !PQContains(r.value)
        && Records() == old(Records())[GetEdgeId(mesh, r.value) := old(GetData(r.value)).ResetPQHandle()]
      ensures r.Some? ==> forall x | x in old(pq) :: !CompareCost(old(GetData(x)).cost, old(GetData(r.value)).cost)
      ensures r.Some? && old(GetData(r.value)).cost.Some? ==> forall x | x in old(pq) :: old(GetData(x)).cost.Some?
      ensures InSync()
    {
      if pq == map[] {
        return None;
      }
      LeastCostExists(pq);
      var e :| IsLeastCost(pq, e);
      forall x | x in pq && pq[x].None? ensures pq[e].None? {
        UndefinedCostsComeFirst(pq, e, x);
      }
      var k := GetEdgeId(mesh, e);
      pq := pq - {e};
      edgeData[k] := edgeData[k].ResetPQHandle();
      OtherRecords(e);
      r := Some(e);
    }
  }
}
