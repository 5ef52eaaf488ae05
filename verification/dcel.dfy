/**
 A doubly-connected edge list (DCEL) registry: an append-only store of
 vertices, faces and half-edges for planar subdivisions.

 Entities refer to each other through cyclic pointers in `dcel.go`. Here
 every entity lives in one of three sequences of the registry (an arena),
 and a reference is an index into the sequence of the referenced kind; a nil pointer is `None`. The identity of an entity is its
 index, which never changes because the sequences only ever grow.
 */
module Dcel {
  import opened Wrappers

  /** The 64-bit signed range of a face ID. */
  newtype Int64 = x: int | -0x8000_0000_0000_0000 <= x < 0x8000_0000_0000_0000

  /** Indices into the vertex, face and half-edge sequences of a registry. */
  type VertexRef = nat
  type FaceRef = nat
  type HalfEdgeRef = nat

  /** A point in the plane and one half-edge that has this vertex as its target. */
  datatype Vertex = Vertex(x: int, y: int, halfEdge: Option<HalfEdgeRef>)

  /** A region of the plane, one half-edge on its boundary and a caller-chosen ID. */
  datatype Face = Face(halfEdge: Option<HalfEdgeRef>, id: Int64)

  /** One oriented half of an edge pair. */
  datatype HalfEdge = HalfEdge(
    target: Option<VertexRef>,
    face: Option<FaceRef>,
    twin: Option<HalfEdgeRef>,
    next: Option<HalfEdgeRef>,
    prev: Option<HalfEdgeRef>
  )

  /** The registry: every vertex, face and half-edge minted so far, in creation order. */
  datatype DCEL = DCEL(vertices: seq<Vertex>, faces: seq<Face>, halfEdges: seq<HalfEdge>)

  /** The registry after a minting operation, and the reference to the new entity. */
  datatype Minted = Minted(dcel: DCEL, ref: nat)

  // ---------------------------------------------------------------------------
  // Well-formedness and the linking invariants
  // ---------------------------------------------------------------------------

  /** A reference that is nil or points into a sequence of length `n`. */
  predicate ValidRef(r: Option<nat>, n: nat) {
    r.None? || r.value < n
  }

  /** Every reference a half-edge holds points to an entity of `d`. */
  predicate HalfEdgeRefsValid(e: HalfEdge, d: DCEL) {
    && ValidRef(e.target, |d.vertices|)
    && ValidRef(e.face, |d.faces|)
    && ValidRef(e.twin, |d.halfEdges|)
    && ValidRef(e.next, |d.halfEdges|)
    && ValidRef(e.prev, |d.halfEdges|)
  }

  /** Every reference stored in any entity of `d` is a valid index. */
  predicate WellFormed(d: DCEL) {
    && (forall i | 0 <= i < |d.vertices| :: ValidRef(d.vertices[i].halfEdge, |d.halfEdges|))
    && (forall i | 0 <= i < |d.faces| :: ValidRef(d.faces[i].halfEdge, |d.halfEdges|))
    && (forall i | 0 <= i < |d.halfEdges| :: HalfEdgeRefsValid(d.halfEdges[i], d))
  }

  /** A vertex's half-edge, when set, is a half-edge whose target is that vertex. */
  predicate VertexBackRefs(d: DCEL) {
    forall i | 0 <= i < |d.vertices| && d.vertices[i].halfEdge.Some? ::
      && d.vertices[i].halfEdge.value < |d.halfEdges|
      && d.halfEdges[d.vertices[i].halfEdge.value].target == Some(i)
  }

  /** A face's half-edge, when set, is a half-edge on that face's boundary. */
  predicate FaceBackRefs(d: DCEL) {
    forall i | 0 <= i < |d.faces| && d.faces[i].halfEdge.Some? ::
      && d.faces[i].halfEdge.value < |d.halfEdges|
      && d.halfEdges[d.faces[i].halfEdge.value].face == Some(i)
  }

  /** The registry state every operation keeps. */
  predicate Valid(d: DCEL) {
    WellFormed(d) && VertexBackRefs(d) && FaceBackRefs(d)
  }

  /** `v'` is a later state of vertex `v`: same coordinates, and a bound
      back-reference is never changed (first-touch binding). */
  predicate VertexKept(v: Vertex, v': Vertex) {
    && v'.x == v.x
    && v'.y == v.y
    && (v.halfEdge.Some? ==> v'.halfEdge == v.halfEdge)
  }

  /** `d'` is an append-only extension of `d`: faces and half-edges are
      prefixes, and every old vertex is kept in place. */
  predicate Grows(d: DCEL, d': DCEL) {
    && |d.vertices| <= |d'.vertices|
    && (forall i | 0 <= i < |d.vertices| :: VertexKept(d.vertices[i], d'.vertices[i]))
    && d.faces <= d'.faces
    && d.halfEdges <= d'.halfEdges
  }

  // ---------------------------------------------------------------------------
  // The minting operations
  // ---------------------------------------------------------------------------

  /** A half-edge just created for `v`: target set, every other link nil. */
  function Detached(v: VertexRef): HalfEdge {
    HalfEdge(Some(v), None, None, None, None)
  }

  /** An empty registry. */
  function NewDCEL(): (d: DCEL)
    ensures |d.vertices| == 0 && |d.faces| == 0 && |d.halfEdges| == 0
    ensures Valid(d)
  {
    DCEL([], [], [])
  }

  /** Appends a face with no half-edge and ID zero, and returns its reference. */
  function NewFace(d: DCEL): (r: Minted)
    ensures r.ref == |d.faces|
    ensures |r.dcel.faces| == |d.faces| + 1
    ensures r.dcel.faces[..|d.faces|] == d.faces
    ensures r.dcel.faces[r.ref].halfEdge.None? && r.dcel.faces[r.ref].id == 0
    ensures r.dcel.vertices == d.vertices && r.dcel.halfEdges == d.halfEdges
    ensures Grows(d, r.dcel)
    ensures Valid(d) ==> Valid(r.dcel)
  {
    Minted(d.(faces := d.faces + [Face(None, 0)]), |d.faces|)
  }

  /** Appends a vertex at exactly (x, y) with no half-edge, and returns its reference. */
  function NewVertex(d: DCEL, x: int, y: int): (r: Minted)
    ensures r.ref == |d.vertices|
    ensures |r.dcel.vertices| == |d.vertices| + 1
    ensures r.dcel.vertices[..|d.vertices|] == d.vertices
    ensures r.dcel.vertices[r.ref].x == x && r.dcel.vertices[r.ref].y == y
    ensures r.dcel.vertices[r.ref].halfEdge.None?
    ensures r.dcel.faces == d.faces && r.dcel.halfEdges == d.halfEdges
    ensures Grows(d, r.dcel)
    ensures Valid(d) ==> Valid(r.dcel)
  {
    Minted(d.(vertices := d.vertices + [Vertex(x, y, None)]), |d.vertices|)
  }

  /** Appends a half-edge whose target is vertex `v`, and binds `v` to it if
      `v` had no half-edge yet. The vertex must be one of the
      registry's: `dcel.go` dereferences it, so a nil vertex is a fault. */
  function NewHalfEdge(d: DCEL, v: VertexRef): (r: Minted)
    requires v < |d.vertices|
    ensures r.ref == |d.halfEdges|
    ensures |r.dcel.halfEdges| == |d.halfEdges| + 1
    ensures r.dcel.halfEdges[..|d.halfEdges|] == d.halfEdges
    ensures r.dcel.halfEdges[r.ref].target == Some(v)
    ensures r.dcel.halfEdges[r.ref].face.None? && r.dcel.halfEdges[r.ref].twin.None?
    ensures r.dcel.halfEdges[r.ref].next.None? && r.dcel.halfEdges[r.ref].prev.None?
    ensures r.dcel.faces == d.faces
    ensures |r.dcel.vertices| == |d.vertices|
    ensures forall u | 0 <= u < |d.vertices| && u != v :: r.dcel.vertices[u] == d.vertices[u]
    ensures r.dcel.vertices[v].x == d.vertices[v].x && r.dcel.vertices[v].y == d.vertices[v].y
    ensures d.vertices[v].halfEdge.None? ==> r.dcel.vertices[v].halfEdge == Some(r.ref)
    ensures d.vertices[v].halfEdge.Some? ==> r.dcel.vertices[v] == d.vertices[v]
    ensures WellFormed(d) ==> (r.dcel.vertices[v].halfEdge == Some(r.ref) <==> d.vertices[v].halfEdge.None?)
    ensures Grows(d, r.dcel)
    ensures Valid(d) ==> Valid(r.dcel)
  {
    var he := |d.halfEdges|;
    var vertex := d.vertices[v];
    var vertices :=
      if vertex.halfEdge.None? then d.vertices[v := vertex.(halfEdge := Some(he))]
      else d.vertices;
    Minted(d.(vertices := vertices, halfEdges := d.halfEdges + [Detached(v)]), he)
  }
}
