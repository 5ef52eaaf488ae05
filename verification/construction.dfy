/**
 Sequences of minting calls, as a planar-construction algorithm issues them
 against one registry, and what holds after any such sequence: the
 invariants survive, each sequence grows by exactly one entry per matching
 call, and a vertex's back-reference is the first half-edge ever minted for
 it.
 */
module Construction {
  import opened Wrappers
  import opened Dcel

  /** One minting call. */
  datatype Op = MintFace | MintVertex(x: int, y: int) | MintHalfEdge(target: VertexRef)

  /** Applies one call; `None` when a half-edge names an index that is no
      vertex of the registry, the arena's stand-in for a nil or unregistered
      vertex (`dcel.go` faults on a nil one). */
  function Step(d: DCEL, op: Op): Option<Minted> {
    match op
    case MintFace => Some(NewFace(d))
    case MintVertex(x, y) => Some(NewVertex(d, x, y))
    case MintHalfEdge(v) => if v < |d.vertices| then Some(NewHalfEdge(d, v)) else None
  }

  /** Applies the calls in order; `None` if any of them faults. */
  function Replay(d: DCEL, ops: seq<Op>): Option<DCEL>
    decreases |ops|
  {
    if ops == [] then Some(d)
    else
      match Step(d, ops[0])
      case None => None
      case Some(m) => Replay(m.dcel, ops[1..])
  }

  /** No call in `ops` names a vertex that does not exist at that point,
      starting from a registry holding `n` vertices. */
  predicate TargetsExist(n: nat, ops: seq<Op>)
    decreases |ops|
  {
    if ops == [] then true
    else
      match ops[0]
      case MintFace => TargetsExist(n, ops[1..])
      case MintVertex(_, _) => TargetsExist(n + 1, ops[1..])
      case MintHalfEdge(v) => v < n && TargetsExist(n, ops[1..])
  }

  /** The number of calls of each kind. */
  function FaceCalls(ops: seq<Op>): nat {
    if ops == [] then 0 else (if ops[0].MintFace? then 1 else 0) + FaceCalls(ops[1..])
  }

  function VertexCalls(ops: seq<Op>): nat {
    if ops == [] then 0 else (if ops[0].MintVertex? then 1 else 0) + VertexCalls(ops[1..])
  }

  function HalfEdgeCalls(ops: seq<Op>): nat {
    if ops == [] then 0 else (if ops[0].MintHalfEdge? then 1 else 0) + HalfEdgeCalls(ops[1..])
  }

  /** The reference of the first half-edge `ops` mints for vertex `v`, when
      the next half-edge minted gets reference `next`. */
  function FirstHalfEdgeFor(v: VertexRef, ops: seq<Op>, next: HalfEdgeRef): Option<HalfEdgeRef>
    decreases |ops|
  {
    if ops == [] then None
    else
      match ops[0]
      case MintHalfEdge(u) => if u == v then Some(next) else FirstHalfEdgeFor(v, ops[1..], next + 1)
      case _ => FirstHalfEdgeFor(v, ops[1..], next)
  }

  /** A sequence of calls completes exactly when every half-edge it mints
      targets a vertex that exists by then. */
  lemma {:induction false} ReplayDefinedIff(d: DCEL, ops: seq<Op>)
    ensures Replay(d, ops).Some? <==> TargetsExist(|d.vertices|, ops)
    decreases |ops|
  {
    if ops != [] {
      match ops[0]
      case MintFace =>
        ReplayDefinedIff(NewFace(d).dcel, ops[1..]);
      case MintVertex(x, y) =>
        ReplayDefinedIff(NewVertex(d, x, y).dcel, ops[1..]);
      case MintHalfEdge(v) =>
        if v < |d.vertices| {
          ReplayDefinedIff(NewHalfEdge(d, v).dcel, ops[1..]);
        }
    }
  }

  /** Any completed sequence of calls keeps well-formedness and both
      back-reference invariants, and only ever appends. */
  lemma {:induction false} ReplayPreserves(d: DCEL, ops: seq<Op>)
    requires Replay(d, ops).Some?
    ensures Grows(d, Replay(d, ops).value)
    ensures Valid(d) ==> Valid(Replay(d, ops).value)
    decreases |ops|
  {
    if ops != [] {
      ReplayPreserves(Step(d, ops[0]).value.dcel, ops[1..]);
    }
  }

  /** Each sequence grows by exactly one entry per call of its kind. */
  lemma {:induction false} ReplayCounts(d: DCEL, ops: seq<Op>)
    requires Replay(d, ops).Some?
    ensures |Replay(d, ops).value.faces| == |d.faces| + FaceCalls(ops)
    ensures |Replay(d, ops).value.vertices| == |d.vertices| + VertexCalls(ops)
    ensures |Replay(d, ops).value.halfEdges| == |d.halfEdges| + HalfEdgeCalls(ops)
    decreases |ops|
  {
    if ops != [] {
      ReplayCounts(Step(d, ops[0]).value.dcel, ops[1..]);
    }
  }

  /** First-touch binding over a whole sequence, for every vertex of the
      final registry: a vertex that already had a half-edge keeps it, and any
      other one (including a vertex minted by the sequence itself) ends up
      bound to the first half-edge minted for it, or stays unbound if there is
      none. */
  lemma {:induction false} ReplayFirstTouch(d: DCEL, ops: seq<Op>, v: VertexRef)
    requires Replay(d, ops).Some? && v < |Replay(d, ops).value.vertices|
    ensures Replay(d, ops).value.vertices[v].halfEdge ==
      if v < |d.vertices| && d.vertices[v].halfEdge.Some? then d.vertices[v].halfEdge
      else FirstHalfEdgeFor(v, ops, |d.halfEdges|)
    decreases |ops|
  {
    if ops != [] {
      var m := Step(d, ops[0]).value;
      ReplayFirstTouch(m.dcel, ops[1..], v);
      match ops[0]
      case MintFace =>
      case MintVertex(x, y) =>
        if v < |d.vertices| {
          assert m.dcel.vertices[v] == d.vertices[v];
        }
      case MintHalfEdge(u) =>
        if u != v && v < |d.vertices| {
          assert m.dcel.vertices[v] == d.vertices[v];
        }
    }
  }

  /** Running two sequences one after the other is running their
      concatenation. */
  lemma {:induction false} ReplayAppend(d: DCEL, a: seq<Op>, b: seq<Op>)
    requires Replay(d, a).Some?
    ensures Replay(d, a + b) == Replay(Replay(d, a).value, b)
    decreases |a|
  {
    if a == [] {
      assert a + b == b;
    } else {
      assert (a + b)[0] == a[0];
      assert (a + b)[1..] == a[1..] + b;
      ReplayAppend(Step(d, a[0]).value.dcel, a[1..], b);
    }
  }

  /** A construction in the style of a planar algorithm: two faces, two
      vertices, then two half-edges both targeting the first vertex. */
  function TwoHalfEdgesOnOneVertex(): Option<DCEL> {
    Replay(NewDCEL(), [MintFace, MintFace, MintVertex(0, 0), MintVertex(1, 0), MintHalfEdge(0), MintHalfEdge(0)])
  }

  /** The first half-edge wins the vertex; the second vertex stays unbound;
      faces are untouched by half-edge creation. */
  lemma TwoHalfEdgesOnOneVertexOutcome()
    ensures TwoHalfEdgesOnOneVertex().Some?
    ensures |TwoHalfEdgesOnOneVertex().value.halfEdges| == 2
    ensures TwoHalfEdgesOnOneVertex().value.vertices[0].halfEdge == Some(0)
    ensures TwoHalfEdgesOnOneVertex().value.vertices[1].halfEdge == None
    ensures TwoHalfEdgesOnOneVertex().value.halfEdges[0].target == Some(0)
    ensures TwoHalfEdgesOnOneVertex().value.halfEdges[1].target == Some(0)
    ensures TwoHalfEdgesOnOneVertex().value.faces[0].halfEdge == None
    ensures TwoHalfEdgesOnOneVertex().value.faces[1].halfEdge == None
  {
  }
}
