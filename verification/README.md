# DCEL registry — a Dafny model

This project models the doubly-connected edge list (DCEL) of the Go package
`dcel` (`dcel.go`): an append-only registry of vertices, faces and half-edges
used as the topology of planar subdivisions. The registry has three minting
operations. `NewFace` appends a face with no boundary half-edge and ID 0.
`NewVertex` appends a vertex at exact integer coordinates. `NewHalfEdge`
appends a half-edge targeting a given vertex, and binds the vertex to it
only if the vertex had no half-edge yet ("first-touch binding").

The Go structure links entities with cyclic pointers. The model keeps every
entity in one of three sequences of an immutable `DCEL` record (an arena). A
reference is an `Option<nat>` index into the sequence of the referenced
kind; a nil pointer is `None`. An entity's identity is its index, which never
changes because the sequences only grow. Each operation is a pure function
returning the new registry and the new entity's reference (`Minted`).

Modules:

- `Wrappers` (`wrappers.dfy`): `Option`.
- `Dcel` (`dcel.dfy`): the entities, the registry, the operations, the
  well-formedness predicate (every stored index is in range), the two
  back-reference invariants, and the append-only relation `Grows`. Each
  operation's contract states that it keeps the invariants.
- `Construction` (`construction.dfy`): arbitrary sequences of minting calls
  (`Replay`) and what holds after any of them.

The vertex invariant comes from the doc comment of `Vertex`: a vertex's
`HalfEdge`, when set, is a half-edge whose `Target` is that vertex. The face
invariant comes from the doc comment of `Face`: a face's `HalfEdge`, when set,
lies on that face's boundary, so its `Face` is that face. No operation in
`dcel.go` sets a face's half-edge, so the face invariant is kept trivially.

`dcel.go` has no edge-pair constructor, no half-edge constructor that binds
a face and no closure predicate; `NewHalfEdge` takes only a vertex and
leaves `Face`, `Twin`, `Next` and `Prev` nil. The model has none of them
either.

## Model

| member | source | states |
|---|---|---|
| `Dcel.NewDCEL` | dcel.go:57-60 | the new registry has no vertices, faces or half-edges, and satisfies well-formedness and both back-reference invariants |
| `Dcel.NewFace` | dcel.go:62-67 | exactly one face is appended and its reference returned; it has no half-edge and ID 0; earlier faces, all vertices and all half-edges are unchanged; the registry only grows, and well-formedness and both back-reference invariants are kept |
| `Dcel.NewVertex` | dcel.go:69-77 | exactly one vertex is appended and its reference returned; its coordinates are exactly (x, y) and it has no half-edge; earlier vertices, faces and half-edges are unchanged; the registry only grows, and well-formedness and both back-reference invariants are kept |
| `Dcel.NewHalfEdge` | dcel.go:79-89 | requires an existing vertex; exactly one half-edge is appended with target v and nil face, twin, next and prev; faces and other vertices are unchanged; v keeps its coordinates; v is bound to the new half-edge if it was unbound and is left as it was otherwise, and in a well-formed registry it is bound to the new half-edge only in that case; the registry only grows, and well-formedness and both back-reference invariants are kept |
| `Construction.ReplayDefinedIff` | dcel.go:80-86 | a sequence of calls runs to completion if and only if every half-edge it mints targets a vertex that exists at that point; otherwise a call names an index that is no vertex of the registry, the arena's stand-in for a nil or unregistered vertex, and the run faults |
| `Construction.ReplayPreserves` | dcel.go:15-16 | after any completed sequence of calls, the registry is an append-only extension of the start, and well-formedness and the back-reference invariants still hold if they held at the start |
| `Construction.ReplayCounts` | dcel.go:62-89 | each of the three sequences grows by exactly one entry per call of its kind |
| `Construction.ReplayFirstTouch` | dcel.go:84-86 | after any completed sequence, for every vertex of the final registry, including those the sequence minted itself: a vertex that was bound keeps its half-edge, and any other one is bound to the first half-edge minted for it, or stays unbound if none was |
| `Construction.TwoHalfEdgesOnOneVertexOutcome` | dcel.go:79-89 | two faces, two vertices, then two half-edges on the first vertex: two half-edges exist and both target the first vertex, the first vertex is bound to the first half-edge, the second vertex is unbound, neither face is bound |

## Left out

- The `String` methods (dcel.go:45-55): debug text built with `fmt.Sprintf` that prints pointer addresses; nothing about them can be stated.
- The `Data interface{}` fields: opaque caller payloads that no operation reads or writes.
- Pointer identity: replaced by arena indices. A vertex pointer that belongs to a different registry, or a vertex that was never registered anywhere (a `&Vertex{}` literal), cannot be expressed; `NewHalfEdge` requires an index into its own registry.
- Unregistered vertices: the model treats a non-nil vertex outside the registry as a fault (`Construction.Replay` returns `None`); Go accepts it and the call completes (dcel.go:81-88).
- Direct field assignment by callers (`Twin`, `Next`, `Prev`, `Face`, `ID`, or a vertex's `HalfEdge`): the Go fields are public and callers set them by hand, but no operation in `dcel.go` does. They are modelled as fields that are nil or zero on creation.
- Integer width: vertex coordinates are Go `int` and are only copied, never computed on, so they are unbounded `int` here. The face ID is an `int64` and is modelled with the `Int64` range.
- Concurrency: the registry is not safe for concurrent use; the model is sequential.
