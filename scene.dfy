/**
 * The imported scene as the renderer reads it: a flat collection of meshes
 * and a tree of nodes that refer to those meshes by index. The renderer never
 * changes any of it, so every entity here is a value.
 */
module Scene {

  datatype Option<+T> = None | Some(value: T)

  /** One vertex position. The source holds three floats; they are only copied, never computed on. */
  datatype Vec3 = Vec3(x: real, y: real, z: real)

  /** The vertex indices of one polygon. */
  type Face = seq<nat>

  datatype Mesh = Mesh(vertices: seq<Vec3>, faces: seq<Face>)

  /** A node pointer of the scene graph, which may be null. */
  datatype Node = Null | Node(meshes: seq<nat>, children: seq<Node>)

  datatype Scene = Scene(meshes: seq<Mesh>, root: Node)

  /** A mesh has positions when its vertex array is present and non-empty. */
  predicate HasPositions(m: Mesh) {
    |m.vertices| > 0
  }

  /** A mesh has faces when its face array is present and non-empty. */
  predicate HasFaces(m: Mesh) {
    |m.faces| > 0
  }

  /** Every face has the same number of indices as the first one (a triangulated mesh). */
  predicate UniformFaces(faces: seq<Face>) {
    forall j :: 0 <= j < |faces| ==> |faces[j]| == |faces[0]|
  }

  /** The mesh indices of a node all name meshes of `meshes` that have at least one face. */
  predicate DrawableRefs(meshes: seq<Mesh>, ms: seq<nat>)
  {
    forall i :: 0 <= i < |ms| ==> ms[i] < |meshes| && HasFaces(meshes[ms[i]])
  }

  /**
   * Every mesh index reachable from `node` names a mesh of `meshes`, and that
   * mesh has at least one face, so that its first face can be read at draw time.
   */
  predicate Drawable(meshes: seq<Mesh>, node: Node)
    decreases node
  {
    match node
    case Null => true
    case Node(ms, cs) =>
      DrawableRefs(meshes, ms) && ChildrenDrawable(meshes, cs)
  }

  /** Every node of a run of siblings is drawable. */
  predicate ChildrenDrawable(meshes: seq<Mesh>, cs: seq<Node>)
    decreases cs
  {
    forall j :: 0 <= j < |cs| ==> Drawable(meshes, cs[j])
  }

  /**
   * What the code assumes of the imported scene without checking it. Uniform
   * faces are what the triangulating import preset is relied on for; the mesh
   * references of the node tree are taken to be in range and to name meshes
   * with faces, since the traversal indexes the handle table, the mesh array
   * and each mesh's first face with them.
   */
  predicate WellFormed(s: Scene) {
    (forall i :: 0 <= i < |s.meshes| ==> UniformFaces(s.meshes[i].faces)) &&
    Drawable(s.meshes, s.root)
  }
}
