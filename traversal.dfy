/**
 * The per-frame walk of the node tree: depth first, pre-order. A node's own
 * meshes are drawn first, in the order the node lists them, then its children
 * are visited in child-array order. The walk only reads the scene and the
 * handle table; its one effect is the list of draw calls it issues.
 */
module Traversal {
  import opened Scene

  /** One indexed-triangle draw: the vertex array object bound, and the element count drawn. */
  datatype DrawCall = DrawCall(vao: nat, count: nat)

  /** The element count drawn for a mesh: its face count times the first face's index count. */
  function ElementCount(m: Mesh): nat
    requires HasFaces(m)
  {
    |m.faces| * |m.faces[0]|
  }

  /** The draw issued for mesh index `m`: bind `vaoArray[m]`, draw the mesh's elements. */
  function DrawFor(meshes: seq<Mesh>, vaoArray: seq<nat>, m: nat): DrawCall
    requires |vaoArray| == |meshes| && m < |meshes| && HasFaces(meshes[m])
  {
    DrawCall(vaoArray[m], ElementCount(meshes[m]))
  }

  /** The draws for one node's own meshes, the first loop of the traversal. */
  function NodeDraws(meshes: seq<Mesh>, vaoArray: seq<nat>, ms: seq<nat>): seq<DrawCall>
    requires |vaoArray| == |meshes| && DrawableRefs(meshes, ms)
  {
    if ms == [] then []
    else NodeDraws(meshes, vaoArray, ms[..|ms| - 1]) + [DrawFor(meshes, vaoArray, ms[|ms| - 1])]
  }

  /** The draws issued when visiting `node`: nothing for a null node. */
  function Traverse(meshes: seq<Mesh>, vaoArray: seq<nat>, node: Node): seq<DrawCall>
    requires |vaoArray| == |meshes| && Drawable(meshes, node)
    decreases node
  {
    match node
    case Null => []
    case Node(ms, cs) => NodeDraws(meshes, vaoArray, ms) + TraverseChildren(meshes, vaoArray, cs)
  }

  /** The draws issued by visiting the children in order, the second loop of the traversal. */
  function TraverseChildren(meshes: seq<Mesh>, vaoArray: seq<nat>, cs: seq<Node>): seq<DrawCall>
    requires |vaoArray| == |meshes|
    requires ChildrenDrawable(meshes, cs)
    decreases cs
  {
    if cs == [] then []
    else TraverseChildren(meshes, vaoArray, cs[..|cs| - 1]) + Traverse(meshes, vaoArray, cs[|cs| - 1])
  }

  /** The number of mesh references over all nodes of the tree: the sum of every node's mesh count. */
  function MeshCount(node: Node): nat
    decreases node
  {
    match node
    case Null => 0
    case Node(ms, cs) => |ms| + ChildrenMeshCount(cs)
  }

  function ChildrenMeshCount(cs: seq<Node>): nat
    decreases cs
  {
    if cs == [] then 0 else ChildrenMeshCount(cs[..|cs| - 1]) + MeshCount(cs[|cs| - 1])
  }

  /** The mesh indices of the tree listed in pre-order: a node's own, then each child's subtree. */
  function MeshRefs(node: Node): seq<nat>
    decreases node
  {
    match node
    case Null => []
    case Node(ms, cs) => ms + ChildrenMeshRefs(cs)
  }

  function ChildrenMeshRefs(cs: seq<Node>): seq<nat>
    decreases cs
  {
    if cs == [] then [] else ChildrenMeshRefs(cs[..|cs| - 1]) + MeshRefs(cs[|cs| - 1])
  }

  /** A node's own draws follow its mesh list one for one: draw `i` is for mesh `ms[i]`. */
  lemma {:induction false} NodeDrawsAt(meshes: seq<Mesh>, vaoArray: seq<nat>, ms: seq<nat>)
    requires |vaoArray| == |meshes| && DrawableRefs(meshes, ms)
    ensures |NodeDraws(meshes, vaoArray, ms)| == |ms|
    ensures forall i :: 0 <= i < |ms| ==>
      NodeDraws(meshes, vaoArray, ms)[i] == DrawCall(vaoArray[ms[i]], ElementCount(meshes[ms[i]]))
  {
    if ms != [] {
      var init := ms[..|ms| - 1];
      NodeDrawsAt(meshes, vaoArray, init);
      forall i | 0 <= i < |init|
        ensures NodeDraws(meshes, vaoArray, ms)[i] == DrawCall(vaoArray[ms[i]], ElementCount(meshes[ms[i]]))
      {
        assert init[i] == ms[i];
      }
    }
  }

  /** Drawing the meshes of two lists in turn is drawing the meshes of the joined list. */
  lemma {:induction false} NodeDrawsAppend(meshes: seq<Mesh>, vaoArray: seq<nat>, a: seq<nat>, b: seq<nat>)
    requires |vaoArray| == |meshes| && DrawableRefs(meshes, a) && DrawableRefs(meshes, b)
    ensures DrawableRefs(meshes, a + b)
    ensures NodeDraws(meshes, vaoArray, a + b) == NodeDraws(meshes, vaoArray, a) + NodeDraws(meshes, vaoArray, b)
  {
    if b != [] {
      var init := b[..|b| - 1];
      assert (a + b)[..|a + b| - 1] == a + init;
      NodeDrawsAppend(meshes, vaoArray, a, init);
    } else {
      assert a + b == a;
    }
  }

  /** Visiting two runs of siblings in turn is visiting the joined run. */
  lemma {:induction false} TraverseChildrenAppend(meshes: seq<Mesh>, vaoArray: seq<nat>, a: seq<Node>, b: seq<Node>)
    requires |vaoArray| == |meshes|
    requires ChildrenDrawable(meshes, a) && ChildrenDrawable(meshes, b)
    ensures ChildrenDrawable(meshes, a + b)
    ensures TraverseChildren(meshes, vaoArray, a + b) ==
            TraverseChildren(meshes, vaoArray, a) + TraverseChildren(meshes, vaoArray, b)
  {
    if b != [] {
      var init := b[..|b| - 1];
      assert (a + b)[..|a + b| - 1] == a + init;
      TraverseChildrenAppend(meshes, vaoArray, a, init);
    } else {
      assert a + b == a;
    }
  }

  /** The traversal issues exactly one draw per mesh reference of the tree; a null node issues none. */
  lemma {:induction false} TraverseCount(meshes: seq<Mesh>, vaoArray: seq<nat>, node: Node)
    requires |vaoArray| == |meshes| && Drawable(meshes, node)
    ensures |Traverse(meshes, vaoArray, node)| == MeshCount(node)
    decreases node
  {
    match node
    case Null =>
    case Node(ms, cs) =>
      NodeDrawsAt(meshes, vaoArray, ms);
      TraverseChildrenCount(meshes, vaoArray, cs);
  }

  lemma {:induction false} TraverseChildrenCount(meshes: seq<Mesh>, vaoArray: seq<nat>, cs: seq<Node>)
    requires |vaoArray| == |meshes|
    requires ChildrenDrawable(meshes, cs)
    ensures |TraverseChildren(meshes, vaoArray, cs)| == ChildrenMeshCount(cs)
    decreases cs
  {
    if cs != [] {
      TraverseChildrenCount(meshes, vaoArray, cs[..|cs| - 1]);
      TraverseCount(meshes, vaoArray, cs[|cs| - 1]);
    }
  }

  /** Every mesh index of a drawable tree, in pre-order, names a drawable mesh. */
  lemma {:induction false} MeshRefsDrawable(meshes: seq<Mesh>, node: Node)
    requires Drawable(meshes, node)
    ensures DrawableRefs(meshes, MeshRefs(node))
    ensures |MeshRefs(node)| == MeshCount(node)
    decreases node
  {
    match node
    case Null =>
    case Node(ms, cs) =>
      ChildrenMeshRefsDrawable(meshes, cs);
  }

  lemma {:induction false} ChildrenMeshRefsDrawable(meshes: seq<Mesh>, cs: seq<Node>)
    requires ChildrenDrawable(meshes, cs)
    ensures DrawableRefs(meshes, ChildrenMeshRefs(cs))
    ensures |ChildrenMeshRefs(cs)| == ChildrenMeshCount(cs)
    decreases cs
  {
    if cs != [] {
      ChildrenMeshRefsDrawable(meshes, cs[..|cs| - 1]);
      MeshRefsDrawable(meshes, cs[|cs| - 1]);
    }
  }

  /**
   * The traversal is the pre-order list of the tree's mesh references, each
   * turned into its draw: the draws come in pre-order and nothing is skipped,
   * repeated or reordered.
   */
  lemma {:induction false} TraverseFollowsMeshRefs(meshes: seq<Mesh>, vaoArray: seq<nat>, node: Node)
    requires |vaoArray| == |meshes| && Drawable(meshes, node)
    ensures DrawableRefs(meshes, MeshRefs(node))
    ensures Traverse(meshes, vaoArray, node) == NodeDraws(meshes, vaoArray, MeshRefs(node))
    decreases node
  {
    MeshRefsDrawable(meshes, node);
    match node
    case Null =>
    case Node(ms, cs) =>
      TraverseChildrenFollowsMeshRefs(meshes, vaoArray, cs);
      NodeDrawsAppend(meshes, vaoArray, ms, ChildrenMeshRefs(cs));
  }

  lemma {:induction false} TraverseChildrenFollowsMeshRefs(meshes: seq<Mesh>, vaoArray: seq<nat>, cs: seq<Node>)
    requires |vaoArray| == |meshes|
    requires ChildrenDrawable(meshes, cs)
    ensures DrawableRefs(meshes, ChildrenMeshRefs(cs))
    ensures TraverseChildren(meshes, vaoArray, cs) == NodeDraws(meshes, vaoArray, ChildrenMeshRefs(cs))
    decreases cs
  {
    ChildrenMeshRefsDrawable(meshes, cs);
    if cs != [] {
      var init := cs[..|cs| - 1];
      TraverseChildrenFollowsMeshRefs(meshes, vaoArray, init);
      TraverseFollowsMeshRefs(meshes, vaoArray, cs[|cs| - 1]);
      NodeDrawsAppend(meshes, vaoArray, ChildrenMeshRefs(init), MeshRefs(cs[|cs| - 1]));
    }
  }

  /**
   * Every draw of the traversal is for some mesh `m` of the scene that has
   * faces: it binds `vaoArray[m]` and draws that mesh's element count.
   */
  lemma DrawsNameDrawableMeshes(meshes: seq<Mesh>, vaoArray: seq<nat>, node: Node)
    requires |vaoArray| == |meshes| && Drawable(meshes, node)
    ensures forall k :: 0 <= k < |Traverse(meshes, vaoArray, node)| ==>
      (exists m :: 0 <= m < |meshes| && HasFaces(meshes[m]) &&
         Traverse(meshes, vaoArray, node)[k] == DrawCall(vaoArray[m], ElementCount(meshes[m])))
  {
    TraverseFollowsMeshRefs(meshes, vaoArray, node);
    var refs := MeshRefs(node);
    NodeDrawsAt(meshes, vaoArray, refs);
    forall k | 0 <= k < |Traverse(meshes, vaoArray, node)|
      ensures exists m :: 0 <= m < |meshes| && HasFaces(meshes[m]) &&
                Traverse(meshes, vaoArray, node)[k] == DrawCall(vaoArray[m], ElementCount(meshes[m]))
    {
      var m := refs[k];
      assert Traverse(meshes, vaoArray, node)[k] == DrawCall(vaoArray[m], ElementCount(meshes[m]));
    }
  }

  /** Any run of siblings cut from a drawable run is drawable. */
  lemma ChildrenDrawableSlice(meshes: seq<Mesh>, cs: seq<Node>, lo: nat, hi: nat)
    requires ChildrenDrawable(meshes, cs) && lo <= hi <= |cs|
    ensures ChildrenDrawable(meshes, cs[lo..hi])
  {
    forall i | 0 <= i < hi - lo ensures Drawable(meshes, cs[lo..hi][i]) {
      assert cs[lo..hi][i] == cs[lo + i];
    }
  }

  /** Visiting a run of one child is visiting that child. */
  lemma TraverseOneChild(meshes: seq<Mesh>, vaoArray: seq<nat>, c: Node)
    requires |vaoArray| == |meshes| && Drawable(meshes, c)
    ensures ChildrenDrawable(meshes, [c])
    ensures TraverseChildren(meshes, vaoArray, [c]) == Traverse(meshes, vaoArray, c)
  {
    assert [c][..0] == [];
  }

  /** A sequence is its part before position `j`, its element at `j`, and its part after. */
  lemma SplitAt<T>(s: seq<T>, j: nat)
    requires j < |s|
    ensures s == s[..j] + s[j..] && s[j..] == [s[j]] + s[j + 1..]
  {
  }

  /** Joining four sequences does not depend on how the joins are grouped. */
  lemma Reassociate<T>(a: seq<T>, b: seq<T>, c: seq<T>, d: seq<T>)
    ensures a + (b + (c + d)) == a + b + c + d
  {
  }

  /** Visiting a run of siblings is visiting those before a child, then the child, then those after. */
  lemma TraverseChildrenSplit(meshes: seq<Mesh>, vaoArray: seq<nat>, before: seq<Node>, c: Node, after: seq<Node>)
    requires |vaoArray| == |meshes|
    requires ChildrenDrawable(meshes, before) && Drawable(meshes, c) && ChildrenDrawable(meshes, after)
    ensures ChildrenDrawable(meshes, before + ([c] + after))
    ensures TraverseChildren(meshes, vaoArray, before + ([c] + after)) ==
            TraverseChildren(meshes, vaoArray, before) +
            (Traverse(meshes, vaoArray, c) + TraverseChildren(meshes, vaoArray, after))
  {
    TraverseOneChild(meshes, vaoArray, c);
    TraverseChildrenAppend(meshes, vaoArray, [c], after);
    TraverseChildrenAppend(meshes, vaoArray, before, [c] + after);
  }

  /**
   * Depth first, pre-order: the draws of a node are its own meshes' draws,
   * then the whole subtree of each earlier child, then child `j`'s subtree as
   * one contiguous run, then the later children's subtrees.
   */
  lemma ChildSubtreeIsContiguous(meshes: seq<Mesh>, vaoArray: seq<nat>, ms: seq<nat>, cs: seq<Node>, j: nat)
    requires |vaoArray| == |meshes| && Drawable(meshes, Node(ms, cs))
    requires j < |cs|
    ensures Drawable(meshes, cs[j])
    ensures ChildrenDrawable(meshes, cs[..j]) && ChildrenDrawable(meshes, cs[j + 1..])
    ensures Traverse(meshes, vaoArray, Node(ms, cs)) ==
            NodeDraws(meshes, vaoArray, ms) +
            TraverseChildren(meshes, vaoArray, cs[..j]) +
            Traverse(meshes, vaoArray, cs[j]) +
            TraverseChildren(meshes, vaoArray, cs[j + 1..])
  {
    var before, c, after := cs[..j], cs[j], cs[j + 1..];
    ChildrenDrawableSlice(meshes, cs, 0, j);
    ChildrenDrawableSlice(meshes, cs, j + 1, |cs|);
    var own, tBefore := NodeDraws(meshes, vaoArray, ms), TraverseChildren(meshes, vaoArray, before);
    var tChild, tAfter := Traverse(meshes, vaoArray, c), TraverseChildren(meshes, vaoArray, after);
    assert TraverseChildren(meshes, vaoArray, cs) == tBefore + (tChild + tAfter) by {
      SplitAt(cs, j);
      TraverseChildrenSplit(meshes, vaoArray, before, c, after);
    }
    assert Traverse(meshes, vaoArray, Node(ms, cs)) == own + (tBefore + (tChild + tAfter));
    Reassociate(own, tBefore, tChild, tAfter);
  }

}
