/**
 * The program's own state and its two phases: `Init` loads the scene and
 * uploads every mesh, filling the handle table that maps mesh index to vertex
 * array name; `Display` walks the node tree once per frame and issues the
 * draws. The graphics device is modelled as two stores of objects, vertex
 * arrays and buffers, in which name `n` denotes the `n`-th object created;
 * name 0 means "no object", as it does on the device.
 */
module Render {
  import opened Scene
  import opened Buffers
  import opened Traversal

  /** A buffer object and the data uploaded into it. */
  datatype BufferObject = ArrayBuffer(floats: seq<real>) | ElementArrayBuffer(indices: seq<nat>)

  /** A vertex array object: the position buffer and the index buffer it records (0: none). */
  datatype VertexArray = VertexArray(positionBuffer: nat, elementBuffer: nat)

  /** The buffers that uploading creates for one mesh, in creation order. */
  function MeshBuffers(m: Mesh): seq<BufferObject>
  {
    (if HasPositions(m) then [ArrayBuffer(PositionData(m.vertices))] else []) +
    (if HasFaces(m) then [ElementArrayBuffer(Flatten(m.faces))] else [])
  }

  /** The buffers that uploading creates for a run of meshes, mesh after mesh. */
  function SceneBuffers(ms: seq<Mesh>): seq<BufferObject>
  {
    if ms == [] then [] else SceneBuffers(ms[..|ms| - 1]) + MeshBuffers(ms[|ms| - 1])
  }

  /** Uploading one more mesh appends that mesh's buffers. */
  lemma SceneBuffersStep(ms: seq<Mesh>, i: nat)
    requires i < |ms|
    ensures SceneBuffers(ms[..i + 1]) == SceneBuffers(ms[..i]) + MeshBuffers(ms[i])
  {
    assert ms[..i + 1][..i] == ms[..i];
  }

  /**
   * Vertex array `v` is what uploading mesh `m` left behind: a position buffer
   * holding the mesh's positions exactly when the mesh has positions, and an
   * index buffer holding its flattened faces exactly when it has faces.
   */
  predicate UploadedAs(m: Mesh, v: VertexArray, buffers: seq<BufferObject>)
  {
    (HasPositions(m) <==> v.positionBuffer != 0) &&
    (v.positionBuffer != 0 ==>
       v.positionBuffer <= |buffers| &&
       buffers[v.positionBuffer - 1] == ArrayBuffer(PositionData(m.vertices))) &&
    (HasFaces(m) <==> v.elementBuffer != 0) &&
    (v.elementBuffer != 0 ==>
       v.elementBuffer <= |buffers| &&
       buffers[v.elementBuffer - 1] == ElementArrayBuffer(Flatten(m.faces)))
  }

  /** Creating more buffers does not disturb what an earlier upload left behind. */
  lemma UploadedAsKept(m: Mesh, v: VertexArray, buffers: seq<BufferObject>, more: seq<BufferObject>)
    requires UploadedAs(m, v, buffers)
    ensures UploadedAs(m, v, buffers + more)
  {
  }

  /** The first `n` vertex arrays are the uploads of the first `n` meshes. */
  predicate AllUploaded(ms: seq<Mesh>, vs: seq<VertexArray>, buffers: seq<BufferObject>, n: nat)
  {
    n <= |ms| && n <= |vs| &&
    forall j :: 0 <= j < n ==> UploadedAs(ms[j], vs[j], buffers)
  }

  /** Uploading mesh `n` into vertex array `n` extends the uploaded prefix by one. */
  lemma AllUploadedStep(ms: seq<Mesh>, vs: seq<VertexArray>, buffers: seq<BufferObject>,
                        more: seq<BufferObject>, n: nat, v: VertexArray)
    requires AllUploaded(ms, vs, buffers, n) && n < |ms| && n < |vs|
    requires UploadedAs(ms[n], v, buffers + more)
    ensures AllUploaded(ms, vs[n := v], buffers + more, n + 1)
  {
    forall j | 0 <= j < n ensures UploadedAs(ms[j], vs[j], buffers + more) {
      UploadedAsKept(ms[j], vs[j], buffers, more);
    }
  }

  /** Draw `d` binds an existing vertex array whose index buffer holds exactly `d.count` indices. */
  predicate DrawInBounds(d: DrawCall, vertexArrays: seq<VertexArray>, buffers: seq<BufferObject>)
  {
    1 <= d.vao <= |vertexArrays| &&
    var eb := vertexArrays[d.vao - 1].elementBuffer;
    1 <= eb <= |buffers| && buffers[eb - 1].ElementArrayBuffer? && |buffers[eb - 1].indices| == d.count
  }

  /** The program's global state: the loaded scene, the handle table and the device's objects. */
  class Context {
    var scene: Option<Scene>
    var vaoArray: array<nat>
    var vertexArrays: seq<VertexArray>
    var buffers: seq<BufferObject>

    /** The "Ready" state: a scene is loaded and slot `i` of the handle table holds mesh `i`'s upload. */
    ghost predicate Ready()
      reads this, vaoArray
    {
      scene.Some? && WellFormed(scene.value) &&
      vaoArray.Length == |scene.value.meshes| &&
      (forall i :: 0 <= i < vaoArray.Length ==>
         1 <= vaoArray[i] <= |vertexArrays| &&
         UploadedAs(scene.value.meshes[i], vertexArrays[vaoArray[i] - 1], buffers))
    }

    /** The two states of the program: no scene ("Uninitialized"), or Ready. */
    ghost predicate Valid()
      reads this, vaoArray
    {
      scene.None? || Ready()
    }

    /** Program start: no scene, an empty handle table, nothing on the device. */
    constructor ()
      ensures scene.None? && vaoArray.Length == 0 && vertexArrays == [] && buffers == []
      ensures Valid()
    {
      scene := None;
      vaoArray := new nat[0];
      vertexArrays := [];
      buffers := [];
    }

    /**
     * Loading, an internal step of `Init`: the two-state invariant `Valid()`
     * is not promised between it and the upload that follows.
     * An unreadable file leaves the scene as it was; otherwise the
     * scene becomes what the import produced, and loading succeeds exactly when
     * the import produced one.
     */
    method Load3DFile(fileReadable: bool, imported: Option<Scene>) returns (loaded: bool)
      modifies this`scene
      ensures scene == (if fileReadable then imported else old(scene))
      ensures loaded == (fileReadable && imported.Some?)
    {
      if !fileReadable {
        return false;
      }
      scene := imported;
      loaded := scene.Some?;
    }

    /**
     * Load the scene and upload every mesh in index order. On failure nothing
     * is created. On success the handle table has one slot per mesh, its names
     * are distinct, slot `i` holds mesh `i`'s upload, and the only buffers
     * created are each mesh's position buffer and index buffer, where it has them.
     */
    method Init(fileReadable: bool, imported: Option<Scene>)
      requires scene.None? && vertexArrays == [] && buffers == []
      requires imported.Some? ==> WellFormed(imported.value)
      modifies this
      ensures Valid()
      ensures scene == (if fileReadable then imported else None)
      ensures scene.None? ==> vaoArray == old(vaoArray) && vertexArrays == [] && buffers == []
      ensures scene.Some? ==> Ready() && fresh(vaoArray)
      ensures scene.Some? ==> |vertexArrays| == |scene.value.meshes|
      ensures scene.Some? ==> forall i, j :: 0 <= i < j < vaoArray.Length ==> vaoArray[i] != vaoArray[j]
      ensures scene.Some? ==> buffers == SceneBuffers(scene.value.meshes)
    {
      var fileLoaded := Load3DFile(fileReadable, imported);
      if !fileLoaded {
        return;
      }
      UploadMeshes(scene.value.meshes);
    }

    /**
     * The first `i` meshes are uploaded: slot `j` of the handle table names
     * vertex array `j`, which holds mesh `j`'s upload, and the buffers created
     * so far are exactly those of the first `i` meshes.
     */
    ghost predicate UploadedPrefix(meshes: seq<Mesh>, i: nat)
      reads this, vaoArray
    {
      i <= |meshes| == vaoArray.Length && |vertexArrays| == i &&
      (forall j :: 0 <= j < i ==> vaoArray[j] == j + 1) &&
      AllUploaded(meshes, vertexArrays, buffers, i) &&
      buffers == SceneBuffers(meshes[..i])
    }

    /**
     * The upload loop of `init`: a newly allocated handle table with one slot
     * per mesh, then each mesh uploaded in index order. An internal step of
     * `Init`, during which the two-state invariant `Valid()` deliberately does
     * not hold.
     */
    method UploadMeshes(meshes: seq<Mesh>)
      requires vertexArrays == [] && buffers == []
      requires forall i :: 0 <= i < |meshes| ==> UniformFaces(meshes[i].faces)
      modifies this
      ensures scene == old(scene) && fresh(vaoArray)
      ensures vaoArray.Length == |vertexArrays| == |meshes|
      ensures forall i :: 0 <= i < |meshes| ==> vaoArray[i] == i + 1
      ensures AllUploaded(meshes, vertexArrays, buffers, |meshes|)
      ensures buffers == SceneBuffers(meshes)
    {
      vaoArray := new nat[|meshes|];
      for i := 0 to |meshes|
        invariant scene == old(scene) && fresh(vaoArray)
        invariant UploadedPrefix(meshes, i)
      {
        UploadSlot(meshes, i);
      }
      assert meshes[..|meshes|] == meshes;
    }

    /**
     * One turn of the upload loop: a new vertex array for mesh `i`, its name
     * stored in slot `i` of the handle table, and the mesh's buffers attached.
     * Internal to `Init`; `Valid()` does not hold here.
     */
    method UploadSlot(meshes: seq<Mesh>, i: nat)
      requires UploadedPrefix(meshes, i) && i < |meshes|
      requires UniformFaces(meshes[i].faces)
      modifies this, vaoArray
      ensures scene == old(scene) && vaoArray == old(vaoArray)
      ensures UploadedPrefix(meshes, i + 1)
    {
      // A new vertex array, bound while this mesh's buffers are attached.
      vertexArrays := vertexArrays + [VertexArray(0, 0)];
      var name := |vertexArrays|;
      ghost var before := buffers;
      var current := UploadMesh(meshes[i]);
      AllUploadedStep(meshes, vertexArrays, before, MeshBuffers(meshes[i]), i, current);
      vertexArrays := vertexArrays[i := current];
      SceneBuffersStep(meshes, i);
      vaoArray[i] := name;
    }

    /**
     * Internal to `Init`, like the loop it belongs to; `Valid()` does not hold here.
     * The body of the upload loop for one mesh, with its vertex array bound:
     * a position buffer when the mesh has positions, then an index buffer
     * built by flattening the faces when it has faces.
     */
    method UploadMesh(mesh: Mesh) returns (current: VertexArray)
      requires UniformFaces(mesh.faces)
      modifies this`buffers
      ensures buffers == old(buffers) + MeshBuffers(mesh)
      ensures UploadedAs(mesh, current, buffers)
    {
      current := VertexArray(0, 0);
      if HasPositions(mesh) {
        // A new array buffer receives three floats per vertex; the vertex array records it.
        buffers := buffers + [ArrayBuffer(PositionData(mesh.vertices))];
        current := current.(positionBuffer := |buffers|);
      }
      if HasFaces(mesh) {
        UniformFillsBuffer(mesh.faces);
        var faceArray, cursor := FlattenFaces(mesh.faces);
        assert faceArray[..] == faceArray[..cursor];
        // A new index buffer receives the whole face array; the vertex array records it.
        buffers := buffers + [ElementArrayBuffer(faceArray[..])];
        current := current.(elementBuffer := |buffers|);
      }
    }

    /**
     * One frame: nothing is drawn without a scene; otherwise the draws are the
     * traversal from the root, and every draw binds an existing vertex array
     * whose index buffer holds exactly as many indices as the draw reads.
     */
    method Display() returns (draws: seq<DrawCall>)
      requires Valid()
      ensures scene.None? ==> draws == []
      ensures scene.Some? ==> draws == Traverse(scene.value.meshes, vaoArray[..], scene.value.root)
      ensures forall k :: 0 <= k < |draws| ==> DrawInBounds(draws[k], vertexArrays, buffers)
    {
      if scene.None? {
        return [];
      }
      var meshes := scene.value.meshes;
      var table := vaoArray[..];
      draws := Traverse(meshes, table, scene.value.root);
      DrawsNameDrawableMeshes(meshes, table, scene.value.root);
      forall k | 0 <= k < |draws|
        ensures DrawInBounds(draws[k], vertexArrays, buffers)
      {
        var m :| 0 <= m < |meshes| && HasFaces(meshes[m]) &&
                 draws[k] == DrawCall(table[m], ElementCount(meshes[m]));
        assert UploadedAs(meshes[m], vertexArrays[vaoArray[m] - 1], buffers);
        UniformFillsBuffer(meshes[m].faces);
      }
    }
  }
}
