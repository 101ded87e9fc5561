/**
 * The data that uploading copies to the device for one mesh: the vertex
 * positions as one run of floats, and the face indices flattened into one
 * contiguous index buffer.
 */
module Buffers {
  import opened Scene

  /** The vertex positions as the flat float array handed to the device: x, y, z per vertex. */
  function PositionData(vs: seq<Vec3>): seq<real>
  {
    if vs == [] then [] else PositionData(vs[..|vs| - 1]) + [vs[|vs| - 1].x, vs[|vs| - 1].y, vs[|vs| - 1].z]
  }

  /** The position data holds exactly three floats per vertex, each the vertex's own coordinate. */
  lemma {:induction false} PositionDataAt(vs: seq<Vec3>)
    ensures |PositionData(vs)| == 3 * |vs|
    ensures forall i :: 0 <= i < |vs| ==>
      PositionData(vs)[3 * i] == vs[i].x &&
      PositionData(vs)[3 * i + 1] == vs[i].y &&
      PositionData(vs)[3 * i + 2] == vs[i].z
  {
    if vs != [] {
      var init := vs[..|vs| - 1];
      PositionDataAt(init);
      forall i | 0 <= i < |init|
        ensures PositionData(vs)[3 * i] == vs[i].x
        ensures PositionData(vs)[3 * i + 1] == vs[i].y
        ensures PositionData(vs)[3 * i + 2] == vs[i].z
      {
        assert vs[i] == init[i];
      }
    }
  }

  /** The number of indices over all faces, which is the number of writes the copy loop makes. */
  function TotalIndices(faces: seq<Face>): nat
  {
    if faces == [] then 0 else TotalIndices(faces[..|faces| - 1]) + |faces[|faces| - 1]|
  }

  /** Reference flattening: the faces in face order, each face's indices in their own order. */
  function Flatten(faces: seq<Face>): seq<nat>
  {
    if faces == [] then [] else Flatten(faces[..|faces| - 1]) + faces[|faces| - 1]
  }

  /** The size of the buffer the source allocates: face count times the first face's index count. */
  function BufferSize(faces: seq<Face>): nat
  {
    if faces == [] then 0 else |faces| * |faces[0]|
  }

  /** The flattened faces hold every index of every face, and nothing else. */
  lemma {:induction false} FlattenLength(faces: seq<Face>)
    ensures |Flatten(faces)| == TotalIndices(faces)
  {
    if faces != [] {
      FlattenLength(faces[..|faces| - 1]);
    }
  }

  /** A prefix of the faces never needs more writes than all of them. */
  lemma {:induction false} TotalIndicesPrefix(faces: seq<Face>, j: nat)
    requires j <= |faces|
    ensures TotalIndices(faces[..j]) <= TotalIndices(faces)
  {
    if j < |faces| {
      var init := faces[..|faces| - 1];
      assert faces[..j] == init[..j];
      TotalIndicesPrefix(init, j);
    } else {
      assert faces[..j] == faces;
    }
  }

  /** When no face has more than `k` indices, the copy makes at most `|faces| * k` writes. */
  lemma {:induction false} TotalIndicesBounded(faces: seq<Face>, k: nat)
    requires forall j :: 0 <= j < |faces| ==> |faces[j]| <= k
    ensures TotalIndices(faces) <= |faces| * k
  {
    if faces != [] {
      var init := faces[..|faces| - 1];
      TotalIndicesBounded(init, k);
      assert |faces| * k == |init| * k + k;
    }
  }

  /** When every face has exactly `k` indices, the copy makes exactly `|faces| * k` writes. */
  lemma {:induction false} TotalIndicesUniform(faces: seq<Face>, k: nat)
    requires forall j :: 0 <= j < |faces| ==> |faces[j]| == k
    ensures TotalIndices(faces) == |faces| * k
  {
    if faces != [] {
      var init := faces[..|faces| - 1];
      TotalIndicesUniform(init, k);
      assert |faces| * k == |init| * k + k;
    }
  }

  /**
   * Every write of the copy loop lands inside the allocated buffer whenever no
   * face has more indices than the first one; uniform faces are one such case.
   */
  lemma WritesFitWhenBoundedByFirst(faces: seq<Face>)
    requires |faces| > 0
    requires forall j :: 0 <= j < |faces| ==> |faces[j]| <= |faces[0]|
    ensures TotalIndices(faces) <= BufferSize(faces)
  {
    TotalIndicesBounded(faces, |faces[0]|);
  }

  /** With uniform faces the buffer is filled exactly, and the flattened faces fill it. */
  lemma UniformFillsBuffer(faces: seq<Face>)
    requires UniformFaces(faces)
    ensures TotalIndices(faces) == BufferSize(faces) == |Flatten(faces)|
  {
    FlattenLength(faces);
    if faces != [] {
      TotalIndicesUniform(faces, |faces[0]|);
    }
  }

  /** A single face longer than the first is enough to write past the end of the buffer. */
  lemma LongerLaterFaceOverflows()
    ensures TotalIndices([[0], [1, 2]]) > BufferSize([[0], [1, 2]])
  {
    var faces: seq<Face> := [[0], [1, 2]];
    assert faces[..1] == [[0]];
    assert faces[..1][..0] == [];
  }

  /** Offsets into a buffer of `n + 1` rows of `k`: row `j < n` lies before the last row. */
  lemma RowOffsets(n: nat, k: nat, j: nat, i: nat)
    requires j <= n && i < k
    ensures (n + 1) * k == n * k + k
    ensures j < n ==> j * k + i < n * k
  {
    if j < n {
      assert j * k + i < j * k + k == (j + 1) * k;
      assert (j + 1) * k <= n * k;
    }
  }

  /** Position `j * k + i` of the flattened faces is index `i` of face `j`. */
  lemma {:induction false} FlattenAt(faces: seq<Face>, k: nat, j: nat, i: nat)
    requires forall f :: 0 <= f < |faces| ==> |faces[f]| == k
    requires j < |faces| && i < k
    ensures |Flatten(faces)| == |faces| * k
    ensures j * k + i < |Flatten(faces)|
    ensures Flatten(faces)[j * k + i] == faces[j][i]
  {
    var init := faces[..|faces| - 1];
    var n := |init|;
    FlattenLength(faces);
    FlattenLength(init);
    TotalIndicesUniform(faces, k);
    TotalIndicesUniform(init, k);
    RowOffsets(n, k, j, i);
    if j < n {
      FlattenAt(init, k, j, i);
      assert init[j] == faces[j];
    }
  }

  /**
   * The copy loop of the source: a running cursor walks the faces in order and
   * each face's indices in order, writing each into a buffer of
   * `BufferSize(faces)` entries. The source only writes inside that buffer when
   * the total index count fits it, which is what this method requires.
   */
  method FlattenFaces(faces: seq<Face>) returns (faceArray: array<nat>, cursor: nat)
    requires |faces| > 0
    requires TotalIndices(faces) <= BufferSize(faces)
    ensures fresh(faceArray)
    ensures faceArray.Length == BufferSize(faces)
    ensures cursor == TotalIndices(faces)
    ensures faceArray[..cursor] == Flatten(faces)
  {
    faceArray := new nat[|faces| * |faces[0]|];
    cursor := 0;
    for j := 0 to |faces|
      invariant cursor == TotalIndices(faces[..j]) <= faceArray.Length
      invariant faceArray[..cursor] == Flatten(faces[..j])
    {
      TotalIndicesPrefix(faces, j + 1);
      assert faces[..j + 1][..j] == faces[..j];
      for k := 0 to |faces[j]|
        invariant cursor == TotalIndices(faces[..j]) + k <= faceArray.Length
        invariant faceArray[..cursor] == Flatten(faces[..j]) + faces[j][..k]
      {
        faceArray[cursor] := faces[j][k];
        cursor := cursor + 1;
        assert faces[j][..k + 1] == faces[j][..k] + [faces[j][k]];
      }
      assert faces[j][..|faces[j]|] == faces[j];
    }
    assert faces[..|faces|] == faces;
  }
}
