# Scene-to-draw-list translation of the wireframe model viewer

This project models the part of the model viewer that turns an imported scene into
work for the graphics device, and proves properties of that model. The scene is a flat
array of meshes plus a tree of nodes that refer to meshes by index. There are two phases.

- **Upload** (`init`). A handle table gets one slot per mesh. For each mesh, in index order,
  a new vertex array object is created and its name goes into the mesh's slot. The mesh's
  positions are copied into a position buffer when it has positions. Its faces are
  flattened into one contiguous index array and copied into an index buffer when it has faces.
- **Display** (`display` and `nodeTreeTraversal`). Once per frame, when a scene is loaded,
  the node tree is walked depth first in pre-order. Each node first draws its own meshes,
  in the order it lists them; each draw binds the mesh's vertex array and draws face count
  times the first face's index count elements. Then the node's children are visited in
  array order.

Modules:

- `Scene` (scene.dfy): the scene as values. A `Node` is `Null` or a node with mesh indices
  and children, so null node pointers are represented. The module also states what the code
  assumes of the imported scene without checking it (`WellFormed`). Uniform faces
  (`UniformFaces`) are what the triangulating import preset is relied on for (comment at
  load_3d_obj.cc:303-305). In-range mesh references that name meshes with faces (`Drawable`)
  are relied on, unchecked, by `nodeTreeTraversal` (293-299).
- `Buffers` (buffers.dfy): the data copied to the device. `PositionData` gives the flat float
  array. `Flatten` is the reference flattening of faces. `FlattenFaces` is the array-filling
  copy loop with its running cursor, proved against `Flatten`.
- `Traversal` (traversal.dfy): the walk as a pure recursive function `Traverse` that returns
  the draw calls, plus lemmas about count, order and contents.
- `Render` (render.dfy): class `Context` holds the program's global state. That state is
  the scene, the handle table `vaoArray` (an array, as in the source), and the device's vertex
  array and buffer objects. `Init` and `Display` are the program's two phases.

The device is modelled as two object stores. Name `n` denotes the `n`-th object created and
name 0 means "none". A vertex array records the names of its position buffer and index buffer.

The handle table holds one vertex-array name per mesh, and that mesh's buffers are attached
to that vertex array. `display` does not skip meshes without faces: it reads `mFaces[0]` of
every mesh it draws (load_3d_obj.cc:299). The model therefore requires every mesh a node
refers to to have a face.

## Model

| member | source | states |
|---|---|---|
| `Buffers.PositionDataAt` | load_3d_obj.cc:208-217 | the position buffer holds exactly 3 × vertex-count floats, and float 3i, 3i+1, 3i+2 are vertex i's x, y, z, copied verbatim |
| `Buffers.FlattenLength` | load_3d_obj.cc:233-239 | the flattened faces hold exactly as many entries as there are indices over all faces: nothing dropped or added |
| `Buffers.TotalIndicesUniform` | load_3d_obj.cc:230-239 | when every face has K indices, the copy loop writes exactly face-count × K entries |
| `Buffers.TotalIndicesBounded` | load_3d_obj.cc:234-237 | when no face has more than K indices, the copy loop writes at most face-count × K entries |
| `Buffers.WritesFitWhenBoundedByFirst` | load_3d_obj.cc:230-236 | when no face has more indices than the first, every write fits the buffer of face-count × first-face-count entries |
| `Buffers.LongerLaterFaceOverflows` | load_3d_obj.cc:230-236 | faces [[0],[1,2]] make three writes into a buffer sized for two: the buffer size depends on the uniform-faces assumption |
| `Buffers.UniformFillsBuffer` | load_3d_obj.cc:230-250 | with uniform faces, the number of writes, the allocated buffer size and the flattened length all agree |
| `Buffers.FlattenAt` | load_3d_obj.cc:233-238 | with K indices per face, entry j·K + k of the flattened faces is index k of face j, so face order comes first and then within-face order |
| `Buffers.FlattenFaces` | load_3d_obj.cc:230-239 | the cursor loop allocates face-count × first-face-count entries, ends with the cursor at the total index count, and its written prefix equals `Flatten` |
| `Traversal.NodeDrawsAt` | load_3d_obj.cc:285-310 | a node's own draws are one per listed mesh, in list order; draw i binds `vaoArray[m]` and draws mesh m's face count × first-face index count, where m is the node's i-th mesh index |
| `Traversal.TraverseCount` | load_3d_obj.cc:276-319 | the walk issues exactly one draw per mesh reference summed over all nodes; a null node issues none |
| `Traversal.TraverseChildrenCount` | load_3d_obj.cc:316-318 | visiting a run of children issues one draw per mesh reference in their subtrees |
| `Traversal.MeshRefsDrawable` | load_3d_obj.cc:287-299 | every mesh index met in pre-order names a mesh of the scene that has faces, and there are as many as the node mesh counts sum to |
| `Traversal.TraverseFollowsMeshRefs` | load_3d_obj.cc:276-319 | the draw list is the pre-order list of the tree's mesh indices (own meshes first, then each child's subtree), each mapped to its draw |
| `Traversal.ChildSubtreeIsContiguous` | load_3d_obj.cc:315-318 | depth first: a node's draws are its own, then earlier siblings' subtrees, then child j's whole subtree as one run, then later subtrees |
| `Traversal.DrawsNameDrawableMeshes` | load_3d_obj.cc:287-306 | every draw binds `vaoArray[m]` for some mesh m < mesh count that has faces, with that mesh's element count |
| `Buffers.PositionData` | load_3d_obj.cc:216-217 | no contract of its own: the flat float array copied for the positions; specified by `PositionDataAt` |
| `Buffers.Flatten` | load_3d_obj.cc:233-239 | no contract of its own: the reference flattening of the faces, face order then index order; specified by `FlattenLength` and `FlattenAt`, and `FlattenFaces` is proved against it |
| `Buffers.BufferSize` | load_3d_obj.cc:230 | no contract of its own: the allocated entry count, face count × first-face index count (also the upload size at 249); related to the write count by `WritesFitWhenBoundedByFirst`, `UniformFillsBuffer` and `LongerLaterFaceOverflows` |
| `Traversal.ElementCount` | load_3d_obj.cc:297-306 | no contract of its own: face count × first-face index count, the element count of a draw; used by `NodeDrawsAt` and `DrawsNameDrawableMeshes`, and tied to the index buffer length by `Render.Context.Display` |
| `Traversal.DrawFor` | load_3d_obj.cc:293-306 | no contract of its own: the draw for one mesh index, binding `vaoArray[m]`; specified by `NodeDrawsAt` |
| `Traversal.NodeDraws` | load_3d_obj.cc:285-310 | no contract of its own: the draws of a node's own meshes; specified by `NodeDrawsAt` and `NodeDrawsAppend` |
| `Traversal.Traverse` | load_3d_obj.cc:276-319 | no contract of its own: the draws of the walk from a node; specified by `TraverseFollowsMeshRefs`, `TraverseCount`, `ChildSubtreeIsContiguous` and `DrawsNameDrawableMeshes` |
| `Traversal.TraverseChildren` | load_3d_obj.cc:316-318 | no contract of its own: the draws of the children visited in order; specified by `TraverseChildrenCount`, `TraverseChildrenFollowsMeshRefs` and `TraverseChildrenAppend` |
| `Render.MeshBuffers` | load_3d_obj.cc:208-251 | no contract of its own: the buffers one mesh's upload creates; `UploadMesh` is proved against it |
| `Render.SceneBuffers` | load_3d_obj.cc:199-257 | no contract of its own: the buffers the whole upload loop creates, mesh after mesh; `UploadMeshes` and `Init` are proved against it |
| `Render.Context.constructor` | load_3d_obj.cc:80-87 | at start there is no scene, an empty handle table and nothing on the device |
| `Render.Context.Load3DFile` | load_3d_obj.cc:93-126 | an unreadable file leaves the scene unset; otherwise the scene is what the import produced, and loading succeeds exactly when the file is readable and the import produced a scene |
| `Render.Context.Init` | load_3d_obj.cc:189-257 | a failed load creates nothing and stays uninitialised; a successful one reaches Ready, with one handle slot per mesh, distinct names, slot i holding mesh i's upload, and only the expected buffers created |
| `Render.Context.UploadMeshes` | load_3d_obj.cc:194-257 | the handle table is newly allocated with one slot per mesh; slot i names the vertex array created while processing mesh i, which holds mesh i's upload; the buffers created are exactly `SceneBuffers` of the meshes |
| `Render.Context.UploadSlot` | load_3d_obj.cc:199-257 | one turn of the mesh loop: a new vertex array for mesh i goes in slot i, and its upload keeps every earlier slot's upload intact |
| `Render.Context.UploadMesh` | load_3d_obj.cc:208-251 | a position buffer with the verbatim positions exactly when the mesh has positions, an index buffer with the flattened faces exactly when it has faces, and no other buffer |
| `Render.UploadedAsKept` | load_3d_obj.cc:199-257 | a later mesh's buffers never disturb an earlier mesh's upload |
| `Render.Context.Display` | load_3d_obj.cc:321-335 | no scene: no draws; otherwise the draws are the traversal from the root, and each binds an existing vertex array whose index buffer holds exactly as many indices as the draw's count |

## Left out

- Shader creation, compilation and linking (load_3d_obj.cc:134-180) and the attribute lookup of `vPos`. These are device calls and console messages; a failed lookup (`vPos == -1`) is not modelled.
- Device state setup after the upload (depth test, polygon mode, clear colour, 259-271), and in `display` the clear, program activation and buffer swap. They do not affect the draw list.
- The binding calls themselves (`glBindVertexArray`, `glBindBuffer`, unbinding to 0). The model records their net effect: a vertex array holds the names of the buffers attached while it was bound.
- Device-chosen object names. The model names objects in creation order: name n is the n-th object created, and `UploadedAs`, `Ready` and `DrawInBounds` look objects up by position n - 1. A real device need not choose names that way. The contracts of `Init` and `Display` do not say which name a mesh's slot holds, only that slot names are distinct and name existing objects. The internal upload steps (`UploadMeshes`, `UploadSlot`, `UploadedPrefix`) do fix slot i to name i + 1.
- The file-existence check and the import (95-119). They are inputs: a readability flag and the imported scene, or none. The import's error string and the printing of the scene (`printAiSceneInfo`, all of assimp_utilities.hpp) are console output and are left out.
- Floating-point values. Positions are three `real` coordinates that are copied and never computed on.
- Machine integer widths. Counts, indices and the `int` cursor are unbounded. The source's 32-bit `unsigned int` products and `int faceArrayIndex` could wrap around for huge meshes; the model does not capture that.
- `malloc`/`free` and the reuse of the global `faceArray` (230, 400): only the last mesh's face array is ever freed. Each call of `FlattenFaces` allocates a fresh array.
- Null mesh pointers in the scene's mesh array, and a null vertex or face array with a nonzero count. A mesh's arrays are sequences, and "has positions" or "has faces" means non-empty.
- Console output: the null-node message of `nodeTreeTraversal` (278), the messages of `load3DFile` (102, 106, 115, 118) and the shader error messages. None of it is consumed by other code.
- GLUT windowing, `reshape`, `keyboard` and `main` (339-401): event-loop and UI code.
- Render.Context.Init: requires every mesh's faces to be uniform, which the triangulating import preset guarantees. With non-uniform faces the source either writes past its buffer (see `Buffers.LongerLaterFaceOverflows`) or uploads uninitialised trailing entries; the model represents neither.
- Traversal.Traverse: requires every mesh index a node lists to be below the mesh count and to name a mesh with at least one face. Otherwise the source reads outside `vaoArray` or `mMeshes`, or reads the first face of an empty face array; that undefined behaviour is not modelled.
