# Voxel storage of OpenGLVoxelPathTracer, in Dafny

This project models the integer storage layer of the voxel path tracer and proves properties about it.

**Voxel grid.** `VoxelGrid` packs a 3-D grid of 4-bit cells into 32-bit words, eight cells per word along Y.
- `getVoxel` reads a cell.
- `setVoxel` rewrites one nibble.
- `encodeData_` builds the packed words from the flat byte array a MagicaVoxel model loads into.

**Brick map and bricks.**
- The brick map is a grid of brick ids. 0 means air, and `k` names brick `k - 1`.
- A brick is an 8x8x8 grid of material indices.
- While a brick loads, its source palette indices are replaced by compact material indices 1, 2, 3, … in first-seen scan order, using a 256-entry lookup table.
- Material 0 is the empty material.

**The renderer side.**
- `isPositionOccupied` makes a two-level lookup: first the brick map, then the named brick.
- The material section of `loadScene` packs every brick's materials into one flat buffer. Each brick has 16 two-word slots: `color | roughness << 24`, then `emission`.

**Modules.**
- `Packing` (packing.dfy) covers grid values and the nibble operations. It includes the encoder, both as the function `Encode` and as the array-filling loops of `encodeData`. It also proves the round trip `getVoxel(x, y, z) == voxel_data[(y*sz + z)*sx + x]`.
- `Palette` (palette.dfy) specifies the remap as functions of the scanned bytes:
  - `FirstSeen`
  - `Code`
  - `Remapped`
  - `Materials`
  - the lookup-table contents `TableEntry`
- `Voxels` (voxels.dfy) covers the current revision (src/brick.h). `VoxelGrid` is a class over an array with `GetVoxel`, `SetVoxel` and `EncodeData`. It also holds the `BrickMap` and `Brick` constructors, and the remap loop as an imperative loop over the table and byte arrays, proved against `Palette`.
- `Legacy` (legacy.dfy) covers the older revision (brick.h):
  - `BrickMap` whose `data` pointer stays null when loading fails.
  - `Brick` with a fixed `mats[16]` array and a `matCount` counter.
- `Scene` (scene.dfy) covers the two pieces of main.cpp.

**Positions.** A position `pos` is given on each axis as the integer `u = floor(8 * pos)`. Then:
- The source's bound `0 <= pos < size` is exactly `0 <= u < 8 * size`.
- The brick-map cell `floor(pos)` is `u / 8`.
- The in-brick cell is `u % 8`.

No floating point is needed.

**Where the code and the design description disagree:**
- The design description says a brick has at most 16 materials, and that a 16th distinct colour is a load-time error.
- The code checks nothing.
  - src/brick.h keeps pushing materials. With more than 15, remapped bytes above 15 reach the nibble encoder.
  - brick.h writes `mats[matCount]` past the end of its 16 slots.
  - main.cpp writes a brick's materials beyond its 16 slots.
- The model follows the code:
  - `Voxels.Brick.constructor` has no such bound, and `Palette.FirstSeenBound` shows the count never passes 255.
  - The properties that read a brick back (`Voxels.BrickCellMaterial`, `Scene.OccupiedFromFiles`) require at most 15 distinct non-zero indices.
  - The writes into 16 slots (`Legacy`, `Scene.PackMaterials`) also require that bound, because past it the source's behaviour is undefined.

## Model

| member | source | states |
|---|---|---|
| Packing.Get | src/brick.h:23-28 | `getVoxel` is never above 15 and is 0 for every cell outside the grid |
| Packing.WordIndexInRange | src/brick.h:27 | for an in-bounds cell of a grid whose height is a multiple of 8, `(z*sx + x)*sy/8 + y/8` equals `(z*sx + x)*(sy/8) + y/8` and is below the buffer length `sx*sy*sz/8` |
| Packing.WordIndexInjective | src/brick.h:27 | two in-bounds cells share a word only if they share the column (x, z) and the 8-row block of y |
| Packing.Set | src/brick.h:30-39 | `setVoxel` keeps the grid well formed and its size unchanged |
| Packing.GetAfterSet | src/brick.h:30-38 | after `setVoxel(x, y, z, v)` on an in-bounds cell with v ≤ 15, `getVoxel(x, y, z) == v` |
| Packing.SetFrame | src/brick.h:36-38 | `setVoxel` leaves every other cell's `getVoxel` value unchanged |
| Packing.SetTouchesOneNibble | src/brick.h:36-38 | `setVoxel` changes only the target word, and in it only nibble `y % 8` |
| Packing.SetIgnored | src/brick.h:31-34 | `setVoxel` on an out-of-range cell or with a value above 15 leaves the grid unchanged |
| Packing.PackNibble | src/brick.h:71-79 | when all eight bytes are at most 15, nibble k of the OR of `b_k << 4k` is byte k |
| Packing.EncodedNibble | brick.h:45-53 | when all bytes are at most 15, nibble k of the word for column (x, z) and block i is `voxel_data[((8i + k)*sx + x)*sz + z]` |
| Packing.EncoderIndexDecodes | brick.h:37-45 | the word index `(x*sz + z)*sy/8 + i` of every triple in range is below `sx*sy*sz/8` and decodes back to (x, z, i), so no word is written twice |
| Packing.EncoderIndexCovers | brick.h:37-45 | every word index below `sx*sy*sz/8` is the index of some triple (x, z, i), so every word is written |
| Packing.EncodeAt | src/brick.h:67-79 | the encoded buffer holds, at the index the encoder writes for (x, z, i), the word packed from that column's eight bytes |
| Packing.EncodeRoundTrip | src/brick.h:62-83 | when the height is a multiple of 8 and every byte is at most 15, `getVoxel(x, y, z)` on the encoder's output is `voxel_data[(y*sz + z)*sx + x]` for every in-bounds cell |
| Packing.EncodeData | brick.h:36-57 | `encodeData` fills the caller's array with exactly the encoded buffer |
| Packing.EncodeColumn | brick.h:39-55 | one pass of the z loop writes the words of column (x, z) as the encoder's, keeps the earlier columns' words, and leaves every word after the column unchanged |
| Palette.PackColor | src/brick.h:174 | `r << 16 \| g << 8 \| b` fits in 24 bits, and each channel comes back by shift and mask |
| Palette.FirstSeen | src/brick.h:163-184 | the list of assigned palette indices has no repeats and holds exactly the non-zero bytes of the brick |
| Palette.FirstSeenPrefix | src/brick.h:163-184 | the indices assigned after a prefix of the scan are a prefix of those assigned after the whole scan |
| Palette.FirstSeenBound | src/brick.h:155-182 | at most 255 indices are ever assigned, so `mats.size() - 1` always fits the 8-bit table and voxel bytes |
| Palette.Code | src/brick.h:181-182 | a seen palette index gets a non-zero material index whose material slot was made from it |
| Palette.Materials | src/brick.h:160-179 | `mats` has one more entry than there are assigned indices: entry 0 is `Material(0, 0, 0)` and entry j is made from the palette slot of the j-th assigned index |
| Palette.RemapZero | src/brick.h:165 | a remapped cell is 0 exactly when the source cell is 0 |
| Palette.RemapRange | src/brick.h:179-182 | every filled cell gets a material index in `[1, mats.size() - 1]` |
| Palette.RemapConsistent | src/brick.h:167-182 | two cells get the same material index exactly when they held the same palette index |
| Palette.RemapMaterial | src/brick.h:170-182 | the material a filled cell selects is the one made from that cell's palette slot |
| Palette.RemapFirstOccurrence | src/brick.h:179-182 | the first cell holding a palette index gets `mats.size() - 1` after the push, one more than the count of indices seen before it |
| Palette.CodeStable | src/brick.h:167-168 | the material index the table holds for an index midway through the scan is its final one |
| Palette.TableEntry | src/brick.h:155 | a lookup-table entry is 0 exactly when its palette index has not been seen |
| Voxels.VoxelGrid.constructor | src/brick.h:107 | a new grid owns a fresh buffer of the requested number of zeroed words |
| Voxels.VoxelGrid.GetVoxel | src/brick.h:23-28 | `getVoxel` on the object's buffer: at most 15, and 0 outside the grid |
| Voxels.VoxelGrid.SetVoxel | src/brick.h:30-39 | `setVoxel` in place: the written cell reads back the value, every other cell reads as before, and out-of-range cells or values above 15 leave the buffer untouched |
| Voxels.VoxelGrid.EncodeData | src/brick.h:62-83 | `encodeData_` leaves `data` holding exactly the encoded buffer |
| Voxels.BrickMap.constructor | src/brick.h:93-108 | the size is the file's (x, z, y). A height that is not a multiple of 8 leaves `data` empty; otherwise `data` is the encoded brick-id grid |
| Voxels.AssignMaterials | src/brick.h:155-184 | the remap loop leaves the voxel bytes as `Remapped` and `mats` as `Materials` of the first-seen indices |
| Voxels.RemapCell | src/brick.h:165-183 | one pass of the loop keeps the table, the cells and `mats` in step with the scanned prefix |
| Voxels.KnownIndexCell | src/brick.h:167-168 | a seen index: the cell takes the table's entry and nothing else changes |
| Voxels.NewIndexCell | src/brick.h:169-182 | a new index: its material is pushed, and the table entry and cell get its material index |
| Voxels.PushMaterial | src/brick.h:170-182 | `mats` grows by the palette slot's material, and table entry b and cell i are set to the old `mats.size()` |
| Voxels.Brick.constructor | src/brick.h:141-190 | a model that is not 8x8x8 leaves `data` and `mats` empty. Otherwise `mats` is `Materials` of the first-seen indices and `data` encodes the remapped bytes |
| Voxels.BrickCellMaterial | src/brick.h:163-187 | with at most 15 distinct indices, a loaded brick's cell is empty exactly when the file's cell is, and a filled cell selects the material made from the file's palette slot |
| Voxels.BrickCellRemapped | src/brick.h:186-187 | with at most 15 distinct indices, a loaded brick's cell reads back its remapped byte |
| Voxels.BrickGrid | src/brick.h:186-187 | a loaded brick is a well-formed 8x8x8 grid |
| Legacy.BrickMap.constructor | brick.h:70-87 | the size is the file's (x, z, y). A height that is not a multiple of 8 leaves `data` null; otherwise `data` is a fresh array holding the encoded brick-id grid |
| Legacy.AssignMaterials | brick.h:139-165 | the remap loop over `mats[16]` leaves the cells as `Remapped`, `matCount` one more than the number of distinct indices, slots 1 .. matCount-1 as in `Materials`, and slot 0 and every slot from `matCount` on unchanged |
| Legacy.RemapCell | brick.h:147-164 | one pass keeps the table, the cells, `mats` and `matCount` in step with the scanned prefix, never lowers `matCount`, and leaves slot 0 and every slot from the new `matCount` on unchanged |
| Legacy.KnownIndexCell | brick.h:149-150 | a seen index: the cell takes the table's entry |
| Legacy.NewIndexCell | brick.h:151-163 | a new index: its material goes into `mats[matCount]`, which is in bounds, `matCount` goes up by one, and slot 0 and every slot from the new `matCount` on are unchanged |
| Legacy.NewIndexFits | brick.h:155-163 | with at most 15 distinct indices in the brick, a new one finds fewer than 15 before it, so `mats[matCount]` is inside the array |
| Legacy.StoreMaterial | brick.h:155-162 | exactly `mats[matCount]`, table entry b and cell i change |
| Legacy.Brick.constructor | brick.h:120-168 | a model that is not 8x8x8 leaves `data` null and `matCount` 1. Otherwise `data` is a fresh array encoding the remapped bytes, and `matCount` and slots 1 .. matCount-1 are as the remap loop leaves them |
| Scene.IsPositionOccupied | main.cpp:520-532 | a position is occupied only if it lies inside the brick map and its map cell is not air |
| Scene.LoadedWorld | main.cpp:444-487 | the loaded scene has the brick map's (x, z, y) size, one well-formed grid per brick, and a well-formed map |
| Scene.MapCellRoundTrip | main.cpp:524 | the brick map's `getVoxel(floor(pos))` returns the map file's byte for that cell |
| Scene.BrickCellEmpty | main.cpp:528-531 | a loaded brick's cell at `floor(8*pos) % 8` is empty exactly when the brick file's cell is |
| Scene.OccupiedFromFiles | main.cpp:520-532 | in the loaded scene, a position inside the world is occupied exactly when the map file names a brick there and that brick file's cell is filled |
| Scene.ColorWordParts | main.cpp:494 | for a 24-bit colour, the low 24 bits of `color \| roughness << 24` give the colour and the top 8 give the roughness |
| Scene.MaterialsBuffer | main.cpp:479-497 | the filled buffer has exactly `bricks.size() * 16 * 2` words |
| Scene.MaterialsBufferAt | main.cpp:492-496 | word w of brick i's block sits at `32*i + w`, so the writes for brick i stay in `[32i, 32i + 32)` |
| Scene.MaterialSlots | main.cpp:479-496 | for brick i and slot j < 16, word `(i*16 + j)*2` is `color \| roughness << 24` of material j and word `(i*16 + j)*2 + 1` is its emission when `1 <= j < mats.size()`; slot 0 and unused slots stay zero |
| Scene.PackBrick | main.cpp:492-496 | brick i's inner loop writes its block and nothing outside it |
| Scene.PackMaterials | main.cpp:479-497 | `loadScene`'s material section fails exactly when some brick failed to load; otherwise the filled buffer is `MaterialsBuffer` of the bricks, every brick's block in order, whose slot 0 and unused slots are the zero words the buffer starts with (`Scene.MaterialSlots`) |

## Left out

- The ray caster (`rayCast`, `raySlabIntersection`) and the camera: these are float geometry and physics. They rely on IEEE infinities, which Dafny's `real` does not have.
- File reading and the `ogt_vox` parser: a loaded model is an input (`VoxModel`: extents and bytes; a palette of 256 `PaletteEntry`).
- All OpenGL calls, shader set-up and texture uploads in `loadScene`, and the window, input and frame code of main.cpp.
- The scene file's list of brick paths and the pushes onto the global `bricks` vector: `Scene.PackMaterials` takes the loaded bricks in order.
- `env_color` and the camera pose computed in the `BrickMap` constructors: they are float payload.
- Emission and roughness, which the loader computes with `pow` on floats: they are opaque `uint16`/`uint8` inputs of `PaletteEntry`.
- loadScene's early return when the brick map fails (main.cpp:445): it is the `BrickMap` constructor's empty-`data` result and is not re-modelled.
- Brick-map bytes above 15, and bricks with more than 15 distinct palette indices in the read-back properties: the encoder ORs raw bytes into nibbles, so larger bytes corrupt neighbouring cells. Every byte at most 15 is a precondition instead.
- Legacy.AssignMaterials: requires at most 15 distinct non-zero palette indices, because brick.h writes `mats[matCount]` past its 16 slots otherwise (undefined behaviour).
- Legacy.Brick.constructor: requires the same bound for an 8x8x8 model. `mats[0]` and the slots from `matCount` on are default-constructed in the source and are not specified.
- Scene.PackMaterials: requires at most 16 materials per brick, because main.cpp writes a larger brick's materials into the next brick's block, or past the end of the buffer for the last brick.
- Scene.IsPositionOccupied: requires the map cell's brick id to be at most the number of bricks, because main.cpp indexes `bricks[brick_ID - 1]` unchecked.
- 32-bit word-index arithmetic: indices are unbounded integers, so grids whose `sx*sy*sz` overflows 32 bits are not modelled.
- Unsigned wrap-around of negative coordinates passed to `getVoxel`/`setVoxel`: coordinates are natural numbers here. A negative argument wraps to a huge unsigned value in the source and is rejected by the same bound.
- The inheritance of `BrickMap` and `Brick` from `VoxelGrid` in src/brick.h: each owns a `VoxelGrid` instead.
- Voxels.Brick.constructor: on a failed load the source leaves `size` unset; the model's grid size is unspecified.
