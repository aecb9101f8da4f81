/**
 * The two pieces of `main.cpp` that sit on top of the voxel storage: the occupancy test
 * `isPositionOccupied`, which looks a position up in the brick map and then in the brick
 * it names, and the packing of every brick's materials into the flat `mats_data` buffer
 * in `loadScene`.
 */
module Scene {
  import opened Packing
  import opened Palette
  import opened Voxels

  // ------------------------------------------------------------- occupancy

  /** The loaded scene: the brick map and the bricks, brick id `k` naming `bricks[k - 1]`. */
  datatype World = World(brickMap: Grid, bricks: seq<Grid>)

  predicate WorldValid(w: World)
  {
    Valid(w.brickMap) && forall k :: 0 <= k < |w.bricks| ==> Valid(w.bricks[k])
  }

  /**
   * A position, given on each axis as `floor(8 * pos)`: the index of the brick cell it falls
   * in. The map cell is then `floor(pos) = u / 8` and the cell inside the brick `u % 8`.
   */
  datatype SubCell = SubCell(x: int, y: int, z: int)

  /** `0 <= pos < size` on every axis, which is `0 <= floor(8 * pos) < 8 * size`. */
  predicate InWorld(s: Extent, u: SubCell)
  {
    0 <= u.x < BrickSize * s.x && 0 <= u.y < BrickSize * s.y && 0 <= u.z < BrickSize * s.z
  }

  /** The brick id stored in the map cell holding a position inside the world. */
  function BrickId(w: World, u: SubCell): Byte
    requires WorldValid(w) && InWorld(w.brickMap.size, u)
  {
    Get(w.brickMap, u.x / BrickSize, u.y / BrickSize, u.z / BrickSize)
  }

  /**
   * `isPositionOccupied(pos)`: false outside the world or in an air cell of the map, and
   * otherwise whether the brick named by the map cell holds a material at the position.
   * The source indexes `bricks[brick_ID - 1]` without checking it; a map naming only
   * existing bricks is required here.
   */
  function IsPositionOccupied(w: World, u: SubCell): (r: bool)
    requires WorldValid(w)
    requires InWorld(w.brickMap.size, u) ==> BrickId(w, u) as int <= |w.bricks|
    ensures r ==> InWorld(w.brickMap.size, u) && BrickId(w, u) != 0
  {
    if !InWorld(w.brickMap.size, u) then false
    else
      var id := BrickId(w, u);
      if id == 0 then false
      else Get(w.bricks[id - 1], u.x % BrickSize, u.y % BrickSize, u.z % BrickSize) != 0
  }

  /** The scene `loadScene` builds from a brick-map file and brick files that all loaded. */
  function LoadedWorld(mapModel: VoxModel, brickModels: seq<VoxModel>): (w: World)
    requires WellFormedModel(mapModel) && mapModel.size.z % 8 == 0
    requires forall k :: 0 <= k < |brickModels| ==> WellFormedModel(brickModels[k]) && IsBrickShaped(brickModels[k])
    ensures WorldValid(w) && w.brickMap.size == MapExtent(mapModel) && |w.bricks| == |brickModels|
  {
    var bricks := seq(|brickModels|, k requires 0 <= k < |brickModels| => BrickGrid(brickModels[k]));
    World(Grid(MapExtent(mapModel), MapWords(mapModel)), bricks)
  }

  /**
   * Occupancy read straight from the files: a position inside the world is occupied exactly
   * when the map file's cell holds a brick id and that brick file's cell holds a palette
   * index. This needs every map byte to fit a nibble and every brick to have at most 15
   * materials besides the empty one.
   */
  lemma OccupiedFromFiles(mapModel: VoxModel, brickModels: seq<VoxModel>, u: SubCell)
    requires WellFormedModel(mapModel) && mapModel.size.z % 8 == 0 && AllNibbles(mapModel.voxels)
    requires forall k :: 0 <= k < |brickModels| ==>
               WellFormedModel(brickModels[k]) && IsBrickShaped(brickModels[k]) && |FirstSeen(brickModels[k].voxels)| <= 15
    requires InWorld(MapExtent(mapModel), u)
    requires mapModel.voxels[MapCell(mapModel, u)] as int <= |brickModels|
    ensures BrickId(LoadedWorld(mapModel, brickModels), u) == mapModel.voxels[MapCell(mapModel, u)]
    ensures var id := mapModel.voxels[MapCell(mapModel, u)];
            IsPositionOccupied(LoadedWorld(mapModel, brickModels), u) <==>
              id != 0 && brickModels[id - 1].voxels[BrickCell(u)] != 0
  {
    var w := LoadedWorld(mapModel, brickModels);
    LoadedBrickId(mapModel, brickModels, u);
    var id := mapModel.voxels[MapCell(mapModel, u)];
    if id != 0 {
      assert w.bricks[id - 1] == BrickGrid(brickModels[id - 1]);
      BrickCellEmpty(brickModels[id - 1], u);
    }
  }

  lemma LoadedBrickId(mapModel: VoxModel, brickModels: seq<VoxModel>, u: SubCell)
    requires WellFormedModel(mapModel) && mapModel.size.z % 8 == 0 && AllNibbles(mapModel.voxels)
    requires forall k :: 0 <= k < |brickModels| ==> WellFormedModel(brickModels[k]) && IsBrickShaped(brickModels[k])
    requires InWorld(MapExtent(mapModel), u)
    ensures BrickId(LoadedWorld(mapModel, brickModels), u) == mapModel.voxels[MapCell(mapModel, u)]
  {
    MapCellRoundTrip(mapModel, u);
  }

  /** A cell of a loaded brick is empty exactly when the brick file's cell is. */
  lemma BrickCellEmpty(model: VoxModel, u: SubCell)
    requires WellFormedModel(model) && IsBrickShaped(model) && |FirstSeen(model.voxels)| <= 15
    ensures Get(BrickGrid(model), u.x % BrickSize, u.y % BrickSize, u.z % BrickSize) == 0 <==>
            model.voxels[BrickCell(u)] == 0
  {
    BrickCellRemapped(model, u.x % BrickSize, u.y % BrickSize, u.z % BrickSize);
    RemapZero(model.voxels, BrickCell(u));
  }

  /** The map file's byte for the map cell holding a position inside the world. */
  function MapCell(mapModel: VoxModel, u: SubCell): (n: nat)
    requires WellFormedModel(mapModel) && InWorld(MapExtent(mapModel), u)
    ensures n < |mapModel.voxels|
  {
    var s := MapExtent(mapModel);
    FlatIndexInRange(s, u.x / BrickSize, u.y / BrickSize, u.z / BrickSize);
    (u.y / BrickSize * s.z + u.z / BrickSize) * s.x + u.x / BrickSize
  }

  /** The brick file's byte for the cell inside the brick holding a position. */
  function BrickCell(u: SubCell): (n: nat)
    ensures n < BrickVolume
  {
    ((u.y % BrickSize) * BrickSize + u.z % BrickSize) * BrickSize + u.x % BrickSize
  }

  /** The map cell of a position reads back the map file's byte. */
  lemma MapCellRoundTrip(mapModel: VoxModel, u: SubCell)
    requires WellFormedModel(mapModel) && mapModel.size.z % 8 == 0 && AllNibbles(mapModel.voxels)
    requires InWorld(MapExtent(mapModel), u)
    ensures Get(Grid(MapExtent(mapModel), MapWords(mapModel)), u.x / BrickSize, u.y / BrickSize, u.z / BrickSize) ==
            mapModel.voxels[MapCell(mapModel, u)]
  {
    var s := MapExtent(mapModel);
    SwapSize(mapModel.size);
    EncodeRoundTrip(mapModel.voxels, s, u.x / BrickSize, u.y / BrickSize, u.z / BrickSize);
  }

  // ------------------------------------------------------- material buffer

  /** What `loadScene` has of one brick: its packed words (empty when loading failed) and its materials. */
  datatype LoadedBrick = LoadedBrick(data: seq<Word>, mats: seq<Material>)

  /** First word of a material slot: `color | roughness << 24`. */
  function ColorWord(m: Material): Word
  {
    m.color | ((m.roughness as Word) << 24)
  }

  /** Second word of a material slot: the emission, zero-extended. */
  function EmissionWord(m: Material): Word
  {
    m.emission as Word
  }

  /**
   * A colour of 24 bits, as every material made from a palette slot has (`PackColor`), comes
   * back from the low 24 bits of the first word and the roughness from the top 8.
   */
  lemma ColorWordParts(m: Material)
    requires m.color < 0x100_0000
    ensures ColorWord(m) & 0xFF_FFFF == m.color
    ensures ColorWord(m) >> 24 == m.roughness as Word
  {
  }

  /** `n` zero words. */
  function Zeros(n: nat): seq<Word>
  {
    seq(n, _ => 0)
  }

  /** A brick's 32-word block once slots 1 .. j-1 have been written: word 2k is the colour word and 2k+1 the emission of material k. */
  function PartialBlock(mats: seq<Material>, j: nat): (r: seq<Word>)
    ensures |r| == 32
  {
    seq(32, w requires 0 <= w < 32 =>
      var k := w / 2;
      if 1 <= k < j && k < |mats| then (if w % 2 == 0 then ColorWord(mats[k]) else EmissionWord(mats[k]))
      else 0)
  }

  /** A brick's finished block: slots 1 .. |mats|-1 hold its materials, the rest are zero. */
  function BrickBlock(mats: seq<Material>): (r: seq<Word>)
    ensures |r| == 32
  {
    PartialBlock(mats, 16)
  }

  /** `mats_data` after the loop: the blocks of the bricks one after the other. */
  function MaterialsBuffer(bricks: seq<LoadedBrick>): (r: seq<Word>)
    ensures |r| == 32 * |bricks|
  {
    if bricks == [] then []
    else MaterialsBuffer(bricks[..|bricks| - 1]) + BrickBlock(bricks[|bricks| - 1].mats)
  }

  /** Word w of brick i's block sits at `32*i + w` in the buffer. */
  lemma {:induction false} MaterialsBufferAt(bricks: seq<LoadedBrick>, i: nat, w: nat)
    requires i < |bricks| && w < 32
    ensures MaterialsBuffer(bricks)[32 * i + w] == BrickBlock(bricks[i].mats)[w]
    decreases |bricks|
  {
    var init := bricks[..|bricks| - 1];
    if i < |bricks| - 1 {
      MaterialsBufferAt(init, i, w);
    }
  }

  /**
   * The layout the shader reads: for brick i and slot j < 16, word `(i*16 + j)*2` is
   * `color | roughness << 24` of material j and word `(i*16 + j)*2 + 1` its emission when
   * `1 <= j < mats.size()`; slot 0 and the unused slots stay zero.
   */
  lemma MaterialSlots(bricks: seq<LoadedBrick>, i: nat, j: nat)
    requires i < |bricks| && j < 16
    ensures (i * 16 + j) * 2 + 1 < |MaterialsBuffer(bricks)|
    ensures var mats := bricks[i].mats;
            var c := MaterialsBuffer(bricks)[(i * 16 + j) * 2];
            var e := MaterialsBuffer(bricks)[(i * 16 + j) * 2 + 1];
            if 1 <= j < |mats| then c == ColorWord(mats[j]) && e == EmissionWord(mats[j])
            else c == 0 && e == 0
  {
    MaterialsBufferAt(bricks, i, 2 * j);
    MaterialsBufferAt(bricks, i, 2 * j + 1);
    BlockSlot(bricks[i].mats, j);
    assert (i * 16 + j) * 2 == 32 * i + 2 * j;
  }

  /** Slot j of a finished block. */
  lemma BlockSlot(mats: seq<Material>, j: nat)
    requires j < 16
    ensures var c, e := BrickBlock(mats)[2 * j], BrickBlock(mats)[2 * j + 1];
            if 1 <= j < |mats| then c == ColorWord(mats[j]) && e == EmissionWord(mats[j])
            else c == 0 && e == 0
  {
    assert (2 * j) / 2 == j && (2 * j) % 2 == 0;
    assert (2 * j + 1) / 2 == j && (2 * j + 1) % 2 == 1;
  }

  /** Writing slot j's two words moves the block from `PartialBlock(mats, j)` to `PartialBlock(mats, j + 1)`. */
  lemma WriteSlot(front: seq<Word>, mats: seq<Material>, j: nat, back: seq<Word>)
    requires 1 <= j < |mats| && j < 16
    ensures (front + PartialBlock(mats, j) + back)
              [|front| + 2 * j := ColorWord(mats[j])][|front| + 2 * j + 1 := EmissionWord(mats[j])] ==
            front + PartialBlock(mats, j + 1) + back
  {
    var a := (front + PartialBlock(mats, j) + back)
               [|front| + 2 * j := ColorWord(mats[j])][|front| + 2 * j + 1 := EmissionWord(mats[j])];
    var b := front + PartialBlock(mats, j + 1) + back;
    assert |a| == |b|;
    forall k | 0 <= k < |a|
      ensures a[k] == b[k]
    {
      if |front| <= k < |front| + 32 {
        var w := k - |front|;
        assert w / 2 == j <==> w == 2 * j || w == 2 * j + 1;
      }
    }
  }

  /** The next brick's block is still all zero before its loop starts. */
  lemma StartBlock(front: seq<Word>, n: nat, mats: seq<Material>)
    requires n >= 1
    ensures front + Zeros(32 * n) == front + PartialBlock(mats, 1) + Zeros(32 * (n - 1))
  {
    assert Zeros(32 * n) == PartialBlock(mats, 1) + Zeros(32 * (n - 1));
  }

  /** Once every slot below `mats.size()` (at most 16) is written, the block is finished. */
  lemma FinishBlock(mats: seq<Material>, j: nat)
    requires |mats| <= 16 && 1 <= j && (j == |mats| || (|mats| == 0 && j == 1))
    ensures PartialBlock(mats, j) == BrickBlock(mats)
  {
  }

  lemma BufferStep(bricks: seq<LoadedBrick>, i: nat)
    requires i < |bricks|
    ensures MaterialsBuffer(bricks[..i + 1]) == MaterialsBuffer(bricks[..i]) + BrickBlock(bricks[i].mats)
  {
    assert bricks[..i + 1][..i] == bricks[..i];
  }

  /**
   * The material section of `loadScene`: a zeroed buffer of `bricks.size() * 16 * 2` words,
   * then for each brick, in order, a failed load ends the scene with `false`, and otherwise
   * slots 1 .. mats.size()-1 of its block are written. A brick's materials spill into the
   * next block when there are more than 16 of them; at most 16 are required here.
   */
  method PackMaterials(bricks: seq<LoadedBrick>) returns (ok: bool, matsData: seq<Word>)
    requires forall k :: 0 <= k < |bricks| ==> |bricks[k].mats| <= 16
    ensures ok <==> forall k :: 0 <= k < |bricks| ==> bricks[k].data != []
    ensures ok ==> matsData == MaterialsBuffer(bricks)
  {
    var n := |bricks|;
    var data := new Word[n * 16 * 2](_ => 0);
    assert data[..] == MaterialsBuffer(bricks[..0]) + Zeros(32 * n);
    for i := 0 to n
      invariant forall k :: 0 <= k < i ==> bricks[k].data != []
      invariant data[..] == MaterialsBuffer(bricks[..i]) + Zeros(32 * (n - i))
    {
      if bricks[i].data == [] {
        return false, data[..];
      }
      ghost var front := MaterialsBuffer(bricks[..i]);
      StartBlock(front, n - i, bricks[i].mats);
      PackBrick(data, i, bricks[i].mats, front, Zeros(32 * (n - i - 1)));
      BufferStep(bricks, i);
    }
    assert bricks[..n] == bricks;
    return true, data[..];
  }

  /** The inner loop for brick i: slots 1 .. mats.size()-1 of block i get the brick's materials. */
  method PackBrick(data: array<Word>, i: nat, mats: seq<Material>, ghost front: seq<Word>, ghost back: seq<Word>)
    requires |front| == 32 * i && |mats| <= 16
    requires data[..] == front + PartialBlock(mats, 1) + back
    modifies data
    ensures data[..] == front + BrickBlock(mats) + back
  {
    var j := 1;
    while j < |mats|
      invariant 1 <= j && (j <= |mats| || (|mats| == 0 && j == 1))
      invariant data[..] == front + PartialBlock(mats, j) + back
    {
      WriteSlot(front, mats, j, back);
      assert (i * 16 + j) * 2 == |front| + 2 * j;
      data[(i * 16 + j) * 2 + 0] := mats[j].color | ((mats[j].roughness as Word) << 24);
      data[(i * 16 + j) * 2 + 1] := EmissionWord(mats[j]);
      j := j + 1;
    }
    FinishBlock(mats, j);
  }
}
