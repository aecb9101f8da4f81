/**
 * The older revision of the voxel storage (brick.h): a free function `encodeData` writing
 * into a caller's array (`Packing.EncodeData`), a `BrickMap` whose `data` pointer stays
 * NULL when loading fails, and a `Brick` that keeps its materials in a fixed array of 16
 * with a `matCount` counter.
 */
module Legacy {
  import opened Packing
  import opened Palette

  /** The brick map of the older revision. */
  class BrickMap {
    var size: Extent
    var data: array?<Word>

    /**
     * `BrickMap(filePath)` from the loaded model: the extents become (x, z, y) of the file's;
     * a height that is not a multiple of 8 leaves `data` NULL, and otherwise `data` is a new
     * array of `size.x*size.y*size.z/8` words filled by `encodeData`.
     */
    constructor (model: VoxModel)
      requires WellFormedModel(model)
      ensures size == MapExtent(model)
      ensures model.size.z % 8 != 0 ==> data == null
      ensures model.size.z % 8 == 0 ==> data != null && fresh(data) && data[..] == MapWords(model)
    {
      size := Extent(model.size.x, model.size.z, model.size.y);
      if model.size.z % 8 != 0 {
        data := null;
      } else {
        SwapSize(model.size);
        var d := new Word[model.size.x * model.size.z * model.size.y / 8];
        EncodeData(model.voxels, d, model.size.x, model.size.z, model.size.y);
        data := d;
      }
    }
  }

  /** Slots 1 .. matCount-1 of the fixed material array are those of `Materials(seen, palette)`. */
  ghost predicate MatsMatch(m: seq<Material>, seen: seq<Byte>, palette: seq<PaletteEntry>, matCount: nat)
  {
    |palette| == PaletteSize && matCount == |seen| + 1 && matCount <= |m| &&
    forall j :: 1 <= j < matCount ==> m[j] == Materials(seen, palette)[j]
  }

  /** Writing the material of a new index `b` into slot `matCount` and counting it. */
  lemma MatsAfterNew(m: seq<Material>, seen: seq<Byte>, palette: seq<PaletteEntry>, matCount: nat, b: Byte)
    requires MatsMatch(m, seen, palette, matCount) && matCount < |m|
    ensures MatsMatch(m[matCount := MaterialOf(palette[b])], seen + [b], palette, matCount + 1)
  {
    MaterialsExtend(seen, b, palette);
  }

  /**
   * The state of the remap loop after its first `i` cells, with the materials in the fixed
   * array `mats` and the next free slot in `matCount`.
   */
  ghost predicate Scanned(source: seq<Byte>, palette: seq<PaletteEntry>, table: array<Byte>, vd: array<Byte>,
                          mats: array<Material>, i: nat, seen: seq<Byte>, matCount: nat)
    reads table, vd, mats
  {
    table != vd && mats as object != table && mats as object != vd && mats.Length == 16 &&
    |source| == BrickVolume && i <= BrickVolume && |FirstSeen(source)| <= 15 &&
    seen == FirstSeen(source[..i]) && MatsMatch(mats[..], seen, palette, matCount) &&
    TableMatches(table[..], seen) && CellsMatch(source, vd[..], i)
  }

  /**
   * The remap loop of `Brick(filePath)`: `matCount` starts at 1 and grows by one per newly
   * seen palette index, whose material goes into `mats[matCount]`. That write stays inside
   * the 16 slots only when the brick has at most 15 distinct non-zero palette indices, which
   * is required here. Slot 0 and the slots from the final `matCount` on are not written.
   */
  method AssignMaterials(source: seq<Byte>, palette: seq<PaletteEntry>, mats: array<Material>)
    returns (voxelData: seq<Byte>, matCount: nat)
    requires |source| == BrickVolume && |palette| == PaletteSize && mats.Length == 16
    requires |FirstSeen(source)| <= 15
    modifies mats
    ensures voxelData == Remapped(source)
    ensures matCount == |FirstSeen(source)| + 1
    ensures forall j :: 1 <= j < matCount ==> mats[j] == Materials(FirstSeen(source), palette)[j]
    ensures mats[0] == old(mats[0]) && mats[matCount..] == old(mats[matCount..])
  {
    var table := new Byte[PaletteSize](_ => 0);
    var vd := new Byte[BrickVolume](k requires 0 <= k < BrickVolume => source[k]);
    matCount := 1;
    ghost var seen: seq<Byte> := [];
    assert source[..0] == [];
    TableInitial(table[..]);
    for i := 0 to BrickVolume
      invariant Scanned(source, palette, table, vd, mats, i, seen, matCount)
      invariant mats[0] == old(mats[0]) && mats[matCount..] == old(mats[matCount..])
    {
      ghost var before, count := mats[..], matCount;
      seen, matCount := RemapCell(source, palette, table, vd, mats, i, seen, matCount);
      assert mats[matCount..] == before[matCount..] == before[count..][matCount - count..];
    }
    assert source[..BrickVolume] == source;
    voxelData := vd[..];
  }

  /** One pass of the remap loop over the fixed material array. */
  method RemapCell(source: seq<Byte>, palette: seq<PaletteEntry>, table: array<Byte>, vd: array<Byte>,
                   mats: array<Material>, i: nat, ghost seen: seq<Byte>, matCount: nat)
    returns (ghost seen': seq<Byte>, matCount': nat)
    requires i < BrickVolume && Scanned(source, palette, table, vd, mats, i, seen, matCount)
    modifies table, vd, mats
    ensures Scanned(source, palette, table, vd, mats, i + 1, seen', matCount')
    ensures matCount <= matCount' && mats[0] == old(mats[0]) && mats[matCount'..] == old(mats[matCount'..])
  {
    seen', matCount' := seen, matCount;
    if vd[i] == 0 {
      ZeroStep(source, i);
      CellsAfter(source, vd[..], i, 0);
      assert vd[..][i := 0] == vd[..];
    } else if table[vd[i]] != 0 {
      KnownIndexCell(source, palette, table, vd, mats, i, seen, matCount);
    } else {
      seen', matCount' := NewIndexCell(source, palette, table, vd, mats, i, seen, matCount);
    }
  }

  /** A palette index already in the table: the cell takes the table's entry. */
  method KnownIndexCell(source: seq<Byte>, palette: seq<PaletteEntry>, table: array<Byte>, vd: array<Byte>,
                        mats: array<Material>, i: nat, ghost seen: seq<Byte>, matCount: nat)
    requires i < BrickVolume && Scanned(source, palette, table, vd, mats, i, seen, matCount)
    requires vd[i] != 0 && table[vd[i]] != 0
    modifies vd
    ensures Scanned(source, palette, table, vd, mats, i + 1, seen, matCount)
  {
    var b := vd[i];
    assert table[..][b as int] == TableEntry(seen, b);
    KnownIndexStep(source, i);
    CellsAfter(source, vd[..], i, table[b]);
    ghost var t, m := table[..], mats[..];
    vd[i] := table[b];
    assert table[..] == t && mats[..] == m;
  }

  /** A palette index not yet in the table: its material goes into slot `matCount`. */
  method NewIndexCell(source: seq<Byte>, palette: seq<PaletteEntry>, table: array<Byte>, vd: array<Byte>,
                      mats: array<Material>, i: nat, ghost seen: seq<Byte>, matCount: nat)
    returns (ghost seen': seq<Byte>, matCount': nat)
    requires i < BrickVolume && Scanned(source, palette, table, vd, mats, i, seen, matCount)
    requires vd[i] != 0 && table[vd[i]] == 0
    modifies table, vd, mats
    ensures Scanned(source, palette, table, vd, mats, i + 1, seen', matCount')
    ensures matCount' == matCount + 1 && mats[0] == old(mats[0]) && mats[matCount'..] == old(mats[matCount'..])
  {
    var b := vd[i];
    assert table[..][b as int] == TableEntry(seen, b);
    NewIndexStep(source, i);
    NewIndexFits(source, i);
    TableAfterNew(table[..], seen, b);
    CellsAfter(source, vd[..], i, ToByte(|seen| + 1));
    MatsAfterNew(mats[..], seen, palette, matCount, b);
    StoreMaterial(table, vd, mats, i, b, palette, matCount);
    seen' := seen + [b];
    matCount' := matCount + 1;
  }

  /** With at most 15 distinct indices in the brick, a new index finds fewer than 15 seen before it. */
  lemma NewIndexFits(s: seq<Byte>, i: nat)
    requires i < |s| && s[i] != 0 && s[i] !in FirstSeen(s[..i]) && |FirstSeen(s)| <= 15
    ensures |FirstSeen(s[..i])| < 15
  {
    FirstSeenStep(s, i);
    FirstSeenPrefix(s, i + 1);
  }

  /**
   * The new-index branch: `mats[matCount]` gets the material of palette slot `b`, and
   * `matCount` goes into table entry `b` and cell `i`.
   */
  method StoreMaterial(table: array<Byte>, vd: array<Byte>, mats: array<Material>, i: nat, b: Byte,
                       palette: seq<PaletteEntry>, matCount: nat)
    requires table != vd && mats as object != table && mats as object != vd
    requires table.Length == PaletteSize && i < vd.Length
    requires |palette| == PaletteSize && 1 <= matCount < mats.Length && mats.Length <= PaletteSize
    modifies table, vd, mats
    ensures mats[..] == old(mats[..])[matCount := MaterialOf(palette[b])]
    ensures table[..] == old(table[..])[b as int := ToByte(matCount)]
    ensures vd[..] == old(vd[..])[i := ToByte(matCount)]
  {
    var code := ToByte(matCount);
    table[b] := code;
    vd[i] := code;
    mats[matCount] := Material(PackColor(palette[b].r, palette[b].g, palette[b].b), palette[b].emission, palette[b].roughness);
  }

  /** The brick of the older revision. */
  class Brick {
    var data: array?<Word>
    const mats: array<Material>
    var matCount: nat

    /**
     * `Brick(filePath)` from the loaded model and its palette: a model that is not 8x8x8
     * leaves `data` NULL and `matCount` 1; otherwise the remap loop fills `mats[1..matCount)`
     * and the remapped bytes are encoded into a new `data` array. `mats[0]` and the slots
     * from `matCount` on are default-constructed and not specified.
     */
    constructor (model: VoxModel, palette: seq<PaletteEntry>)
      requires WellFormedModel(model) && |palette| == PaletteSize
      requires IsBrickShaped(model) ==> |FirstSeen(model.voxels)| <= 15
      ensures fresh(mats) && mats.Length == 16
      ensures !IsBrickShaped(model) ==> data == null && matCount == 1
      ensures IsBrickShaped(model) ==>
                data != null && fresh(data) &&
                data[..] == Encode(Remapped(model.voxels), BrickSize, BrickSize, BrickSize) &&
                matCount == |FirstSeen(model.voxels)| + 1 &&
                forall j :: 1 <= j < matCount ==> mats[j] == Materials(FirstSeen(model.voxels), palette)[j]
    {
      var m := new Material[16];
      mats := m;
      if !IsBrickShaped(model) {
        data := null;
        matCount := 1;
      } else {
        var vd, count := AssignMaterials(model.voxels, palette, m);
        var d := new Word[BrickVolume / 8];
        EncodeData(vd, d, BrickSize, BrickSize, BrickSize);
        data := d;
        matCount := count;
      }
    }
  }
}
