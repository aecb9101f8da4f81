/**
 * The current revision of the voxel storage (src/brick.h): a `VoxelGrid` holding its
 * extents and packed words, a `BrickMap` loaded from a model whose cells hold brick ids,
 * and a `Brick` loaded from an 8x8x8 model whose palette indices are remapped to the
 * brick's own material list. `BrickMap` and `Brick` derive from `VoxelGrid` in the
 * source; here each owns its grid.
 */
module Voxels {
  import opened Packing
  import opened Palette

  class VoxelGrid {
    var size: Extent
    var data: array<Word>

    /** `size` and `data` as a value. */
    function Contents(): Grid
      reads this, data
    {
      Grid(size, data[..])
    }

    /** A grid that loaded: height a multiple of 8 and a buffer of `sx*sy*sz/8` words. */
    predicate Valid()
      reads this, data
    {
      Packing.Valid(Contents())
    }

    /** A grid of the given extents over `n` zeroed words (`std::vector<uint32_t>(n)`). */
    constructor (size: Extent, n: nat)
      ensures this.size == size && fresh(data) && data.Length == n
      ensures forall i :: 0 <= i < n ==> data[i] == 0
    {
      this.size := size;
      data := new Word[n](_ => 0);
    }

    /** `getVoxel(x, y, z)`: at most 15, and 0 for every cell outside the grid. */
    function GetVoxel(x: nat, y: nat, z: nat): (r: Byte)
      reads this, data
      requires Valid()
      ensures r <= 0xF
      ensures !InBounds(size, x, y, z) ==> r == 0
    {
      Get(Contents(), x, y, z)
    }

    /**
     * `setVoxel(x, y, z, val)`: rewrites nibble `y % 8` of the one word holding the cell;
     * a cell outside the grid or a value above 15 leaves `data` as it was. Afterwards the
     * cell reads back `val` and every other cell reads as before.
     */
    method SetVoxel(x: nat, y: nat, z: nat, val: Byte)
      requires Valid()
      modifies data
      ensures Valid()
      ensures Contents() == Set(old(Contents()), x, y, z, val)
      ensures InBounds(size, x, y, z) && val <= 0xF ==> GetVoxel(x, y, z) == val
      ensures !InBounds(size, x, y, z) || val > 0xF ==> data[..] == old(data[..])
      ensures forall x': nat, y': nat, z': nat :: x' != x || y' != y || z' != z ==>
                GetVoxel(x', y', z') == Get(old(Contents()), x', y', z')
    {
      ghost var g := Contents();
      if !InBounds(size, x, y, z) {
        return;
      }
      if val > 0xF {
        return;
      }
      WordIndexInRange(size, x, y, z);
      var w := (z * size.x + x) * size.y / 8 + y / 8;
      data[w] := (data[w] & !(0xF << Shift(y % 8))) | ((val as Word) << Shift(y % 8));
      assert Contents() == Set(g, x, y, z, val);
      GetAfterSet(g, x, y, z, val);
      forall x': nat, y': nat, z': nat | x' != x || y' != y || z' != z
        ensures GetVoxel(x', y', z') == Get(g, x', y', z')
      {
        SetFrame(g, x, y, z, val, x', y', z');
      }
    }

    /** `encodeData_(voxel_data, size_x, size_y, size_z)`: fills `data` with the packed words. */
    method EncodeData(vd: seq<Byte>, sx: nat, sy: nat, sz: nat)
      requires sy % 8 == 0 && |vd| == sx * sy * sz
      requires data.Length == sx * sy * sz / 8
      modifies data
      ensures data[..] == Encode(vd, sx, sy, sz)
    {
      Packing.EncodeData(vd, data, sx, sy, sz);
    }
  }

  /** The brick map: one brick id (0 = air) per cell of the world. */
  class BrickMap {
    const grid: VoxelGrid

    /**
     * `BrickMap(file_path)` from the loaded model: the extents become (x, z, y) of the file's;
     * a height (the file's z) that is not a multiple of 8 leaves `data` empty, and otherwise
     * `data` is allocated and encoded from the model's bytes.
     */
    constructor (model: VoxModel)
      requires WellFormedModel(model)
      ensures fresh(grid) && fresh(grid.data)
      ensures grid.size == MapExtent(model)
      ensures model.size.z % 8 != 0 ==> grid.data.Length == 0
      ensures model.size.z % 8 == 0 ==> grid.Valid() && grid.data[..] == MapWords(model)
    {
      var size := Extent(model.size.x, model.size.z, model.size.y);
      if size.y % 8 != 0 {
        grid := new VoxelGrid(size, 0);
      } else {
        SwapSize(model.size);
        var g := new VoxelGrid(size, size.x * size.y * size.z / 8);
        g.EncodeData(model.voxels, size.x, size.y, size.z);
        grid := g;
      }
    }
  }

  /**
   * The state of the remap loop of `Brick(file_path)` after its first `i` cells: `seen`
   * lists the palette indices met so far in first-seen order, `mats` holds their materials
   * after the empty one, the table maps each seen index to its material index, and the
   * cells are as `CellsMatch` says.
   */
  ghost predicate Scanned(source: seq<Byte>, palette: seq<PaletteEntry>, table: array<Byte>, vd: array<Byte>,
                          i: nat, seen: seq<Byte>, mats: seq<Material>)
    reads table, vd
  {
    table != vd && |source| == BrickVolume && |palette| == PaletteSize && i <= BrickVolume &&
    seen == FirstSeen(source[..i]) && mats == Materials(seen, palette) &&
    TableMatches(table[..], seen) && CellsMatch(source, vd[..], i)
  }

  /**
   * The remap loop of `Brick(file_path)` over its own copy of the brick's bytes. The table
   * is `int8_t` in the source; it holds the bit pattern of the index, which is the same byte.
   */
  method AssignMaterials(source: seq<Byte>, palette: seq<PaletteEntry>) returns (voxelData: seq<Byte>, mats: seq<Material>)
    requires |source| == BrickVolume && |palette| == PaletteSize
    ensures voxelData == Remapped(source)
    ensures mats == Materials(FirstSeen(source), palette)
  {
    var table := new Byte[PaletteSize](_ => 0);
    var vd := new Byte[BrickVolume](k requires 0 <= k < BrickVolume => source[k]);
    mats := [EmptyMaterial];
    ghost var seen: seq<Byte> := [];
    assert source[..0] == [];
    TableInitial(table[..]);
    for i := 0 to BrickVolume
      invariant Scanned(source, palette, table, vd, i, seen, mats)
    {
      seen, mats := RemapCell(source, palette, table, vd, i, seen, mats);
    }
    assert source[..BrickVolume] == source;
    voxelData := vd[..];
  }

  /**
   * One pass of the remap loop: a zero byte is skipped; a palette index already in the
   * table is replaced by its material index; a new one is handed to `NewIndexCell`.
   */
  method RemapCell(source: seq<Byte>, palette: seq<PaletteEntry>, table: array<Byte>, vd: array<Byte>,
                   i: nat, ghost seen: seq<Byte>, mats: seq<Material>)
    returns (ghost seen': seq<Byte>, mats': seq<Material>)
    requires i < BrickVolume && Scanned(source, palette, table, vd, i, seen, mats)
    modifies table, vd
    ensures Scanned(source, palette, table, vd, i + 1, seen', mats')
  {
    seen', mats' := seen, mats;
    if vd[i] == 0 {
      ZeroStep(source, i);
      CellsAfter(source, vd[..], i, 0);
      assert vd[..][i := 0] == vd[..];
    } else if table[vd[i]] != 0 {
      KnownIndexCell(source, palette, table, vd, i, seen, mats);
    } else {
      seen', mats' := NewIndexCell(source, palette, table, vd, i, seen, mats);
    }
  }

  /** A palette index already in the table: the cell takes the table's entry. */
  method KnownIndexCell(source: seq<Byte>, palette: seq<PaletteEntry>, table: array<Byte>, vd: array<Byte>,
                        i: nat, ghost seen: seq<Byte>, mats: seq<Material>)
    requires i < BrickVolume && Scanned(source, palette, table, vd, i, seen, mats)
    requires vd[i] != 0 && table[vd[i]] != 0
    modifies vd
    ensures Scanned(source, palette, table, vd, i + 1, seen, mats)
  {
    var b := vd[i];
    assert table[..][b as int] == TableEntry(seen, b);
    KnownIndexStep(source, i);
    CellsAfter(source, vd[..], i, table[b]);
    vd[i] := table[b];
  }

  /** A palette index not yet in the table: its material is pushed and its index assigned. */
  method NewIndexCell(source: seq<Byte>, palette: seq<PaletteEntry>, table: array<Byte>, vd: array<Byte>,
                      i: nat, ghost seen: seq<Byte>, mats: seq<Material>)
    returns (ghost seen': seq<Byte>, mats': seq<Material>)
    requires i < BrickVolume && Scanned(source, palette, table, vd, i, seen, mats)
    requires vd[i] != 0 && table[vd[i]] == 0
    modifies table, vd
    ensures Scanned(source, palette, table, vd, i + 1, seen', mats')
  {
    var b := vd[i];
    assert table[..][b as int] == TableEntry(seen, b);
    NewIndexStep(source, i);
    MaterialsExtend(seen, b, palette);
    TableAfterNew(table[..], seen, b);
    CellsAfter(source, vd[..], i, ToByte(|seen| + 1));
    mats' := PushMaterial(table, vd, i, b, palette, mats);
    seen' := seen + [b];
  }

  /**
   * The new-index branch of the remap loop: the material made from palette slot `b` is
   * pushed onto `mats`, and its index `mats.size() - 1` goes into table entry `b` and cell `i`.
   */
  method PushMaterial(table: array<Byte>, vd: array<Byte>, i: nat, b: Byte, palette: seq<PaletteEntry>, mats: seq<Material>)
    returns (mats': seq<Material>)
    requires table != vd && table.Length == PaletteSize && i < vd.Length
    requires |palette| == PaletteSize && |mats| < PaletteSize
    modifies table, vd
    ensures mats' == mats + [MaterialOf(palette[b])]
    ensures table[..] == old(table[..])[b as int := ToByte(|mats|)]
    ensures vd[..] == old(vd[..])[i := ToByte(|mats|)]
  {
    var mat := Material(PackColor(palette[b].r, palette[b].g, palette[b].b), palette[b].emission, palette[b].roughness);
    mats' := mats + [mat];
    var code := ToByte(|mats'| - 1);
    table[b] := code;
    vd[i] := code;
  }

  /** A brick: an 8x8x8 grid of material indices and the materials they select. */
  class Brick {
    const grid: VoxelGrid
    var mats: seq<Material>

    /**
     * `Brick(file_path)` from the loaded model and its palette: a model that is not 8x8x8
     * leaves `data` and `mats` empty; otherwise `mats` starts with the empty material, the
     * remap loop assigns the rest, and the remapped bytes are encoded into `data`.
     */
    constructor (model: VoxModel, palette: seq<PaletteEntry>)
      requires WellFormedModel(model) && |palette| == PaletteSize
      ensures fresh(grid) && fresh(grid.data)
      ensures !IsBrickShaped(model) ==> grid.data.Length == 0 && mats == []
      ensures IsBrickShaped(model) ==>
                grid.size == Extent(BrickSize, BrickSize, BrickSize) && grid.Valid() &&
                grid.data[..] == Encode(Remapped(model.voxels), BrickSize, BrickSize, BrickSize) &&
                mats == Materials(FirstSeen(model.voxels), palette)
    {
      if !IsBrickShaped(model) {
        grid := new VoxelGrid(model.size, 0);
        mats := [];
      } else {
        var size := Extent(BrickSize, BrickSize, BrickSize);
        var vd, m := AssignMaterials(model.voxels, palette);
        var g := new VoxelGrid(size, BrickVolume / 8);
        g.EncodeData(vd, BrickSize, BrickSize, BrickSize);
        grid := g;
        mats := m;
      }
    }
  }

  /**
   * What a loaded brick shows, when it has at most 15 materials besides the empty one
   * (so every index fits a nibble): a cell is empty exactly when the file's cell is, and
   * a filled cell selects the material made from the file's palette slot for that cell.
   */
  lemma BrickCellMaterial(model: VoxModel, palette: seq<PaletteEntry>, x: nat, y: nat, z: nat)
    requires WellFormedModel(model) && IsBrickShaped(model) && |palette| == PaletteSize
    requires |FirstSeen(model.voxels)| <= 15
    requires x < BrickSize && y < BrickSize && z < BrickSize
    ensures (y * BrickSize + z) * BrickSize + x < |model.voxels|
    ensures Packing.Valid(BrickGrid(model))
    ensures var v := Get(BrickGrid(model), x, y, z);
            var src := model.voxels[(y * BrickSize + z) * BrickSize + x];
            (v == 0 <==> src == 0) &&
            (src != 0 ==> v as int < |Materials(FirstSeen(model.voxels), palette)| &&
                          Materials(FirstSeen(model.voxels), palette)[v] == MaterialOf(palette[src]))
  {
    var n := (y * BrickSize + z) * BrickSize + x;
    BrickCellRemapped(model, x, y, z);
    RemapZero(model.voxels, n);
    if model.voxels[n] != 0 {
      RemapMaterial(model.voxels, palette, n);
    }
  }

  /** With at most 15 materials, a cell of the loaded brick reads back its remapped byte. */
  lemma BrickCellRemapped(model: VoxModel, x: nat, y: nat, z: nat)
    requires WellFormedModel(model) && IsBrickShaped(model)
    requires |FirstSeen(model.voxels)| <= 15
    requires x < BrickSize && y < BrickSize && z < BrickSize
    ensures (y * BrickSize + z) * BrickSize + x < |model.voxels|
    ensures Packing.Valid(BrickGrid(model))
    ensures Get(BrickGrid(model), x, y, z) == Remapped(model.voxels)[(y * BrickSize + z) * BrickSize + x]
  {
    RemappedNibbles(model.voxels);
    EncodeRoundTrip(Remapped(model.voxels), Extent(BrickSize, BrickSize, BrickSize), x, y, z);
  }

  /** With at most 15 materials besides the empty one, every remapped cell fits a nibble. */
  lemma RemappedNibbles(s: seq<Byte>)
    requires |FirstSeen(s)| <= 15
    ensures AllNibbles(Remapped(s))
  {
    var vd := Remapped(s);
    forall i | 0 <= i < |vd|
      ensures vd[i] <= 0xF
    {
      if s[i] != 0 {
        RemapRange(s, i);
      }
    }
  }

  /** The grid a brick-shaped model loads into. */
  function BrickGrid(model: VoxModel): (g: Grid)
    requires WellFormedModel(model) && IsBrickShaped(model)
    ensures Packing.Valid(g) && g.size == Extent(BrickSize, BrickSize, BrickSize)
  {
    Grid(Extent(BrickSize, BrickSize, BrickSize), Encode(Remapped(model.voxels), BrickSize, BrickSize, BrickSize))
  }
}
