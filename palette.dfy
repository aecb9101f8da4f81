/**
 * Palette remapping shared by both revisions of `Brick`: the source file's palette
 * indices (1..255, 0 = empty) are replaced by compact material indices 1, 2, 3, ...
 * handed out in first-seen scan order, and the brick keeps one material per index
 * with slot 0 the empty material.
 */
module Palette {
  import opened Packing

  /** `BRICK_SIZE` */
  const BrickSize: nat := 8
  /** Cells of one brick, `BRICK_SIZE^3`. */
  const BrickVolume: nat := 512
  /** Entries of a file palette. */
  const PaletteSize: nat := 256

  /** A model of exactly `BRICK_SIZE` cells on every axis, the only shape a brick loads. */
  predicate IsBrickShaped(model: VoxModel)
  {
    model.size == Extent(BrickSize, BrickSize, BrickSize)
  }

  /** `struct Material`: packed colour, emission and roughness. */
  datatype Material = Material(color: Word, emission: bv16, roughness: Byte)

  /** `Material(0, 0, 0)`, the material of index 0. */
  const EmptyMaterial := Material(0, 0, 0)

  /**
   * One palette slot of the loaded file: its colour channels, and the emission and
   * roughness integers that the loader derives from the file's float parameters.
   */
  datatype PaletteEntry = PaletteEntry(r: Byte, g: Byte, b: Byte, emission: bv16, roughness: Byte)

  /** `r << 16 | g << 8 | b`: fits in 24 bits and each channel comes back by shift and mask. */
  function PackColor(r: Byte, g: Byte, b: Byte): (c: Word)
    ensures c < 0x100_0000
    ensures (c >> 16) & 0xFF == r as Word && (c >> 8) & 0xFF == g as Word && c & 0xFF == b as Word
  {
    ((r as Word) << 16) | ((g as Word) << 8) | (b as Word)
  }

  /** The material a brick creates for a palette slot. */
  function MaterialOf(e: PaletteEntry): Material
  {
    Material(PackColor(e.r, e.g, e.b), e.emission, e.roughness)
  }

  predicate Distinct(p: seq<Byte>)
  {
    forall i, j :: 0 <= i < j < |p| ==> p[i] != p[j]
  }

  /**
   * The distinct non-zero palette indices of `s` in the order of their first occurrence:
   * the order in which the remap loop assigns materials.
   */
  function FirstSeen(s: seq<Byte>): (p: seq<Byte>)
    ensures Distinct(p)
    ensures forall b :: b in p <==> b != 0 && b in s
    decreases |s|
  {
    if s == [] then []
    else
      var init, b := s[..|s| - 1], s[|s| - 1];
      assert s == init + [b];
      var p := FirstSeen(init);
      if b == 0 || b in p then p else p + [b]
  }

  /** Scanning one more cell adds its index to the first-seen list exactly when it is new and non-zero. */
  lemma FirstSeenStep(s: seq<Byte>, i: nat)
    requires i < |s|
    ensures FirstSeen(s[..i + 1]) ==
            if s[i] == 0 || s[i] in FirstSeen(s[..i]) then FirstSeen(s[..i]) else FirstSeen(s[..i]) + [s[i]]
  {
    assert s[..i + 1][..i] == s[..i];
  }

  /** The first-seen list of a prefix is a prefix of the first-seen list of the whole. */
  lemma {:induction false} FirstSeenPrefix(s: seq<Byte>, i: nat)
    requires i <= |s|
    ensures FirstSeen(s[..i]) <= FirstSeen(s)
    decreases |s| - i
  {
    if i < |s| {
      FirstSeenPrefix(s, i + 1);
      FirstSeenStep(s, i);
    } else {
      assert s[..i] == s;
    }
  }

  /** The palette indices of `p`, as integers. */
  function Elems(p: seq<Byte>): (r: set<int>)
    ensures forall v :: v in r ==> 0 <= v < PaletteSize && v as Byte in p
  {
    if p == [] then {}
    else
      var init := p[..|p| - 1];
      assert p == init + [p[|p| - 1]];
      Elems(init) + {p[|p| - 1] as int}
  }

  /** Distinct indices give as many integers as there are indices. */
  lemma {:induction false} ElemsCount(p: seq<Byte>)
    requires Distinct(p)
    ensures |Elems(p)| == |p|
  {
    if p != [] {
      var init, b := p[..|p| - 1], p[|p| - 1];
      ElemsCount(init);
      assert b !in init;
      assert (b as int) as Byte == b;
      assert b as int !in Elems(init);
    }
  }

  /** The non-zero codes below n. */
  function NonZeroCodes(n: nat): (r: set<int>)
    ensures forall v :: v in r <==> 1 <= v < n
    ensures n >= 1 ==> |r| == n - 1
  {
    if n <= 1 then {} else NonZeroCodes(n - 1) + {n - 1}
  }

  /**
   * Pigeonhole: a brick cannot see more than 255 distinct non-zero palette indices, so
   * the material count minus one always fits the 8-bit lookup table and voxel bytes.
   */
  lemma FirstSeenBound(s: seq<Byte>)
    ensures |FirstSeen(s)| <= 255
  {
    var p := FirstSeen(s);
    ElemsCount(p);
    assert Elems(p) <= NonZeroCodes(PaletteSize);
    assert NonZeroCodes(PaletteSize) == Elems(p) + (NonZeroCodes(PaletteSize) - Elems(p));
  }

  /** Position of `b` in the first-seen list. */
  function IndexOf(p: seq<Byte>, b: Byte): (k: nat)
    requires b in p
    ensures k < |p| && p[k] == b
    ensures forall j :: 0 <= j < k ==> p[j] != b
  {
    if p[0] == b then 0 else 1 + IndexOf(p[1..], b)
  }

  /** The earliest position of an element is the same in every list it is a prefix of. */
  lemma IndexOfPrefix(q: seq<Byte>, p: seq<Byte>, b: Byte)
    requires q <= p && b in q
    ensures b in p && IndexOf(q, b) == IndexOf(p, b)
  {
    assert p[IndexOf(q, b)] == b;
  }

  /** The byte whose value is `n`, for `n` below 256; written by counting up so that
      proofs avoid the costly direct conversion `n as Byte`, which gives the same byte. */
  function ToByte(n: nat): (b: Byte)
    requires n < 256
    ensures b as int == n
  {
    if n == 0 then 0 else ToByte(n - 1) + 1
  }

  /** Distinct bytes have distinct values (so writing one table entry leaves the others). */
  lemma ByteInjective(a: Byte, b: Byte)
    ensures a as int == b as int ==> a == b
  {
    assert (a as int) as Byte == a;
    assert (b as int) as Byte == b;
  }

  /** The material index of palette index `b`: one more than its first-seen position. */
  function Code(p: seq<Byte>, b: Byte): (c: Byte)
    requires b in p && |p| <= 255
    ensures c != 0 && c as int <= |p| && p[c as int - 1] == b
  {
    ToByte(IndexOf(p, b) + 1)
  }

  /** The brick's voxel bytes after the remap loop: 0 stays 0, anything else becomes its material index. */
  function Remapped(s: seq<Byte>): (r: seq<Byte>)
    ensures |r| == |s|
  {
    FirstSeenBound(s);
    var p := FirstSeen(s);
    seq(|s|, i requires 0 <= i < |s| => if s[i] == 0 then 0 else Code(p, s[i]))
  }

  /**
   * `mats` after the remap loop: the empty material, then one material per first-seen
   * index, in the order they were pushed.
   */
  function Materials(p: seq<Byte>, palette: seq<PaletteEntry>): (m: seq<Material>)
    requires |palette| == PaletteSize
    ensures |m| == |p| + 1 && m[0] == EmptyMaterial
    ensures forall j :: 1 <= j < |m| ==> m[j] == MaterialOf(palette[p[j - 1]])
  {
    if p == [] then [EmptyMaterial]
    else Materials(p[..|p| - 1], palette) + [MaterialOf(palette[p[|p| - 1]])]
  }

  /** The code a prefix's table gives `b` is the code it keeps to the end of the scan. */
  lemma CodeStable(s: seq<Byte>, i: nat, b: Byte)
    requires i <= |s| && b in FirstSeen(s[..i])
    ensures |FirstSeen(s[..i])| <= 255 && |FirstSeen(s)| <= 255
    ensures b in FirstSeen(s) && Code(FirstSeen(s[..i]), b) == Code(FirstSeen(s), b)
  {
    FirstSeenBound(s[..i]);
    FirstSeenBound(s);
    FirstSeenPrefix(s, i);
    IndexOfPrefix(FirstSeen(s[..i]), FirstSeen(s), b);
  }

  // ------------------------------------------------------------ remap facts

  /** A cell of the remapped brick is empty exactly when its source cell is. */
  lemma RemapZero(s: seq<Byte>, i: nat)
    requires i < |s|
    ensures |Remapped(s)| == |s|
    ensures Remapped(s)[i] == 0 <==> s[i] == 0
  {
  }

  /** Every filled cell gets a material index in `[1, mats.size() - 1]`. */
  lemma RemapRange(s: seq<Byte>, i: nat)
    requires i < |s| && s[i] != 0
    ensures |Remapped(s)| == |s|
    ensures 1 <= Remapped(s)[i] as int <= |FirstSeen(s)|
  {
  }

  /** Two cells get the same material index exactly when they held the same palette index. */
  lemma RemapConsistent(s: seq<Byte>, i: nat, j: nat)
    requires i < |s| && j < |s|
    ensures |Remapped(s)| == |s|
    ensures Remapped(s)[i] == Remapped(s)[j] <==> s[i] == s[j]
  {
    FirstSeenBound(s);
    var p := FirstSeen(s);
    if s[i] != 0 && s[j] != 0 && Remapped(s)[i] == Remapped(s)[j] {
      assert p[Code(p, s[i]) as int - 1] == s[i];
    }
  }

  /** The material a filled cell's index selects is the one made from its palette slot. */
  lemma RemapMaterial(s: seq<Byte>, palette: seq<PaletteEntry>, i: nat)
    requires |palette| == PaletteSize && i < |s| && s[i] != 0
    ensures |Remapped(s)| == |s| && Remapped(s)[i] as int < |Materials(FirstSeen(s), palette)|
    ensures Materials(FirstSeen(s), palette)[Remapped(s)[i]] == MaterialOf(palette[s[i]])
  {
  }

  /**
   * Indices are handed out consecutively in first-seen order: the first cell holding a
   * palette index receives `mats.size() - 1` after the push, one more than the number of
   * indices seen before it.
   */
  lemma RemapFirstOccurrence(s: seq<Byte>, i: nat)
    requires i < |s| && s[i] != 0 && s[i] !in s[..i]
    ensures |Remapped(s)| == |s|
    ensures Remapped(s)[i] as int == |FirstSeen(s[..i])| + 1
  {
    FirstSeenStep(s, i);
    var p := FirstSeen(s[..i + 1]);
    assert p[|p| - 1] == s[i];
    assert s[i] in p;
    CodeStable(s, i + 1, s[i]);
    assert IndexOf(p, s[i]) == |p| - 1;
  }

  // ------------------------------------------------------ one loop iteration

  /** What entry b of the 256-entry lookup table holds once the indices `p` have been seen. */
  function TableEntry(p: seq<Byte>, b: Byte): (c: Byte)
    requires |p| <= 255
    ensures c == 0 <==> b !in p
  {
    if b in p then Code(p, b) else 0
  }

  /** A zero cell: nothing is assigned and the cell stays 0. */
  lemma ZeroStep(s: seq<Byte>, i: nat)
    requires i < |s| && s[i] == 0
    ensures FirstSeen(s[..i + 1]) == FirstSeen(s[..i])
    ensures Remapped(s)[i] == 0
  {
    FirstSeenStep(s, i);
  }

  /** A palette index already in the table: nothing is assigned and the cell takes the table's entry. */
  lemma KnownIndexStep(s: seq<Byte>, i: nat)
    requires i < |s| && s[i] != 0 && s[i] in FirstSeen(s[..i])
    ensures FirstSeen(s[..i + 1]) == FirstSeen(s[..i])
    ensures |FirstSeen(s[..i])| <= 255
    ensures Remapped(s)[i] == TableEntry(FirstSeen(s[..i]), s[i])
  {
    FirstSeenStep(s, i);
    CodeStable(s, i, s[i]);
  }

  /**
   * A new palette index: it is appended to the first-seen list and its cell gets index
   * `|mats| - 1` after the push, one more than the number of indices seen before.
   */
  lemma NewIndexStep(s: seq<Byte>, i: nat)
    requires i < |s| && s[i] != 0 && s[i] !in FirstSeen(s[..i])
    ensures FirstSeen(s[..i + 1]) == FirstSeen(s[..i]) + [s[i]]
    ensures |FirstSeen(s[..i + 1])| <= 255
    ensures Remapped(s)[i] == ToByte(|FirstSeen(s[..i])| + 1)
  {
    FirstSeenStep(s, i);
    FirstSeenBound(s[..i + 1]);
    RemapFirstOccurrence(s, i);
  }

  /** Pushing the material of a new index onto `mats`. */
  lemma MaterialsExtend(p: seq<Byte>, b: Byte, palette: seq<PaletteEntry>)
    requires |palette| == PaletteSize
    ensures Materials(p + [b], palette) == Materials(p, palette) + [MaterialOf(palette[b])]
  {
    assert (p + [b])[..|p|] == p;
  }

  /** Appending a new index gives it code `|p| + 1` in the table and leaves every other entry as it was. */
  lemma TableExtend(p: seq<Byte>, b: Byte, c: Byte)
    requires b !in p && |p| < 255
    ensures TableEntry(p + [b], c) == if c == b then ToByte(|p| + 1) else TableEntry(p, c)
  {
    var p' := p + [b];
    if c == b {
      assert p'[|p|] == b;
      assert IndexOf(p', b) == |p|;
    } else if c in p {
      IndexOfPrefix(p, p', c);
    }
  }

  // ------------------------------------------------ the loop state, as values

  /** Entry `c` of the 256-entry table holds the material index of `c` once `seen` has been seen. */
  ghost predicate TableMatches(t: seq<Byte>, seen: seq<Byte>)
  {
    |t| == PaletteSize && |seen| <= 255 && forall c: Byte :: t[c as int] == TableEntry(seen, c)
  }

  /** Cells before `i` are remapped and cells from `i` on are as in the file. */
  ghost predicate CellsMatch(source: seq<Byte>, v: seq<Byte>, i: nat)
  {
    |source| == |v| && i <= |v| &&
    (forall k :: i <= k < |v| ==> v[k] == source[k]) &&
    (forall k :: 0 <= k < i ==> v[k] == Remapped(source)[k])
  }

  /** The table before any cell has been scanned: every entry is 0. */
  lemma TableInitial(t: seq<Byte>)
    requires |t| == PaletteSize && forall k :: 0 <= k < |t| ==> t[k] == 0
    ensures TableMatches(t, [])
  {
  }

  /** A new index `b` gets entry `|seen| + 1`; every other entry is kept. */
  lemma TableAfterNew(t: seq<Byte>, seen: seq<Byte>, b: Byte)
    requires TableMatches(t, seen) && b !in seen && |seen| < 255
    ensures TableMatches(t[b as int := ToByte(|seen| + 1)], seen + [b])
  {
    forall c: Byte
      ensures t[b as int := ToByte(|seen| + 1)][c as int] == TableEntry(seen + [b], c)
    {
      TableEntryAfterNew(t, seen, b, c);
    }
  }

  /** Entry `c` of the table after `b` is added. */
  lemma TableEntryAfterNew(t: seq<Byte>, seen: seq<Byte>, b: Byte, c: Byte)
    requires TableMatches(t, seen) && b !in seen && |seen| < 255
    ensures t[b as int := ToByte(|seen| + 1)][c as int] == TableEntry(seen + [b], c)
  {
    TableExtend(seen, b, c);
    ByteInjective(c, b);
  }

  /** Writing the remapped value into cell `i` moves the scan one cell on. */
  lemma CellsAfter(source: seq<Byte>, v: seq<Byte>, i: nat, x: Byte)
    requires CellsMatch(source, v, i) && i < |v| && x == Remapped(source)[i]
    ensures CellsMatch(source, v[i := x], i + 1)
  {
  }
}
