/**
 * Nibble-packed voxel storage shared by both revisions of the renderer:
 * a 3-D grid of 4-bit cells packed eight to a 32-bit word along Y, the
 * addressing that `getVoxel`/`setVoxel` use, and the word layout that the
 * encoder (`encodeData` / `encodeData_`) produces from the loader's flat
 * byte array.
 */
module Packing {

  /** `uint8_t` */
  type Byte = bv8
  /** `uint32_t` */
  type Word = bv32

  /** Grid extents (`glm::ivec3 size`). */
  datatype Extent = Extent(x: nat, y: nat, z: nat)

  /** A grid as a value: its extents and its packed words. */
  datatype Grid = Grid(size: Extent, data: seq<Word>)

  /** What the file loader hands over: a model's extents and its flat per-cell palette indices. */
  datatype VoxModel = VoxModel(size: Extent, voxels: seq<Byte>)

  predicate WellFormedModel(m: VoxModel)
  {
    m.size.x >= 1 && m.size.y >= 1 && m.size.z >= 1 &&
    |m.voxels| == m.size.x * m.size.y * m.size.z
  }

  /** Length of `data`: `size.x * size.y * size.z / 8`. */
  function WordCount(s: Extent): nat
  {
    s.x * s.y * s.z / 8
  }

  /** A grid whose height is a multiple of 8 and whose buffer has the allocated length. */
  predicate Valid(g: Grid)
  {
    g.size.y % 8 == 0 && |g.data| == WordCount(g.size)
  }

  predicate InBounds(s: Extent, x: nat, y: nat, z: nat)
  {
    x < s.x && y < s.y && z < s.z
  }

  // ---------------------------------------------------------------- nibbles

  /** The shift `(k % 8) * 4` of nibble `k` of a word, as a shift amount below 32. */
  function Shift(k: nat): bv5
    requires k < 8
  {
    (k * 4) as bv5
  }

  /** The eight shifts at which a nibble starts. */
  predicate IsNibbleShift(s: bv5)
  {
    s == 0 || s == 4 || s == 8 || s == 12 || s == 16 || s == 20 || s == 24 || s == 28
  }

  lemma ShiftValues(k: nat)
    requires k < 8
    ensures IsNibbleShift(Shift(k))
  {
  }

  lemma ShiftInjective(k: nat, j: nat)
    requires k < 8 && j < 8 && k != j
    ensures Shift(k) != Shift(j)
  {
  }

  /** `(w >> s) & 0xF` */
  function NibbleAt(w: Word, s: bv5): (r: Word)
    ensures r <= 0xF
  {
    (w >> s) & 0xF
  }

  /** `(w & ~(0xF << s)) | (v << s)` */
  function WithNibble(w: Word, s: bv5, v: Byte): Word
  {
    (w & !(0xF << s)) | ((v as Word) << s)
  }

  /** Writing the nibble at shift s yields `v` there and leaves the other seven nibbles as they were. */
  lemma WithNibbleAt(w: Word, s: bv5, t: bv5, v: Byte)
    requires v <= 0xF && IsNibbleShift(s) && IsNibbleShift(t)
    ensures NibbleAt(WithNibble(w, s, v), t) == if s == t then v as Word else NibbleAt(w, t)
  {
  }

  // ------------------------------------------------------------- addressing

  /** Word index of cell (x, y, z), parenthesised as the source writes it: `(z*sx + x)*sy/8 + y/8`. */
  function WordIndex(s: Extent, x: nat, y: nat, z: nat): nat
  {
    (z * s.x + x) * s.y / 8 + y / 8
  }

  lemma MulAtLeast(a: int, q: int)
    requires a >= 1 && q > 0
    ensures a * q >= q
  {
  }

  lemma MulDistrib(a: int, b: int, q: int)
    ensures a * q - b * q == (a - b) * q
  {
  }

  /** Euclidean division is determined by its quotient and remainder. */
  lemma DivModUnique(w: int, q: int, m: int, r: int)
    requires q > 0 && 0 <= r < q && w == m * q + r
    ensures w / q == m && w % q == r
  {
    var m', r' := w / q, w % q;
    assert w == m' * q + r';
    MulDistrib(m, m', q);
    if m - m' >= 1 {
      MulAtLeast(m - m', q);
    } else if m' - m >= 1 {
      MulAtLeast(m' - m, q);
      MulDistrib(m', m, q);
    }
  }

  /** `m * sy / 8 == m * (sy / 8)` holds because `sy` is a multiple of 8. */
  lemma MulDiv8(m: nat, sy: nat)
    requires sy % 8 == 0
    ensures m * sy / 8 == m * (sy / 8)
  {
    var q := sy / 8;
    assert m * sy == (m * q) * 8 + 0 by { assert sy == 8 * q; }
    DivModUnique(m * sy, 8, m * q, 0);
  }

  lemma CountSplit(sx: nat, sy: nat, sz: nat)
    requires sy % 8 == 0
    ensures sx * sy * sz / 8 == (sz * sx) * (sy / 8) == (sx * sz) * (sy / 8)
  {
    var q := sy / 8;
    assert sx * sy * sz == (sz * sx) * sy;
    MulDiv8(sz * sx, sy);
  }

  /** A column `z*sx + x` of one layout is the column `x'*sz + z'` of the transposed one. */
  lemma SplitColumn(sx: nat, sz: nat, x: nat, z: nat) returns (x': nat, z': nat)
    requires x < sx && z < sz
    ensures x' * sz + z' == z * sx + x && x' < sx && z' < sz
  {
    var m := z * sx + x;
    FlatBound(z, x, sz, sx);
    DivMod(m, sz);
    x', z' := m / sz, m % sz;
    MulCancel(x', sx, sz);
  }

  lemma FlatBound(a: nat, b: nat, bigA: nat, bigB: nat)
    requires a < bigA && b < bigB
    ensures a * bigB + b < bigA * bigB
  {
    MulAtLeast(bigA - a, bigB);
    MulDistrib(bigA, a, bigB);
  }

  /**
   * For an in-bounds cell of a grid whose height is a multiple of 8, the word index
   * equals `(z*sx + x)*(sy/8) + y/8` and lies inside `data`.
   */
  lemma WordIndexInRange(s: Extent, x: nat, y: nat, z: nat)
    requires s.y % 8 == 0 && InBounds(s, x, y, z)
    ensures WordIndex(s, x, y, z) == (z * s.x + x) * (s.y / 8) + y / 8
    ensures WordIndex(s, x, y, z) < WordCount(s)
  {
    var q := s.y / 8;
    var m := z * s.x + x;
    MulDiv8(m, s.y);
    FlatBound(z, x, s.z, s.x);
    FlatBound(m, y / 8, s.z * s.x, q);
    CountSplit(s.x, s.y, s.z);
  }

  /** Two in-bounds cells share a word only if they share the column (x, z) and the 8-row block of y. */
  lemma WordIndexInjective(s: Extent, x: nat, y: nat, z: nat, x': nat, y': nat, z': nat)
    requires s.y % 8 == 0 && InBounds(s, x, y, z) && InBounds(s, x', y', z')
    requires WordIndex(s, x, y, z) == WordIndex(s, x', y', z')
    ensures x == x' && z == z' && y / 8 == y' / 8
  {
    var q := s.y / 8;
    WordIndexInRange(s, x, y, z);
    WordIndexInRange(s, x', y', z');
    var w := WordIndex(s, x, y, z);
    DivModUnique(w, q, z * s.x + x, y / 8);
    DivModUnique(w, q, z' * s.x + x', y' / 8);
    DivModUnique(z * s.x + x, s.x, z, x);
    DivModUnique(z' * s.x + x', s.x, z', x');
  }

  // ------------------------------------------------------------ get and set

  /**
   * `getVoxel`: the nibble of cell (x, y, z). It is never more than 15, and it is 0 for
   * every cell outside the grid.
   */
  function Get(g: Grid, x: nat, y: nat, z: nat): (r: Byte)
    requires Valid(g)
    ensures r <= 0xF
    ensures !InBounds(g.size, x, y, z) ==> r == 0
  {
    if !InBounds(g.size, x, y, z) then 0
    else
      WordIndexInRange(g.size, x, y, z);
      NibbleAt(g.data[WordIndex(g.size, x, y, z)], Shift(y % 8)) as Byte
  }

  /** `setVoxel`: read-modify-write of one nibble; out-of-range cells and values above 15 are ignored. */
  function Set(g: Grid, x: nat, y: nat, z: nat, val: Byte): (r: Grid)
    requires Valid(g)
    ensures Valid(r) && r.size == g.size
  {
    if !InBounds(g.size, x, y, z) then g
    else if val > 0xF then g
    else
      WordIndexInRange(g.size, x, y, z);
      var w := WordIndex(g.size, x, y, z);
      g.(data := g.data[w := WithNibble(g.data[w], Shift(y % 8), val)])
  }

  /** After `setVoxel(x, y, z, v)` on an in-bounds cell with `v <= 15`, `getVoxel(x, y, z) == v`. */
  lemma GetAfterSet(g: Grid, x: nat, y: nat, z: nat, v: Byte)
    requires Valid(g) && InBounds(g.size, x, y, z) && v <= 0xF
    ensures Get(Set(g, x, y, z, v), x, y, z) == v
  {
    WordIndexInRange(g.size, x, y, z);
    var w := WordIndex(g.size, x, y, z);
    ShiftValues(y % 8);
    WithNibbleAt(g.data[w], Shift(y % 8), Shift(y % 8), v);
  }

  /** `setVoxel` changes no other cell's `getVoxel` value, inside or outside the grid. */
  lemma SetFrame(g: Grid, x: nat, y: nat, z: nat, v: Byte, x': nat, y': nat, z': nat)
    requires Valid(g)
    requires x' != x || y' != y || z' != z
    ensures Get(Set(g, x, y, z, v), x', y', z') == Get(g, x', y', z')
  {
    if InBounds(g.size, x, y, z) && v <= 0xF && InBounds(g.size, x', y', z') {
      WordIndexInRange(g.size, x, y, z);
      WordIndexInRange(g.size, x', y', z');
      var w, w' := WordIndex(g.size, x, y, z), WordIndex(g.size, x', y', z');
      if w == w' {
        WordIndexInjective(g.size, x, y, z, x', y', z');
        ShiftValues(y % 8);
        ShiftValues(y' % 8);
        ShiftInjective(y % 8, y' % 8);
        WithNibbleAt(g.data[w], Shift(y % 8), Shift(y' % 8), v);
      }
    }
  }

  /** `setVoxel` writes at most the one word that holds (x, y, z), and only that word's nibble `y % 8`. */
  lemma SetTouchesOneNibble(g: Grid, x: nat, y: nat, z: nat, v: Byte)
    requires Valid(g) && InBounds(g.size, x, y, z) && v <= 0xF
    ensures WordIndex(g.size, x, y, z) < |g.data|
    ensures forall i :: 0 <= i < |g.data| && i != WordIndex(g.size, x, y, z) ==>
              Set(g, x, y, z, v).data[i] == g.data[i]
    ensures forall k :: 0 <= k < 8 && k != y % 8 ==>
              NibbleAt(Set(g, x, y, z, v).data[WordIndex(g.size, x, y, z)], Shift(k)) ==
              NibbleAt(g.data[WordIndex(g.size, x, y, z)], Shift(k))
  {
    WordIndexInRange(g.size, x, y, z);
    var w := WordIndex(g.size, x, y, z);
    forall k | 0 <= k < 8 && k != y % 8
      ensures NibbleAt(Set(g, x, y, z, v).data[w], Shift(k)) == NibbleAt(g.data[w], Shift(k))
    {
      ShiftValues(k);
      ShiftValues(y % 8);
      ShiftInjective(y % 8, k);
      WithNibbleAt(g.data[w], Shift(y % 8), Shift(k), v);
    }
  }

  /** `setVoxel` leaves the grid unchanged for an out-of-range cell or a value above 15. */
  lemma SetIgnored(g: Grid, x: nat, y: nat, z: nat, v: Byte)
    requires Valid(g) && (!InBounds(g.size, x, y, z) || v > 0xF)
    ensures Set(g, x, y, z, v) == g
  {
  }

  // --------------------------------------------------------------- encoding

  /** `w0 << 0 | w1 << 4 | ... | w7 << 28` over the eight source bytes of one word. */
  function Pack(b0: Byte, b1: Byte, b2: Byte, b3: Byte, b4: Byte, b5: Byte, b6: Byte, b7: Byte): Word
  {
    ((b0 as Word) << 0) | ((b1 as Word) << 4) | ((b2 as Word) << 8) | ((b3 as Word) << 12) |
    ((b4 as Word) << 16) | ((b5 as Word) << 20) | ((b6 as Word) << 24) | ((b7 as Word) << 28)
  }

  lemma PackNibble(c: seq<Byte>, k: nat)
    requires |c| == 8 && k < 8
    requires forall j :: 0 <= j < 8 ==> c[j] <= 0xF
    ensures NibbleAt(Pack(c[0], c[1], c[2], c[3], c[4], c[5], c[6], c[7]), Shift(k)) == c[k] as Word
  {
    ShiftValues(k);
    var b0, b1, b2, b3, b4, b5, b6, b7 := c[0], c[1], c[2], c[3], c[4], c[5], c[6], c[7];
    assert b0 <= 0xF && b1 <= 0xF && b2 <= 0xF && b3 <= 0xF && b4 <= 0xF && b5 <= 0xF && b6 <= 0xF && b7 <= 0xF;
    if k == 0 {} else if k == 1 {} else if k == 2 {} else if k == 3 {}
    else if k == 4 {} else if k == 5 {} else if k == 6 {} else {}
  }

  /** Index into the loader's array of the byte that the encoder puts into nibble k of word (x, z, i). */
  function SourceIndex(sx: nat, sz: nat, x: nat, z: nat, i: nat, k: nat): nat
  {
    ((i * 8 + k) * sx + x) * sz + z
  }

  lemma SourceIndexInRange(sx: nat, sy: nat, sz: nat, x: nat, z: nat, i: nat, k: nat)
    requires x < sx && z < sz && i * 8 + k < sy
    ensures SourceIndex(sx, sz, x, z, i, k) < sx * sy * sz
  {
    FlatBound(i * 8 + k, x, sy, sx);
    FlatBound((i * 8 + k) * sx + x, z, sy * sx, sz);
    assert sy * sx * sz == sx * sy * sz;
  }

  /** The eight source bytes, bottom to top, that the encoder packs into word (x, z, i). */
  function Column(vd: seq<Byte>, sx: nat, sy: nat, sz: nat, x: nat, z: nat, i: nat): (c: seq<Byte>)
    requires |vd| == sx * sy * sz && x < sx && z < sz && i < sy / 8
    ensures |c| == 8
  {
    seq(8, k requires 0 <= k < 8 =>
      SourceIndexInRange(sx, sy, sz, x, z, i, k);
      vd[SourceIndex(sx, sz, x, z, i, k)])
  }

  /** The word the encoder writes for column (x, z) and 8-row block i. */
  function EncodedWord(vd: seq<Byte>, sx: nat, sy: nat, sz: nat, x: nat, z: nat, i: nat): Word
    requires |vd| == sx * sy * sz && x < sx && z < sz && i < sy / 8
  {
    var c := Column(vd, sx, sy, sz, x, z, i);
    Pack(c[0], c[1], c[2], c[3], c[4], c[5], c[6], c[7])
  }

  predicate AllNibbles(vd: seq<Byte>)
  {
    forall i :: 0 <= i < |vd| ==> vd[i] <= 0xF
  }

  /** The word for (x, z, i) is the OR of the eight source bytes the encoder reads, each in range. */
  lemma EncodedWordBytes(vd: seq<Byte>, sx: nat, sy: nat, sz: nat, x: nat, z: nat, i: nat)
    requires |vd| == sx * sy * sz && x < sx && z < sz && i < sy / 8
    ensures forall k :: 0 <= k < 8 ==> SourceIndex(sx, sz, x, z, i, k) < |vd|
    ensures EncodedWord(vd, sx, sy, sz, x, z, i) ==
            Pack(vd[SourceIndex(sx, sz, x, z, i, 0)], vd[SourceIndex(sx, sz, x, z, i, 1)],
                 vd[SourceIndex(sx, sz, x, z, i, 2)], vd[SourceIndex(sx, sz, x, z, i, 3)],
                 vd[SourceIndex(sx, sz, x, z, i, 4)], vd[SourceIndex(sx, sz, x, z, i, 5)],
                 vd[SourceIndex(sx, sz, x, z, i, 6)], vd[SourceIndex(sx, sz, x, z, i, 7)])
  {
    forall k | 0 <= k < 8
      ensures SourceIndex(sx, sz, x, z, i, k) < |vd|
    {
      SourceIndexInRange(sx, sy, sz, x, z, i, k);
    }
  }

  /** With every byte at most 15, nibble k of word (x, z, i) is the source byte `((8i+k)*sx + x)*sz + z`. */
  lemma EncodedNibble(vd: seq<Byte>, sx: nat, sy: nat, sz: nat, x: nat, z: nat, i: nat, k: nat)
    requires |vd| == sx * sy * sz && x < sx && z < sz && i < sy / 8 && k < 8
    requires AllNibbles(vd)
    ensures SourceIndex(sx, sz, x, z, i, k) < |vd|
    ensures NibbleAt(EncodedWord(vd, sx, sy, sz, x, z, i), Shift(k)) == vd[SourceIndex(sx, sz, x, z, i, k)] as Word
  {
    SourceIndexInRange(sx, sy, sz, x, z, i, k);
    var c := Column(vd, sx, sy, sz, x, z, i);
    forall j | 0 <= j < 8
      ensures c[j] <= 0xF
    {
      SourceIndexInRange(sx, sy, sz, x, z, i, j);
    }
    PackNibble(c, k);
  }

  /** Word index the encoder writes for (x, z, i), as the source writes it: `(x*sz + z)*sy/8 + i`. */
  function EncoderIndex(sy: nat, sz: nat, x: nat, z: nat, i: nat): nat
  {
    (x * sz + z) * sy / 8 + i
  }

  /** Word w of the packed buffer: the word written for the column and block that w decodes to. */
  function EncodedAt(vd: seq<Byte>, sx: nat, sy: nat, sz: nat, w: nat): Word
    requires sy % 8 == 0 && |vd| == sx * sy * sz && w < sx * sy * sz / 8
  {
    DecodeInRange(sx, sy, sz, w);
    var q := sy / 8;
    var x, z, i := w / q / sz, w / q % sz, w % q;
    EncodedWord(vd, sx, sy, sz, x, z, i)
  }

  /** The packed buffer the encoder produces: word w holds the column and block that `EncoderIndex` maps to w. */
  function Encode(vd: seq<Byte>, sx: nat, sy: nat, sz: nat): (r: seq<Word>)
    requires sy % 8 == 0 && |vd| == sx * sy * sz
    ensures |r| == sx * sy * sz / 8
  {
    seq(sx * sy * sz / 8, w requires 0 <= w < sx * sy * sz / 8 => EncodedAt(vd, sx, sy, sz, w))
  }

  lemma MulMono(a: int, b: int, q: int)
    requires a <= b && q >= 0
    ensures a * q <= b * q
  {
  }

  lemma MulCancel(a: int, b: int, q: int)
    requires q > 0 && a * q < b * q
    ensures a < b
  {
    if a >= b {
      MulMono(b, a, q);
    }
  }

  lemma ProductPositive(a: nat, b: nat)
    requires a * b > 0
    ensures a > 0 && b > 0
  {
  }

  lemma DivMod(w: nat, q: nat)
    requires q > 0
    ensures w == (w / q) * q + w % q && 0 <= w % q < q && w / q >= 0
  {
  }

  /** A word index below `sx*sy*sz/8` decodes to a column index below `sx*sz` and an x below `sx`. */
  lemma DecodeInRange(sx: nat, sy: nat, sz: nat, w: nat)
    requires sy % 8 == 0 && w < sx * sy * sz / 8
    ensures sy / 8 > 0 && sz > 0
    ensures w / (sy / 8) < sx * sz
    ensures 0 <= w / (sy / 8) / sz < sx && 0 <= w / (sy / 8) % sz < sz && 0 <= w % (sy / 8) < sy / 8
  {
    var q := sy / 8;
    CountSplit(sx, sy, sz);
    ProductPositive(sx * sz, q);
    ProductPositive(sx, sz);
    var m := w / q;
    DivMod(w, q);
    MulCancel(m, sx * sz, q);
    DivMod(m, sz);
    MulCancel(m / sz, sx, sz);
  }

  /**
   * The encoder's word indices are a bijection from {(x, z, i) | x < sx, z < sz, i < sy/8}
   * onto [0, sx*sy*sz/8): each triple lands in range and decodes back to itself ...
   */
  lemma EncoderIndexDecodes(sx: nat, sy: nat, sz: nat, x: nat, z: nat, i: nat)
    requires sy % 8 == 0 && x < sx && z < sz && i < sy / 8
    ensures EncoderIndex(sy, sz, x, z, i) == (x * sz + z) * (sy / 8) + i
    ensures EncoderIndex(sy, sz, x, z, i) < sx * sy * sz / 8
    ensures EncoderIndex(sy, sz, x, z, i) / (sy / 8) / sz == x
    ensures EncoderIndex(sy, sz, x, z, i) / (sy / 8) % sz == z
    ensures EncoderIndex(sy, sz, x, z, i) % (sy / 8) == i
  {
    var q := sy / 8;
    var m := x * sz + z;
    MulDiv8(m, sy);
    FlatBound(x, z, sx, sz);
    FlatBound(m, i, sx * sz, q);
    CountSplit(sx, sy, sz);
    DivModUnique(m * q + i, q, m, i);
    DivModUnique(m, sz, x, z);
  }

  /** Splitting a word index into column x, column z and block i, and putting it back together. */
  lemma Recompose(q: nat, sz: nat, w: nat) returns (x: nat, z: nat, i: nat)
    requires q > 0 && sz > 0
    ensures x == w / q / sz && z < sz && i < q
    ensures (x * sz + z) * q + i == w
  {
    DivMod(w, q);
    DivMod(w / q, sz);
    x, z, i := w / q / sz, w / q % sz, w % q;
  }

  lemma EncoderIndexLinear(sy: nat, sz: nat, x: nat, z: nat, i: nat)
    requires sy % 8 == 0
    ensures EncoderIndex(sy, sz, x, z, i) == (x * sz + z) * (sy / 8) + i
  {
    MulDiv8(x * sz + z, sy);
  }

  /** ... and every word index in range is the index of some triple. */
  lemma EncoderIndexCovers(sx: nat, sy: nat, sz: nat, w: nat) returns (x: nat, z: nat, i: nat)
    requires sy % 8 == 0 && w < sx * sy * sz / 8
    ensures x < sx && z < sz && i < sy / 8
    ensures EncoderIndex(sy, sz, x, z, i) == w
  {
    DecodeInRange(sx, sy, sz, w);
    x, z, i := Recompose(sy / 8, sz, w);
    EncoderIndexLinear(sy, sz, x, z, i);
  }

  /** Word `EncoderIndex(x, z, i)` of the encoded buffer is the word written for (x, z, i). */
  lemma EncodeAt(vd: seq<Byte>, sx: nat, sy: nat, sz: nat, x: nat, z: nat, i: nat)
    requires sy % 8 == 0 && |vd| == sx * sy * sz && x < sx && z < sz && i < sy / 8
    ensures EncoderIndex(sy, sz, x, z, i) < |Encode(vd, sx, sy, sz)|
    ensures Encode(vd, sx, sy, sz)[EncoderIndex(sy, sz, x, z, i)] == EncodedWord(vd, sx, sy, sz, x, z, i)
  {
    EncoderIndexDecodes(sx, sy, sz, x, z, i);
  }

  lemma SourceIndexOfRow(sx: nat, sz: nat, x: nat, z: nat, y: nat)
    ensures SourceIndex(sx, sz, x, z, y / 8, y % 8) == (y * sx + x) * sz + z
  {
    assert y / 8 * 8 + y % 8 == y;
  }

  /** Both layouts agree on the flat index once the columns agree: `x'*sz + z' == z*sx + x`. */
  lemma Regroup(sx: nat, sz: nat, x': nat, z': nat, x: nat, y: nat, z: nat)
    requires x' * sz + z' == z * sx + x
    ensures (y * sx + x') * sz + z' == (y * sz + z) * sx + x
  {
    assert (y * sx + x') * sz == y * sx * sz + x' * sz;
    assert (y * sz + z) * sx == y * sz * sx + z * sx;
    assert y * sx * sz == y * sz * sx;
  }

  lemma FlatIndexInRange(s: Extent, x: nat, y: nat, z: nat)
    requires InBounds(s, x, y, z)
    ensures (y * s.z + z) * s.x + x < s.x * s.y * s.z
  {
    FlatBound(y, z, s.y, s.z);
    FlatBound(y * s.z + z, x, s.y * s.z, s.x);
    assert s.y * s.z * s.x == s.x * s.y * s.z;
  }

  /** `getVoxel` on the encoded buffer reads nibble `y % 8` of the word written for the transposed column. */
  lemma GetEncodedWord(vd: seq<Byte>, s: Extent, x: nat, y: nat, z: nat) returns (x': nat, z': nat)
    requires s.y % 8 == 0 && |vd| == s.x * s.y * s.z
    requires InBounds(s, x, y, z)
    ensures x' * s.z + z' == z * s.x + x && x' < s.x && z' < s.z
    ensures Valid(Grid(s, Encode(vd, s.x, s.y, s.z)))
    ensures Get(Grid(s, Encode(vd, s.x, s.y, s.z)), x, y, z) ==
            NibbleAt(EncodedWord(vd, s.x, s.y, s.z, x', z', y / 8), Shift(y % 8)) as Byte
  {
    WordIndexInRange(s, x, y, z);
    x', z' := SplitColumn(s.x, s.z, x, z);
    EncoderIndexLinear(s.y, s.z, x', z', y / 8);
    EncodeAt(vd, s.x, s.y, s.z, x', z', y / 8);
  }

  /**
   * The round trip: decoding the encoder's output with `getVoxel` reproduces the loader's
   * byte at `(y*sz + z)*sx + x` for every in-bounds cell, whenever the height is a
   * multiple of 8 and every byte fits a nibble.
   */
  lemma EncodeRoundTrip(vd: seq<Byte>, s: Extent, x: nat, y: nat, z: nat)
    requires s.y % 8 == 0 && |vd| == s.x * s.y * s.z && AllNibbles(vd)
    requires InBounds(s, x, y, z)
    ensures Valid(Grid(s, Encode(vd, s.x, s.y, s.z)))
    ensures (y * s.z + z) * s.x + x < |vd|
    ensures Get(Grid(s, Encode(vd, s.x, s.y, s.z)), x, y, z) == vd[(y * s.z + z) * s.x + x]
  {
    FlatIndexInRange(s, x, y, z);
    var x', z' := GetEncodedWord(vd, s, x, y, z);
    EncodedNibble(vd, s.x, s.y, s.z, x', z', y / 8, y % 8);
    SourceIndexOfRow(s.x, s.z, x', z', y);
    Regroup(s.x, s.z, x', z', x, y, z);
  }

  /** Column m of the encoder starts at word `m*(sy/8)`, which is at most the buffer length when `m <= sx*sz`. */
  lemma ColumnStartBound(sx: nat, sy: nat, sz: nat, m: nat)
    requires sy % 8 == 0 && m <= sx * sz
    ensures m * (sy / 8) <= sx * sy * sz / 8
  {
    CountSplit(sx, sy, sz);
    MulMono(m, sx * sz, sy / 8);
  }

  /** Column (x, z) occupies words `[(x*sz + z)*(sy/8), (x*sz + z + 1)*(sy/8))`, inside the buffer. */
  lemma ColumnSpan(sx: nat, sy: nat, sz: nat, x: nat, z: nat) returns (q: nat)
    requires sy % 8 == 0 && x < sx && z < sz
    ensures q == sy / 8
    ensures (x * sz + z) * sy / 8 == (x * sz + z) * q
    ensures (x * sz + z) * sy / 8 + q == (x * sz + z + 1) * q
    ensures (x * sz + z + 1) * q <= sx * sy * sz / 8
  {
    q := sy / 8;
    EncoderIndexLinear(sy, sz, x, z, 0);
    FlatBound(x, z, sx, sz);
    ColumnStartBound(sx, sy, sz, x * sz + z + 1);
    MulSucc(x * sz + z, q);
  }

  lemma MulSucc(m: nat, q: nat)
    ensures (m + 1) * q == m * q + q
  {
  }

  /** The brick map's extents: the file's x, z and y, in that order. */
  function MapExtent(model: VoxModel): Extent
  {
    Extent(model.size.x, model.size.z, model.size.y)
  }

  /** Swapping y and z keeps the cell count. */
  lemma SwapSize(s: Extent)
    ensures s.x * s.y * s.z == s.x * s.z * s.y
  {
  }

  /** The brick map's packed words for a model whose height is a multiple of 8. */
  function MapWords(model: VoxModel): (r: seq<Word>)
    requires WellFormedModel(model) && model.size.z % 8 == 0
    ensures Valid(Grid(MapExtent(model), r))
  {
    SwapSize(model.size);
    Encode(model.voxels, model.size.x, model.size.z, model.size.y)
  }

  /**
   * `encodeData(voxel_data, data_arr, sx, sy, sz)`: for each column (x, z) in x-major order
   * it writes the packed words of that column (`EncodeColumn`). The array ends up holding
   * exactly `Encode`.
   */
  method EncodeData(vd: seq<Byte>, dataArr: array<Word>, sx: nat, sy: nat, sz: nat)
    requires sy % 8 == 0 && |vd| == sx * sy * sz
    requires dataArr.Length == sx * sy * sz / 8
    modifies dataArr
    ensures dataArr[..] == Encode(vd, sx, sy, sz)
  {
    ghost var e := Encode(vd, sx, sy, sz);
    var x := 0;
    while x < sx
      invariant 0 <= x <= sx
      invariant PrefixAgrees(dataArr[..], Encode(vd, sx, sy, sz), (x * sz) * (sy / 8))
    {
      var z := 0;
      while z < sz
        invariant 0 <= z <= sz
        invariant PrefixAgrees(dataArr[..], Encode(vd, sx, sy, sz), (x * sz + z) * (sy / 8))
      {
        ColumnOfEncode(vd, sx, sy, sz, x, z);
        EncodeColumn(vd, dataArr, sx, sy, sz, x, z, e);
        z := z + 1;
      }
      assert (x + 1) * sz == x * sz + sz;
      x := x + 1;
    }
    CountSplit(sx, sy, sz);
    assert dataArr[..] == e;
  }

  /** The first `n` words of `a` are those of `e`. */
  predicate PrefixAgrees(a: seq<Word>, e: seq<Word>, n: nat)
  {
    n <= |a| && n <= |e| && forall w :: 0 <= w < n ==> a[w] == e[w]
  }

  /** Writing `e[n]` at position n extends the agreeing prefix by one word. */
  lemma PrefixExtend(a: seq<Word>, e: seq<Word>, n: nat, v: Word)
    requires PrefixAgrees(a, e, n) && n < |a| && n < |e| && e[n] == v
    ensures PrefixAgrees(a[n := v], e, n + 1)
  {
  }

  /** From position n on, `a` still holds the words of `b`. */
  predicate SuffixKept(a: seq<Word>, b: seq<Word>, n: nat)
  {
    |a| == |b| && n <= |a| && a[n..] == b[n..]
  }

  /** Writing position n shrinks the kept suffix by that one word. */
  lemma SuffixShrink(a: seq<Word>, b: seq<Word>, n: nat, v: Word)
    requires SuffixKept(a, b, n) && n < |a|
    ensures SuffixKept(a[n := v], b, n + 1)
  {
    assert a[n := v][n + 1..] == a[n..][1..];
  }

  /**
   * The inner loop of `encodeData`: with `index = (x*sz + z)*sy/8` computed once, the
   * `sy/8` packed words of column (x, z) go to `index + i`. Every word before the column
   * already holds its encoding, and afterwards so does every word up to the column's end;
   * the words after the column are not written.
   */
  method EncodeColumn(vd: seq<Byte>, dataArr: array<Word>, sx: nat, sy: nat, sz: nat, x: nat, z: nat, ghost e: seq<Word>)
    requires sy % 8 == 0 && |vd| == sx * sy * sz
    requires dataArr.Length == sx * sy * sz / 8
    requires x < sx && z < sz
    requires ColumnEncoded(e, vd, sx, sy, sz, x, z)
    requires PrefixAgrees(dataArr[..], e, (x * sz + z) * (sy / 8))
    modifies dataArr
    ensures PrefixAgrees(dataArr[..], e, (x * sz + z + 1) * (sy / 8))
    ensures SuffixKept(dataArr[..], old(dataArr[..]), (x * sz + z + 1) * (sy / 8))
  {
    var index := (x * sz + z) * sy / 8;
    ghost var q := ColumnSpan(sx, sy, sz, x, z);
    var i := 0;
    while i < sy / 8
      invariant 0 <= i <= q
      invariant PrefixAgrees(dataArr[..], e, index + i)
      invariant SuffixKept(dataArr[..], old(dataArr[..]), index + i)
    {
      EncodeStep(vd, dataArr, sx, sy, sz, x, z, i, e, old(dataArr[..]));
      i := i + 1;
    }
  }

  /** `e` holds, at the index the encoder writes for (x, z, i), the word packed for (x, z, i), for every block i of column (x, z). */
  ghost predicate ColumnEncoded(e: seq<Word>, vd: seq<Byte>, sx: nat, sy: nat, sz: nat, x: nat, z: nat)
    requires |vd| == sx * sy * sz && x < sx && z < sz
  {
    forall i :: 0 <= i < sy / 8 ==>
      EncoderIndex(sy, sz, x, z, i) < |e| && e[EncoderIndex(sy, sz, x, z, i)] == EncodedWord(vd, sx, sy, sz, x, z, i)
  }

  /** The encoded buffer holds every column's words where the encoder writes them. */
  lemma ColumnOfEncode(vd: seq<Byte>, sx: nat, sy: nat, sz: nat, x: nat, z: nat)
    requires sy % 8 == 0 && |vd| == sx * sy * sz && x < sx && z < sz
    ensures ColumnEncoded(Encode(vd, sx, sy, sz), vd, sx, sy, sz, x, z)
  {
    forall i | 0 <= i < sy / 8
      ensures EncoderIndex(sy, sz, x, z, i) < |Encode(vd, sx, sy, sz)|
      ensures Encode(vd, sx, sy, sz)[EncoderIndex(sy, sz, x, z, i)] == EncodedWord(vd, sx, sy, sz, x, z, i)
    {
      EncodeAt(vd, sx, sy, sz, x, z, i);
    }
  }

  /** One pass of the innermost loop: word `EncoderIndex(x, z, i)` gets its encoding and no other word changes. */
  method EncodeStep(vd: seq<Byte>, dataArr: array<Word>, sx: nat, sy: nat, sz: nat, x: nat, z: nat, i: nat,
                    ghost e: seq<Word>, ghost orig: seq<Word>)
    requires |vd| == sx * sy * sz && x < sx && z < sz && i < sy / 8
    requires ColumnEncoded(e, vd, sx, sy, sz, x, z)
    requires EncoderIndex(sy, sz, x, z, i) < dataArr.Length
    requires PrefixAgrees(dataArr[..], e, EncoderIndex(sy, sz, x, z, i))
    requires SuffixKept(dataArr[..], orig, EncoderIndex(sy, sz, x, z, i))
    modifies dataArr
    ensures PrefixAgrees(dataArr[..], e, EncoderIndex(sy, sz, x, z, i) + 1)
    ensures SuffixKept(dataArr[..], orig, EncoderIndex(sy, sz, x, z, i) + 1)
  {
    var n := EncoderIndex(sy, sz, x, z, i);
    ghost var a := dataArr[..];
    ghost var word := EncodedWord(vd, sx, sy, sz, x, z, i);
    PrefixExtend(a, e, n, word);
    SuffixShrink(a, orig, n, word);
    WriteEncodedWord(vd, dataArr, sx, sy, sz, x, z, i, n);
  }

  /** `data_arr[index + i] = ...`: the OR of the eight shifted source bytes of column (x, z), block i. */
  method WriteEncodedWord(vd: seq<Byte>, dataArr: array<Word>, sx: nat, sy: nat, sz: nat, x: nat, z: nat, i: nat, n: nat)
    requires |vd| == sx * sy * sz && x < sx && z < sz && i < sy / 8 && n < dataArr.Length
    modifies dataArr
    ensures dataArr[..] == old(dataArr[..])[n := EncodedWord(vd, sx, sy, sz, x, z, i)]
  {
    EncodedWordBytes(vd, sx, sy, sz, x, z, i);
    dataArr[n] :=
      Pack(vd[SourceIndex(sx, sz, x, z, i, 0)], vd[SourceIndex(sx, sz, x, z, i, 1)],
           vd[SourceIndex(sx, sz, x, z, i, 2)], vd[SourceIndex(sx, sz, x, z, i, 3)],
           vd[SourceIndex(sx, sz, x, z, i, 4)], vd[SourceIndex(sx, sz, x, z, i, 5)],
           vd[SourceIndex(sx, sz, x, z, i, 6)], vd[SourceIndex(sx, sz, x, z, i, 7)]);
  }
}
