/** Canonical views: how layers, mip levels, rows and texels tile the bytes of a linear allocation
    (src/core/facet.h, src/core/facet.cpp, src/backends/reference/reference_executor.cpp). */
module CanonicalViews {
  import opened Ir
  import opened Bytes

  datatype PixelFormat = RGBA8Unorm | R32Float | Depth32Float | R16Uint | R32Uint {
    function BytesPerTexel(): (r: nat)
      ensures 2 <= r <= 4
    {
      if R16Uint? then 2 else 4
    }
  }

  datatype ViewDimension = Texture2D | Texture2DArray

  datatype CanonicalView = CanonicalView(
    allocation: U64, allocationGeneration: U32, format: PixelFormat, dimension: ViewDimension,
    width: U32, height: U32, arrayLayers: U32, mipLevels: U32)
  {
    function MipWidth(level: nat): (r: nat)
      ensures 1 <= r
    {
      if Shift(width, level) == 0 then 1 else Shift(width, level)
    }

    function MipHeight(level: nat): (r: nat)
      ensures 1 <= r
    {
      if Shift(height, level) == 0 then 1 else Shift(height, level)
    }

    function BytesPerRow(level: nat): nat {
      MipWidth(level) * format.BytesPerTexel()
    }

    function LevelBytes(level: nat): nat {
      BytesPerRow(level) * MipHeight(level)
    }

    /** Bytes of one layer before mip level `level`. */
    function LevelStart(level: nat): nat {
      if level == 0 then 0 else LevelStart(level - 1) + LevelBytes(level - 1)
    }

    function LayerBytes(): nat {
      LevelStart(mipLevels)
    }

    function SubresourceOffset(layer: nat, level: nat): nat {
      LayerBytes() * layer + LevelStart(level)
    }

    function ByteSize(): nat {
      SubresourceOffset(arrayLayers, 0)
    }

    /** What a shape must satisfy; a mip chain may not outlast its extent. */
    predicate Valid() {
      && width != 0 && height != 0 && arrayLayers != 0 && mipLevels != 0
      && (dimension.Texture2D? ==> arrayLayers == 1)
      && mipLevels <= 1 + Log2(if width < height then height else width)
    }
  }

  /** A right shift: halving, `count` times over. */
  function Shift(n: nat, count: nat): nat {
    if count == 0 then n else Shift(n / 2, count - 1)
  }

  function Pow2(n: nat): (r: nat)
    ensures r >= 1
  {
    if n == 0 then 1 else 2 * Pow2(n - 1)
  }

  /** The rounded-down binary logarithm. */
  function Log2(n: nat): nat {
    if n < 2 then 0 else 1 + Log2(n / 2)
  }

  // ------------------------------------------------------------ mip chains

  lemma {:induction false} Log2Bounds(n: nat)
    requires n >= 1
    ensures Pow2(Log2(n)) <= n < Pow2(Log2(n) + 1)
  {
    if n >= 2 {
      Log2Bounds(n / 2);
    }
  }

  lemma {:induction false} Pow2Grows(a: nat, b: nat)
    requires a <= b
    ensures Pow2(a) <= Pow2(b)
  {
    if a < b {
      Pow2Grows(a, b - 1);
    }
  }

  lemma {:induction false} ShiftsToOne(n: nat, level: nat)
    requires n >= 1
    ensures Shift(n, level) <= 1 <==> Log2(n) <= level
  {
    if n >= 2 && level > 0 {
      ShiftsToOne(n / 2, level - 1);
    } else if n == 1 {
      ShiftOfOne(level);
    }
  }

  lemma {:induction false} ShiftOfOne(level: nat)
    ensures Shift(1, level) <= 1 && Shift(0, level) == 0
  {
    if level > 0 {
      ShiftOfOne(level - 1);
    }
  }

  lemma DivisionBounds(n: nat, p: nat)
    requires p >= 1
    ensures n / p * p <= n < (n / p + 1) * p
  {
    assert n == n / p * p + n % p;
  }

  lemma MultiplyMonotone(a: nat, b: nat, c: nat)
    requires a <= b
    ensures a * c <= b * c
  {}

  lemma {:induction false} Log2Monotone(a: nat, b: nat)
    requires a <= b
    ensures Log2(a) <= Log2(b)
  {
    if a >= 2 {
      Log2Monotone(a / 2, b / 2);
    }
  }

  lemma WidthsAreShallow(n: U32)
    requires n >= 1
    ensures Log2(n) <= 31
  {
    Log2Bounds(n);
    assert Pow2(8) == 256 && Pow2(16) == 65536 && Pow2(24) == 0x100_0000 && Pow2(32) == 0x1_0000_0000;
    if Log2(n) >= 32 {
      Pow2Grows(32, Log2(n));
    }
  }

  /** A right shift divides by a power of two. */
  lemma {:induction false} ShiftDivides(n: nat, level: nat)
    ensures Shift(n, level) == n / Pow2(level)
  {
    if level > 0 {
      ShiftDivides(n / 2, level - 1);
      DivideTwice(n, Pow2(level - 1));
    }
  }

  lemma DivideTwice(n: nat, p: nat)
    requires p >= 1
    ensures n / 2 / p == n / (2 * p)
  {
    var q, r := n / 2 / p, n / 2 % p;
    assert n / 2 == q * p + r;
    var x := 2 * r + n % 2;
    assert n == q * (2 * p) + x && 0 <= x < 2 * p;
    QuotientIs(n, 2 * p, q, x);
  }

  lemma QuotientIs(n: nat, d: nat, q: nat, r: nat)
    requires n == q * d + r && r < d
    ensures n / d == q
  {
    DivisionBounds(n, d);
    if n / d < q {
      MultiplyMonotone(n / d + 1, q, d);
    } else if n / d > q {
      MultiplyMonotone(q + 1, n / d, d);
    }
  }

  /** A level's extent is the shape's, divided by a power of two and rounded down, but at least one texel. */
  lemma MipExtents(v: CanonicalView, level: nat)
    ensures v.MipWidth(level) == if v.width / Pow2(level) == 0 then 1 else v.width / Pow2(level)
    ensures v.MipHeight(level) == if v.height / Pow2(level) == 0 then 1 else v.height / Pow2(level)
  {
    ShiftDivides(v.width, level);
    ShiftDivides(v.height, level);
  }

  lemma LogAtLeast(n: nat, k: nat)
    requires n >= 1
    ensures k <= Log2(n) <==> Pow2(k) <= n
  {
    Log2Bounds(n);
    if k <= Log2(n) {
      Pow2Grows(k, Log2(n));
    } else {
      Pow2Grows(Log2(n) + 1, k);
    }
  }

  /** Levels down to the first one of a single texel. */
  method DeepestChain(v: CanonicalView) returns (deepest: nat)
    requires v.width != 0 && v.height != 0
    ensures deepest == 1 + Log2(if v.width < v.height then v.height else v.width)
    ensures deepest <= 32
  {
    var larger := if v.width < v.height then v.height else v.width;
    ghost var depth := Log2(larger);
    WidthsAreShallow(larger);
    deepest := 1;
    LevelIsOne(v, 0);
    while v.MipWidth(deepest - 1) > 1 || v.MipHeight(deepest - 1) > 1
      invariant 1 <= deepest <= depth + 1
      invariant (v.MipWidth(deepest - 1) > 1 || v.MipHeight(deepest - 1) > 1) <==> deepest < depth + 1
      decreases depth + 1 - deepest
    {
      deepest := deepest + 1;
      LevelIsOne(v, deepest - 1);
    }
  }

  lemma LevelIsOne(v: CanonicalView, level: nat)
    requires v.width != 0 && v.height != 0
    ensures (v.MipWidth(level) == 1 && v.MipHeight(level) == 1) <==>
            Log2(if v.width < v.height then v.height else v.width) <= level
  {
    ShiftsToOne(v.width, level);
    ShiftsToOne(v.height, level);
    Log2Monotone(if v.width < v.height then v.width else v.height, if v.width < v.height then v.height else v.width);
  }

  method CheckValid(v: CanonicalView) returns (ok: bool)
    ensures ok <==> v.Valid()
    ensures ok <==>
              && v.width > 0 && v.height > 0 && v.arrayLayers > 0 && v.mipLevels > 0
              && (v.arrayLayers == 1 || v.dimension.Texture2DArray?)
              && (Pow2(v.mipLevels - 1) <= v.width || Pow2(v.mipLevels - 1) <= v.height)
  {
    if v.width == 0 || v.height == 0 || v.arrayLayers == 0 || v.mipLevels == 0 {
      return false;
    }
    if v.dimension.Texture2D? && v.arrayLayers != 1 {
      return false;
    }
    LogAtLeast(if v.width < v.height then v.height else v.width, v.mipLevels - 1);
    var deepest := DeepestChain(v);
    ok := v.mipLevels <= deepest;
  }

  // ------------------------------------------------------------ 64-bit arithmetic

  /** The low 64 bits of a number. */
  function Wrap64(n: nat): (r: U64)
    ensures n <= U64_MAX ==> r == n
  {
    if n <= U64_MAX then n else Wrap64(n - TWO64)
  }

  lemma {:induction false} WrapPeriod(n: nat, k: nat)
    ensures Wrap64(n + TWO64 * k) == Wrap64(n)
  {
    if k > 0 {
      WrapPeriod(n, k - 1);
    }
  }

  lemma {:induction false} WrapAdd(a: nat, b: nat)
    ensures Wrap64(Wrap64(a) + b) == Wrap64(a + b)
  {
    if a > U64_MAX {
      WrapAdd(a - TWO64, b);
    }
  }

  lemma {:induction false} WrapMultiply(a: nat, b: nat)
    ensures Wrap64(Wrap64(a) * b) == Wrap64(a * b)
  {
    if a > U64_MAX {
      WrapMultiply(a - TWO64, b);
      assert a * b == (a - TWO64) * b + TWO64 * b;
      WrapPeriod((a - TWO64) * b, b);
    }
  }

  lemma {:induction false} WrapIsRemainder(n: nat)
    ensures Wrap64(n) == n % TWO64
  {
    if n > U64_MAX {
      WrapIsRemainder(n - TWO64);
    }
  }

  lemma WrapSum(a: nat, b: nat)
    ensures Wrap64(Wrap64(a) + Wrap64(b)) == Wrap64(a + b)
  {
    WrapAdd(a, Wrap64(b));
    WrapAdd(b, a);
  }

  /** Adds the sizes of the first `level` levels to a running offset. */
  method AddLevels(v: CanonicalView, level: nat, start: U64, ghost base: nat) returns (offset: U64)
    requires start == Wrap64(base)
    ensures offset == Wrap64(base + v.LevelStart(level))
  {
    offset := start;
    for candidate := 0 to level
      invariant offset == Wrap64(base + v.LevelStart(candidate))
    {
      WrapSum(base + v.LevelStart(candidate), v.LevelBytes(candidate));
      offset := Wrap64(offset + Wrap64(v.LevelBytes(candidate)));
    }
  }

  method ScaleLayers(v: CanonicalView, layer: U32, layerBytes: U64) returns (scaled: U64)
    requires layerBytes == Wrap64(v.LayerBytes())
    ensures scaled == Wrap64(v.LayerBytes() * layer)
  {
    WrapMultiply(v.LayerBytes(), layer);
    scaled := Wrap64(layerBytes * layer);
  }

  /** Computed with wrap-around, so exact only modulo 2^64. */
  method SubresourceByteOffset(v: CanonicalView, layer: U32, level: U32) returns (offset: U64)
    ensures offset == Wrap64(v.SubresourceOffset(layer, level))
  {
    var layerBytes := AddLevels(v, v.mipLevels, 0, 0);
    var scaled := ScaleLayers(v, layer, layerBytes);
    offset := AddLevels(v, level, scaled, v.LayerBytes() * layer);
  }

  method ByteSize64(v: CanonicalView) returns (size: U64)
    ensures size == Wrap64(v.ByteSize())
  {
    size := SubresourceByteOffset(v, v.arrayLayers, 0);
  }

  // ------------------------------------------------------------ texels tile the bytes

  datatype Cell = Cell(layer: nat, level: nat, x: nat, y: nat) {
    predicate In(v: CanonicalView) {
      layer < v.arrayLayers && level < v.mipLevels && x < v.MipWidth(level) && y < v.MipHeight(level)
    }

    function Offset(v: CanonicalView): nat {
      v.SubresourceOffset(layer, level) + RowStart(v) + ColumnStart(v)
    }

    function RowStart(v: CanonicalView): nat {
      y * v.BytesPerRow(level)
    }

    function ColumnStart(v: CanonicalView): nat {
      x * v.format.BytesPerTexel()
    }

    predicate Holds(v: CanonicalView, k: nat) {
      Offset(v) <= k < Offset(v) + v.format.BytesPerTexel()
    }
  }

  /** Position `i` of `count` steps of size `step`, and a remainder inside the step. */
  lemma StepBound(i: nat, count: nat, step: nat, r: nat)
    requires i < count && r < step
    ensures i * step + r < count * step
  {
    MultiplyMonotone(i + 1, count, step);
    assert (i + 1) * step == i * step + step;
  }

  lemma StepUnique(i: nat, r: nat, j: nat, s: nat, step: nat)
    requires r < step && s < step && i * step + r == j * step + s
    ensures i == j && r == s
  {
    if i < j {
      StepBound(i, j, step, r);
    } else if j < i {
      StepBound(j, i, step, s);
    }
  }

  lemma StepExists(k: nat, count: nat, step: nat) returns (i: nat, r: nat)
    requires k < count * step
    ensures i < count && r < step && k == i * step + r
  {
    if step == 0 {
      assert false;
    }
    i, r := k / step, k % step;
    DivisionBounds(k, step);
    if i >= count {
      MultiplyMonotone(count, i, step);
    }
  }

  lemma {:induction false} LevelStartGrows(v: CanonicalView, a: nat, b: nat)
    requires a <= b
    ensures v.LevelStart(a) <= v.LevelStart(b)
  {
    if a < b {
      LevelStartGrows(v, a, b - 1);
    }
  }

  /** The byte of a layer at which a position inside a level lies. */
  lemma LevelBound(v: CanonicalView, level: nat, r: nat)
    requires level < v.mipLevels && r < v.LevelBytes(level)
    ensures v.LevelStart(level) + r < v.LayerBytes()
  {
    LevelStartGrows(v, level + 1, v.mipLevels);
  }

  lemma LevelUnique(v: CanonicalView, a: nat, r: nat, b: nat, s: nat)
    requires r < v.LevelBytes(a) && s < v.LevelBytes(b) && v.LevelStart(a) + r == v.LevelStart(b) + s
    ensures a == b && r == s
  {
    if a < b {
      LevelStartGrows(v, a + 1, b);
    } else if b < a {
      LevelStartGrows(v, b + 1, a);
    }
  }

  lemma {:induction false} LevelExists(v: CanonicalView, k: nat, levels: nat) returns (level: nat, r: nat)
    requires k < v.LevelStart(levels)
    ensures level < levels && r < v.LevelBytes(level) && k == v.LevelStart(level) + r
  {
    if k < v.LevelStart(levels - 1) {
      level, r := LevelExists(v, k, levels - 1);
    } else {
      level, r := levels - 1, k - v.LevelStart(levels - 1);
    }
  }

  /** Byte `b` of a texel within its row, its level and its layer. */
  function InRow(v: CanonicalView, c: Cell, b: nat): nat {
    c.x * v.format.BytesPerTexel() + b
  }

  function InLevel(v: CanonicalView, c: Cell, b: nat): nat {
    c.y * v.BytesPerRow(c.level) + InRow(v, c, b)
  }

  function InLayer(v: CanonicalView, c: Cell, b: nat): nat {
    v.LevelStart(c.level) + InLevel(v, c, b)
  }

  /** A byte of a texel, as digits: layer, level, row, column, byte. */
  lemma CellDigits(v: CanonicalView, c: Cell, b: nat)
    requires c.In(v) && b < v.format.BytesPerTexel()
    ensures InRow(v, c, b) < v.BytesPerRow(c.level)
    ensures InLevel(v, c, b) < v.LevelBytes(c.level)
    ensures InLayer(v, c, b) < v.LayerBytes()
  {
    StepBound(c.x, v.MipWidth(c.level), v.format.BytesPerTexel(), b);
    StepBound(c.y, v.MipHeight(c.level), v.BytesPerRow(c.level), InRow(v, c, b));
    LevelBound(v, c.level, InLevel(v, c, b));
  }

  lemma OffsetSplits(v: CanonicalView, c: Cell, b: nat)
    ensures c.Offset(v) + b == c.layer * v.LayerBytes() + InLayer(v, c, b)
  {
    Commutes(v.LayerBytes(), c.layer);
  }

  lemma Commutes(a: nat, b: nat)
    ensures a * b == b * a
  {}

  /** Every texel lies inside the view's bytes. */
  lemma CellInBounds(v: CanonicalView, c: Cell)
    requires c.In(v)
    ensures c.Offset(v) + v.format.BytesPerTexel() <= v.ByteSize()
  {
    var b := v.format.BytesPerTexel() - 1;
    CellDigits(v, c, b);
    OffsetSplits(v, c, b);
    StepBound(c.layer, v.arrayLayers, v.LayerBytes(), InLayer(v, c, b));
    Commutes(v.LayerBytes(), v.arrayLayers);
  }

  /** No byte belongs to two texels. */
  lemma CellsDisjoint(v: CanonicalView, c: Cell, d: Cell, k: nat)
    requires c.In(v) && d.In(v) && c.Holds(v, k) && d.Holds(v, k)
    ensures c == d
  {
    var b, e := k - c.Offset(v), k - d.Offset(v);
    CellDigits(v, c, b);
    CellDigits(v, d, e);
    OffsetSplits(v, c, b);
    OffsetSplits(v, d, e);
    StepUnique(c.layer, InLayer(v, c, b), d.layer, InLayer(v, d, e), v.LayerBytes());
    LevelUnique(v, c.level, InLevel(v, c, b), d.level, InLevel(v, d, e));
    StepUnique(c.y, InRow(v, c, b), d.y, InRow(v, d, e), v.BytesPerRow(c.level));
    StepUnique(c.x, b, d.x, e, v.format.BytesPerTexel());
  }

  /** Every byte of the view belongs to a texel; together with disjointness, the texels tile the bytes. */
  lemma EveryByteInCell(v: CanonicalView, k: nat) returns (c: Cell)
    requires k < v.ByteSize()
    ensures c.In(v) && c.Holds(v, k)
  {
    Commutes(v.LayerBytes(), v.arrayLayers);
    var layer, inLayer := StepExists(k, v.arrayLayers, v.LayerBytes());
    var level, inLevel := LevelExists(v, inLayer, v.mipLevels);
    var y, inRow := StepExists(inLevel, v.MipHeight(level), v.BytesPerRow(level));
    var x, b := StepExists(inRow, v.MipWidth(level), v.format.BytesPerTexel());
    c := Cell(layer, level, x, y);
    OffsetSplits(v, c, b);
  }

  /** The address the executor computes for a texel: exact modulo 2^64. */
  method TexelByteOffset(v: CanonicalView, c: Cell) returns (offset: U64)
    requires c.In(v)
    ensures offset == Wrap64(c.Offset(v))
  {
    var start := SubresourceByteOffset(v, c.layer, c.level);
    WrapSum(v.SubresourceOffset(c.layer, c.level), c.RowStart(v));
    WrapSum(v.SubresourceOffset(c.layer, c.level) + c.RowStart(v), c.ColumnStart(v));
    offset := Wrap64(Wrap64(start + Wrap64(c.RowStart(v))) + Wrap64(c.ColumnStart(v)));
  }

  /** Sizes are whole numbers of texels. */
  ghost predicate WholeTexels(v: CanonicalView, bytes: nat) {
    exists texels: nat :: bytes == Times(texels, v.format.BytesPerTexel())
  }

  function Times(a: nat, b: nat): nat {
    a * b
  }

  lemma LevelIsWhole(v: CanonicalView, level: nat)
    ensures WholeTexels(v, v.LevelBytes(level))
  {
    assert v.BytesPerRow(level) == Times(v.MipWidth(level), v.format.BytesPerTexel());
    WholeTimes(v, v.BytesPerRow(level), v.MipHeight(level));
  }

  lemma WholeTimes(v: CanonicalView, bytes: nat, count: nat)
    requires WholeTexels(v, bytes)
    ensures WholeTexels(v, bytes * count)
  {
    var bpt := v.format.BytesPerTexel();
    var x: nat :| bytes == Times(x, bpt);
    Exchange(x, bpt, count);
    assert bytes * count == Times(x * count, bpt);
  }

  lemma Exchange(x: nat, y: nat, z: nat)
    ensures (x * y) * z == (x * z) * y
  {}

  lemma WholeSum(v: CanonicalView, a: nat, b: nat)
    requires WholeTexels(v, a) && WholeTexels(v, b)
    ensures WholeTexels(v, a + b)
  {
    var x: nat :| a == Times(x, v.format.BytesPerTexel());
    var y: nat :| b == Times(y, v.format.BytesPerTexel());
    assert a + b == Times(x + y, v.format.BytesPerTexel());
  }

  lemma {:induction false} LevelStartIsWhole(v: CanonicalView, level: nat)
    ensures WholeTexels(v, v.LevelStart(level))
  {
    if level == 0 {
      assert 0 == Times(0, v.format.BytesPerTexel());
    } else {
      LevelStartIsWhole(v, level - 1);
      LevelIsWhole(v, level - 1);
      WholeSum(v, v.LevelStart(level - 1), v.LevelBytes(level - 1));
    }
  }

  lemma ByteSizeIsWhole(v: CanonicalView)
    ensures WholeTexels(v, v.ByteSize())
  {
    LevelStartIsWhole(v, v.mipLevels);
    WholeTimes(v, v.LayerBytes(), v.arrayLayers);
  }

  /** A whole number of texels that ends past 2^64 begins its last texel past the 64-bit addresses. */
  lemma LastTexelFits(v: CanonicalView)
    requires v.ByteSize() > 0
    ensures v.ByteSize() - v.format.BytesPerTexel() <= U64_MAX <==> v.ByteSize() <= TWO64
  {
    ByteSizeIsWhole(v);
    var bpt := v.format.BytesPerTexel();
    var x: nat :| v.ByteSize() == Times(x, bpt);
  }

  /** The byte at which the last texel begins. */
  lemma LastCell(v: CanonicalView) returns (c: Cell)
    requires v.ByteSize() > 0
    ensures c.In(v) && c.Offset(v) == v.ByteSize() - v.format.BytesPerTexel()
  {
    c := EveryByteInCell(v, v.ByteSize() - 1);
    CellInBounds(v, c);
  }

  lemma ValidHasBytes(v: CanonicalView)
    requires v.Valid()
    ensures v.ByteSize() > 0
  {
    LevelStartGrows(v, 1, v.mipLevels);
    PositiveProduct(v.BytesPerRow(0), v.MipHeight(0));
    PositiveProduct(v.MipWidth(0), v.format.BytesPerTexel());
    assert v.LevelStart(1) == v.LevelStart(0) + v.LevelBytes(0);
    PositiveProduct(v.LayerBytes(), v.arrayLayers);
  }

  lemma PositiveProduct(a: nat, b: nat)
    ensures a > 0 && b > 0 ==> a * b > 0
  {}

  /** The executor's address is the texel's, for every texel of a valid view, exactly when the view's size is at
      most 2^64. */
  lemma AddressesExactly(v: CanonicalView)
    requires v.Valid()
    ensures (forall c: Cell | c.In(v) :: Wrap64(c.Offset(v)) == c.Offset(v)) <==> v.ByteSize() <= TWO64
  {
    ValidHasBytes(v);
    LastTexelFits(v);
    var last := LastCell(v);
    forall c: Cell | c.In(v) ensures c.Offset(v) <= last.Offset(v) {
      CellInBounds(v, c);
    }
  }

  // ------------------------------------------------------------ the order of texels

  /** By layer, then level, then row, then column. */
  predicate CellBefore(a: Cell, b: Cell) {
    || a.layer < b.layer
    || (a.layer == b.layer && a.level < b.level)
    || (a.layer == b.layer && a.level == b.level && a.y < b.y)
    || (a.layer == b.layer && a.level == b.level && a.y == b.y && a.x < b.x)
  }

  /** Texels are laid out in that order, so that, tiling the bytes as they do, they can stand nowhere else. */
  lemma CellsAscend(v: CanonicalView, a: Cell, b: Cell)
    requires a.In(v) && b.In(v) && CellBefore(a, b)
    ensures a.Offset(v) + v.format.BytesPerTexel() <= b.Offset(v)
  {
    var last := v.format.BytesPerTexel() - 1;
    CellDigits(v, a, last);
    CellDigits(v, b, 0);
    OffsetSplits(v, a, last);
    OffsetSplits(v, b, 0);
    if a.layer < b.layer {
      StepsAscend(a.layer, InLayer(v, a, last), b.layer, InLayer(v, b, 0), v.LayerBytes());
    } else {
      InLayerAscends(v, a, b, last);
    }
  }

  lemma InLayerAscends(v: CanonicalView, a: Cell, b: Cell, last: nat)
    requires a.In(v) && b.In(v) && CellBefore(a, b) && a.layer == b.layer && last < v.format.BytesPerTexel()
    ensures InLayer(v, a, last) < InLayer(v, b, 0)
  {
    CellDigits(v, a, last);
    CellDigits(v, b, 0);
    if a.level < b.level {
      LevelStartGrows(v, a.level + 1, b.level);
    } else if a.y < b.y {
      StepsAscend(a.y, InRow(v, a, last), b.y, InRow(v, b, 0), v.BytesPerRow(a.level));
    } else {
      StepsAscend(a.x, last, b.x, 0, v.format.BytesPerTexel());
    }
  }

  lemma StepsAscend(i: nat, r: nat, j: nat, s: nat, step: nat)
    requires i < j && r < step
    ensures i * step + r < j * step + s
  {
    StepBound(i, j, step, r);
  }
}
