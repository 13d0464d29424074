/** The resource loader of process_map.py: a filename-keyed image cache, the
    slicing of a tile sheet into tile images, and the derivation of flipped
    and rotated tiles from the flip flags of Tiled global tile ids (gids).

    Images and textures are opaque values. Opening an image file is a
    function handed to the loader; the base tiles that the inherited
    tiledtmxloader loader indexes are handed to Load. */
module ProcessMap {

  datatype Option<T> = None | Some(value: T)

  // ---------------------------------------------------------------------
  // Gids and their flip flags
  // ---------------------------------------------------------------------

  /** A Tiled global tile id: an unsigned 32-bit word whose three top bits
      are the flip flags. */
  type Gid = bv32

  const FlipX: Gid := 0x8000_0000
  const FlipY: Gid := 0x4000_0000
  const FlipDiagonal: Gid := 0x2000_0000
  const FlipFlags: Gid := FlipX | FlipY | FlipDiagonal

  /** Bit i of x is set. */
  predicate Bit(x: Gid, i: nat)
    requires i < 32
  {
    (x >> i) & 1 == 1
  }

  /** At least one of the three flip flags is set. */
  predicate HasFlip(gid: Gid) {
    gid & FlipX != 0 || gid & FlipY != 0 || gid & FlipDiagonal != 0
  }

  /** The gid of the unflipped tile: the gid with the flip flags cleared. */
  function ImageGid(gid: Gid): (r: Gid)
    ensures r & FlipFlags == 0
    ensures r | (gid & FlipFlags) == gid
  {
    gid & !(FlipX | FlipY | FlipDiagonal)
  }

  /** The unflipped gid carries no flag, and differs from the gid exactly
      when the gid carries one. */
  lemma ImageGidUnflagged(gid: Gid)
    ensures !HasFlip(ImageGid(gid))
    ensures ImageGid(gid) == gid <==> !HasFlip(gid)
  {
    assert !HasFlip(ImageGid(gid));
  }

  /** Clearing the flags clears exactly bits 29, 30 and 31 and keeps every
      other bit. */
  lemma ImageGidBits(gid: Gid, i: nat)
    requires i < 32
    ensures Bit(ImageGid(gid), i) == (i < 29 && Bit(gid, i))
  {
    var r := ImageGid(gid);
    if i < 29 {
      assert (r >> i) & 1 == (gid >> i) & 1;
    } else {
      assert (r >> i) & 1 == 0;
    }
  }

  // ---------------------------------------------------------------------
  // Choice of a texture transform
  // ---------------------------------------------------------------------

  /** A texture transform: a rotation in degrees or a mirror image. */
  datatype Transform = Rotate(degrees: int) | Flip(flipX: bool, flipY: bool)

  /** The transform the loader picks for a flagged gid. The diagonal flag
      alone picks none: the source then leaves its texture variable as it
      was. */
  function ChooseTransform(gid: Gid): (t: Option<Transform>)
    ensures t.None? <==> gid & FlipDiagonal != 0 && gid & FlipX == 0 && gid & FlipY == 0
  {
    if gid & FlipDiagonal != 0 then
      if gid & FlipX != 0 then Some(Rotate(90))
      else if gid & FlipY != 0 then Some(Rotate(270))
      else None
    else Some(Flip(gid & FlipX != 0, gid & FlipY != 0))
  }

  /** The X and Y flags for a mirror image. */
  function MirrorFlags(fx: bool, fy: bool): Gid {
    if fx && fy then FlipX | FlipY else if fx then FlipX else if fy then FlipY else 0
  }

  /** The flags that, in Tiled's encoding, stand for a transform. Only
      rotations by 90 and 270 degrees have one; any other angle gets all
      three flags, which no chosen transform may carry. */
  function FlagsOf(t: Transform): Gid {
    match t
    case Rotate(degrees) =>
      if degrees == 90 then FlipDiagonal | FlipX
      else if degrees == 270 then FlipDiagonal | FlipY
      else FlipFlags
    case Flip(fx, fy) => MirrorFlags(fx, fy)
  }

  lemma MirrorFlagsOfGid(gid: Gid)
    ensures MirrorFlags(gid & FlipX != 0, gid & FlipY != 0) == gid & (FlipX | FlipY)
  {
  }

  /** The flags of the chosen transform are exactly the gid's flags,
      except that with the diagonal, X and Y flags all set the Y flag is
      dropped (rotate 90 stands for diagonal with X alone). */
  lemma ChooseTransformFlags(gid: Gid)
    requires ChooseTransform(gid).Some?
    ensures gid & FlipDiagonal != 0 && gid & FlipX != 0 && gid & FlipY != 0 ==>
      FlagsOf(ChooseTransform(gid).value) == FlipDiagonal | FlipX
    ensures !(gid & FlipDiagonal != 0 && gid & FlipX != 0 && gid & FlipY != 0) ==>
      FlagsOf(ChooseTransform(gid).value) == gid & FlipFlags
  {
    if gid & FlipDiagonal != 0 {
      if gid & FlipX != 0 {
        if gid & FlipY == 0 {
          assert gid & FlipFlags == FlipDiagonal | FlipX;
        }
      } else {
        assert gid & FlipFlags == FlipDiagonal | FlipY;
      }
    } else {
      MirrorFlagsOfGid(gid);
      assert gid & FlipFlags == gid & (FlipX | FlipY);
    }
  }

  /** Writing the chosen transform's flags back onto the unflipped gid
      restores the gid (outside the one lossy combination). */
  lemma ChooseTransformRoundTrip(gid: Gid)
    requires ChooseTransform(gid).Some?
    requires !(gid & FlipDiagonal != 0 && gid & FlipX != 0 && gid & FlipY != 0)
    ensures ImageGid(gid) | FlagsOf(ChooseTransform(gid).value) == gid
  {
    ChooseTransformFlags(gid);
  }

  // ---------------------------------------------------------------------
  // Images, tiles and layers
  // ---------------------------------------------------------------------

  /** A crop rectangle (left, upper, right, lower), as the imaging library
      takes it. */
  datatype Box = Box(left: int, upper: int, right: int, lower: int)

  /** An opaque image: one read from a file, or a crop of another image. */
  datatype Image = Picture(id: nat, width: nat, height: nat) | Cropped(source: Image, box: Box)

  function Width(img: Image): int {
    match img
    case Picture(_, w, _) => w
    case Cropped(_, b) => b.right - b.left
  }

  function Height(img: Image): int {
    match img
    case Picture(_, _, h) => h
    case Cropped(_, b) => b.lower - b.upper
  }

  /** What a tile index entry shows: a loaded image, or the texture of
      another entry under a transform. */
  datatype Art = Plain(image: Image) | Transformed(base: Art, transform: Transform)

  /** An entry of indexed_tiles: the drawing offsets and the art. */
  datatype TileEntry = TileEntry(offsetX: int, offsetY: int, art: Art)

  /** The part of a map layer that the loader reads. */
  datatype TileLayer = TileLayer(isObjectGroup: bool, decodedContent: seq<Gid>)

  /** The two ways the flip loop of Load stops: the unflipped tile is not
      indexed (a missing key), or the texture variable was never bound. */
  datatype LoadError = MissingBaseTile(gid: Gid) | UnboundTransform(gid: Gid)

  // ---------------------------------------------------------------------
  // The crop rectangle and the tile-sheet grid
  // ---------------------------------------------------------------------

  /** The rectangle of _load_image_part: the tile at (xpos, ypos) of the
      requested size. */
  function CropRectangle(xpos: int, ypos: int, width: nat, height: nat): (b: Box)
    ensures b.left == xpos && b.upper == ypos
    ensures b.right - b.left == width && b.lower - b.upper == height
  {
    Box(xpos, ypos, xpos + width, ypos + height)
  }

  lemma ModOfMultiple(q: int, s: int)
    requires s > 0
    ensures (q * s) % s == 0
  {
    var d, m := (q * s) / s, (q * s) % s;
    assert q * s == d * s + m;
    assert (q - d) * s == m;
    assert q - d >= 1 ==> (q - d) * s >= s;
    assert q - d <= -1 ==> (q - d) * s <= -s;
  }

  /** The size truncated to whole strides: at most the size, and within one
      stride of it. */
  function Truncate(size: int, stride: nat): (r: int)
    requires stride > 0
    ensures r <= size < r + stride
  {
    (size / stride) * stride
  }

  /** The truncated size is a whole number of strides, so it is the largest
      multiple of the stride that does not exceed the size. */
  lemma TruncateMultiple(size: int, stride: nat)
    requires stride > 0
    ensures Truncate(size, stride) % stride == 0
  {
    ModOfMultiple(size / stride, stride);
  }

  /** Python's range(start, stop, step) for a positive step. */
  function Range(start: int, stop: int, step: nat): (r: seq<int>)
    requires step > 0
    ensures forall i :: 0 <= i < |r| ==> start <= r[i] < stop
    ensures r == [] <==> start >= stop
    ensures r != [] ==> r[0] == start
    decreases stop - start
  {
    if start >= stop then [] else [start] + Range(start + step, stop, step)
  }

  /** The i-th value of the range is start plus i steps. */
  lemma {:induction false} RangeAt(start: int, stop: int, step: nat, i: nat)
    requires step > 0 && i < |Range(start, stop, step)|
    ensures Range(start, stop, step)[i] == start + i * step
    decreases stop - start
  {
    if i > 0 {
      RangeAt(start + step, stop, step, i - 1);
      assert (i - 1) * step + step == i * step;
    }
  }

  /** The range has as many values as there are steps from start that stay
      below stop. */
  lemma {:induction false} RangeLast(start: int, stop: int, step: nat)
    requires step > 0
    ensures start + |Range(start, stop, step)| * step >= stop
    decreases stop - start
  {
    if start < stop {
      RangeLast(start + step, stop, step);
      var n := |Range(start + step, stop, step)|;
      assert (n + 1) * step == n * step + step;
    }
  }

  /** Start plus j steps is in the range exactly when it lies below stop. */
  lemma RangeMember(start: int, stop: int, step: nat, j: nat)
    requires step > 0
    ensures start + j * step < stop <==> j < |Range(start, stop, step)|
  {
    var r := Range(start, stop, step);
    if j < |r| {
      RangeAt(start, stop, step, j);
    } else {
      RangeLast(start, stop, step);
      MulMonotone(|r|, j, step);
    }
  }

  lemma MulMonotone(a: nat, b: nat, c: nat)
    requires a <= b
    ensures a * c <= b * c
  {
  }

  /** The tiles of row y, in column order. */
  function RowOrigins(xs: seq<int>, y: int): (r: seq<(int, int)>)
    ensures |r| == |xs|
    ensures forall j :: 0 <= j < |xs| ==> r[j] == (xs[j], y)
  {
    if xs == [] then [] else RowOrigins(xs[..|xs| - 1], y) + [(xs[|xs| - 1], y)]
  }

  /** The crop origins of _load_image_parts' nested loops: rows ys outside,
      columns xs inside. */
  function GridOrigins(xs: seq<int>, ys: seq<int>): (r: seq<(int, int)>)
    ensures |r| == |ys| * |xs|
    ensures forall k :: 0 <= k < |r| ==> r[k].0 in xs && r[k].1 in ys
  {
    if ys == [] then [] else GridOrigins(xs, ys[..|ys| - 1]) + RowOrigins(xs, ys[|ys| - 1])
  }

  /** Row-major order: the origin of row `row` and column `col` is at
      position row * |xs| + col. */
  lemma {:induction false} GridOriginsAt(xs: seq<int>, ys: seq<int>, row: nat, col: nat)
    requires row < |ys| && col < |xs|
    ensures row * |xs| + col < |GridOrigins(xs, ys)|
    ensures GridOrigins(xs, ys)[row * |xs| + col] == (xs[col], ys[row])
  {
    var init := ys[..|ys| - 1];
    assert |GridOrigins(xs, init)| == (|ys| - 1) * |xs|;
    if row < |ys| - 1 {
      GridOriginsAt(xs, init, row, col);
      assert init[row] == ys[row];
    } else {
      assert row * |xs| + col == |GridOrigins(xs, init)| + col;
    }
  }

  /** The column starts of a sheet: margin plus whole strides, below the
      sheet width truncated to whole strides. */
  function SheetColumns(sheet: Image, margin: nat, spacing: nat, tileWidth: nat): seq<int>
    requires tileWidth + spacing > 0
  {
    Range(margin, Truncate(Width(sheet), tileWidth + spacing), tileWidth + spacing)
  }

  /** The row starts of a sheet, likewise. */
  function SheetRows(sheet: Image, margin: nat, spacing: nat, tileHeight: nat): seq<int>
    requires tileHeight + spacing > 0
  {
    Range(margin, Truncate(Height(sheet), tileHeight + spacing), tileHeight + spacing)
  }

  /** The crop origins of a whole sheet: each lies at or past the margin
      and inside the sheet truncated to whole strides. */
  function SheetOrigins(sheet: Image, margin: nat, spacing: nat, tileWidth: nat, tileHeight: nat): (r: seq<(int, int)>)
    requires tileWidth + spacing > 0 && tileHeight + spacing > 0
    ensures forall k :: 0 <= k < |r| ==>
      && margin <= r[k].0 < Truncate(Width(sheet), tileWidth + spacing)
      && margin <= r[k].1 < Truncate(Height(sheet), tileHeight + spacing)
  {
    GridOrigins(SheetColumns(sheet, margin, spacing, tileWidth), SheetRows(sheet, margin, spacing, tileHeight))
  }

  /** The grid of two ranges, in row-major order: the origin of row `row`
      and column `col` lies col steps right of and row steps below the
      start. */
  lemma GridOfRangesAt(x0: int, xStop: int, xStep: nat, y0: int, yStop: int, yStep: nat, row: nat, col: nat, k: nat)
    requires xStep > 0 && yStep > 0
    requires col < |Range(x0, xStop, xStep)| && row < |Range(y0, yStop, yStep)|
    requires k == row * |Range(x0, xStop, xStep)| + col
    ensures k < |GridOrigins(Range(x0, xStop, xStep), Range(y0, yStop, yStep))|
    ensures GridOrigins(Range(x0, xStop, xStep), Range(y0, yStop, yStep))[k] == (x0 + col * xStep, y0 + row * yStep)
  {
    RangeAt(x0, xStop, xStep, col);
    RangeAt(y0, yStop, yStep, row);
    GridOriginAtValues(Range(x0, xStop, xStep), Range(y0, yStop, yStep), row, col, k, x0 + col * xStep, y0 + row * yStep);
  }

  /** GridOriginsAt, with the position and the two coordinates named. */
  lemma GridOriginAtValues(xs: seq<int>, ys: seq<int>, row: nat, col: nat, k: nat, x: int, y: int)
    requires row < |ys| && col < |xs| && k == row * |xs| + col
    requires xs[col] == x && ys[row] == y
    ensures k < |GridOrigins(xs, ys)| && GridOrigins(xs, ys)[k] == (x, y)
  {
    GridOriginsAt(xs, ys, row, col);
  }

  /** images holds, in order, the crops of sheet at origins. */
  ghost predicate CropsOf(images: seq<Image>, sheet: Image, origins: seq<(int, int)>, tileWidth: nat, tileHeight: nat) {
    && |images| == |origins|
    && forall k :: 0 <= k < |images| ==>
         images[k] == Cropped(sheet, CropRectangle(origins[k].0, origins[k].1, tileWidth, tileHeight))
  }

  /** After the i-th value comes the i-th plus step, unless that reaches
      stop. */
  lemma RangeSucc(start: int, stop: int, step: nat, i: nat)
    requires step > 0 && i < |Range(start, stop, step)|
    ensures var r := Range(start, stop, step);
      if i + 1 < |r| then r[i + 1] == r[i] + step else r[i] + step >= stop
  {
    RangeAt(start, stop, step, i);
    var r := Range(start, stop, step);
    if i + 1 < |r| {
      RangeAt(start, stop, step, i + 1);
    } else {
      RangeLast(start, stop, step);
    }
  }

  lemma CropsOfAppend(images: seq<Image>, sheet: Image, origins: seq<(int, int)>, tileWidth: nat, tileHeight: nat,
                      part: Image, x: int, y: int)
    requires CropsOf(images, sheet, origins, tileWidth, tileHeight)
    requires part == Cropped(sheet, CropRectangle(x, y, tileWidth, tileHeight))
    ensures CropsOf(images + [part], sheet, origins + [(x, y)], tileWidth, tileHeight)
  {
  }

  lemma RowOriginsNext(xs: seq<int>, col: nat, y: int)
    requires col < |xs|
    ensures RowOrigins(xs[..col + 1], y) == RowOrigins(xs[..col], y) + [(xs[col], y)]
  {
    assert xs[..col + 1][..col] == xs[..col];
  }

  lemma GridOriginsNext(xs: seq<int>, ys: seq<int>, row: nat)
    requires row < |ys|
    ensures GridOrigins(xs, ys[..row + 1]) == GridOrigins(xs, ys[..row]) + RowOrigins(xs, ys[row])
  {
    assert ys[..row + 1][..row] == ys[..row];
  }

  // ---------------------------------------------------------------------
  // The flip loop of Load, as a function of the tile index
  // ---------------------------------------------------------------------

  /** A key of the tile index: the gid of the tile it stands for. */
  datatype TileId = TileId(gid: Gid)

  /** The state of the flip loop: the tile index, the loop's texture
      variable (tex2) and the error that stopped the loop, if any. */
  datatype Progress = Progress(tiles: map<TileId, TileEntry>, lastArt: Option<Art>, failure: Option<LoadError>)

  /** One gid of a layer's content. A stopped loop does nothing; otherwise
      existing entries are kept, and unless the step fails a flagged gid
      ends up indexed. */
  function IndexGid(p: Progress, gid: Gid): (r: Progress)
    ensures p.failure.Some? ==> r == p
    ensures forall k :: k in p.tiles ==> k in r.tiles && r.tiles[k] == p.tiles[k]
    ensures r.failure.None? && HasFlip(gid) ==> TileId(gid) in r.tiles
  {
    if p.failure.Some? || TileId(gid) in p.tiles || !HasFlip(gid) then p
    else if TileId(ImageGid(gid)) !in p.tiles then p.(failure := Some(MissingBaseTile(gid)))
    else
      var base := p.tiles[TileId(ImageGid(gid))];
      match ChooseTransform(gid)
      case Some(t) =>
        var art := Transformed(base.art, t);
        p.(tiles := p.tiles[TileId(gid) := TileEntry(base.offsetX, base.offsetY, art)], lastArt := Some(art))
      case None =>
        match p.lastArt
        case None => p.(failure := Some(UnboundTransform(gid)))
        case Some(art) => p.(tiles := p.tiles[TileId(gid) := TileEntry(base.offsetX, base.offsetY, art)])
  }

  /** A layer's content, gid by gid. A stopped loop stays as it is, and a
      loop that ends without an error had none before. */
  function IndexContent(p: Progress, content: seq<Gid>): (r: Progress)
    ensures p.failure.Some? ==> r == p
    ensures r.failure.None? ==> p.failure.None?
  {
    if content == [] then p
    else IndexGid(IndexContent(p, content[..|content| - 1]), content[|content| - 1])
  }

  /** A layer: object groups are skipped. */
  function IndexLayer(p: Progress, layer: TileLayer): (r: Progress)
    ensures p.failure.Some? ==> r == p
    ensures r.failure.None? ==> p.failure.None?
  {
    if layer.isObjectGroup then p else IndexContent(p, layer.decodedContent)
  }

  /** The whole flip loop over the map's layers. */
  function IndexLayers(p: Progress, layers: seq<TileLayer>): (r: Progress)
    ensures p.failure.Some? ==> r == p
    ensures r.failure.None? ==> p.failure.None?
  {
    if layers == [] then p
    else IndexLayer(IndexLayers(p, layers[..|layers| - 1]), layers[|layers| - 1])
  }

  /** tiles extends before the way the flip loop does: nothing is removed or
      changed, and each new key is a flagged gid whose unflipped tile was
      indexed before, with that tile's offsets and, when a transform is
      chosen, that tile's art under the transform. */
  ghost predicate Derived(before: map<TileId, TileEntry>, tiles: map<TileId, TileEntry>) {
    && (forall k :: k in before ==> k in tiles && tiles[k] == before[k])
    && (forall k :: k in tiles && k !in before ==>
          && HasFlip(k.gid)
          && TileId(ImageGid(k.gid)) in before
          && tiles[k].offsetX == before[TileId(ImageGid(k.gid))].offsetX
          && tiles[k].offsetY == before[TileId(ImageGid(k.gid))].offsetY
          && (ChooseTransform(k.gid).Some? ==>
                tiles[k].art == Transformed(before[TileId(ImageGid(k.gid))].art, ChooseTransform(k.gid).value)))
  }

  lemma DerivedTransitive(a: map<TileId, TileEntry>, b: map<TileId, TileEntry>, c: map<TileId, TileEntry>)
    requires Derived(a, b) && Derived(b, c)
    ensures Derived(a, c)
  {
    forall k | k in c && k !in a
      ensures HasFlip(k.gid) && TileId(ImageGid(k.gid)) in a
      ensures c[k].offsetX == a[TileId(ImageGid(k.gid))].offsetX && c[k].offsetY == a[TileId(ImageGid(k.gid))].offsetY
      ensures ChooseTransform(k.gid).Some? ==>
        c[k].art == Transformed(a[TileId(ImageGid(k.gid))].art, ChooseTransform(k.gid).value)
    {
      if k !in b {
        ImageGidUnflagged(k.gid);
        assert TileId(ImageGid(k.gid)) in a;
      }
    }
  }

  /** One step of the loop derives its new entry from the tile index. */
  lemma IndexGidDerived(p: Progress, gid: Gid)
    ensures Derived(p.tiles, IndexGid(p, gid).tiles)
  {
    ImageGidUnflagged(gid);
  }

  lemma {:induction false} IndexContentDerived(p: Progress, content: seq<Gid>)
    ensures Derived(p.tiles, IndexContent(p, content).tiles)
  {
    if content != [] {
      var q := IndexContent(p, content[..|content| - 1]);
      IndexContentDerived(p, content[..|content| - 1]);
      IndexGidDerived(q, content[|content| - 1]);
      DerivedTransitive(p.tiles, q.tiles, IndexGid(q, content[|content| - 1]).tiles);
    }
  }

  /** Load only adds derived entries: existing entries are untouched, and
      every new one is a flagged gid that reuses its unflipped tile's
      offsets. */
  lemma {:induction false} IndexLayersDerived(p: Progress, layers: seq<TileLayer>)
    ensures Derived(p.tiles, IndexLayers(p, layers).tiles)
  {
    if layers != [] {
      var q := IndexLayers(p, layers[..|layers| - 1]);
      IndexLayersDerived(p, layers[..|layers| - 1]);
      var last := layers[|layers| - 1];
      if !last.isObjectGroup {
        IndexContentDerived(q, last.decodedContent);
        DerivedTransitive(p.tiles, q.tiles, IndexLayer(q, last).tiles);
      }
    }
  }

  /** An indexed or unflagged gid is skipped: the step changes nothing. */
  lemma IndexGidSkips(p: Progress, gid: Gid)
    requires TileId(gid) in p.tiles || !HasFlip(gid)
    ensures IndexGid(p, gid) == p
  {
  }

  /** When one gid step fails: only for a new flagged gid whose unflipped
      tile is missing (a missing key), or which picks no transform while the
      texture variable is still unbound. */
  lemma IndexGidFails(p: Progress, gid: Gid)
    requires p.failure.None?
    ensures IndexGid(p, gid).failure.Some? <==>
      && TileId(gid) !in p.tiles && HasFlip(gid)
      && (TileId(ImageGid(gid)) !in p.tiles || (ChooseTransform(gid).None? && p.lastArt.None?))
    ensures IndexGid(p, gid).failure.Some? ==>
      IndexGid(p, gid) == p.(failure := Some(
        if TileId(ImageGid(gid)) !in p.tiles then MissingBaseTile(gid) else UnboundTransform(gid)))
  {
  }

  /** A new flagged gid with an indexed unflipped tile that picks a
      transform is indexed with the tile's offsets and its art under the
      transform, and that art becomes the texture variable. */
  lemma IndexGidSetsTexture(p: Progress, gid: Gid)
    requires p.failure.None? && TileId(gid) !in p.tiles && HasFlip(gid)
    requires TileId(ImageGid(gid)) in p.tiles && ChooseTransform(gid).Some?
    ensures
      var base := p.tiles[TileId(ImageGid(gid))];
      var art := Transformed(base.art, ChooseTransform(gid).value);
      && IndexGid(p, gid).failure.None?
      && IndexGid(p, gid).tiles == p.tiles[TileId(gid) := TileEntry(base.offsetX, base.offsetY, art)]
      && IndexGid(p, gid).lastArt == Some(art)
  {
  }

  /** Every flagged gid of the content has its unflipped tile indexed and
      picks a transform. */
  predicate Indexable(tiles: map<TileId, TileEntry>, content: seq<Gid>) {
    forall k :: 0 <= k < |content| && HasFlip(content[k]) ==>
      TileId(ImageGid(content[k])) in tiles && ChooseTransform(content[k]).Some?
  }

  /** A layer whose flagged gids all have an indexed unflipped tile and
      pick a transform is processed without error. */
  lemma {:induction false} IndexContentSucceeds(p: Progress, content: seq<Gid>)
    requires p.failure.None? && Indexable(p.tiles, content)
    ensures IndexContent(p, content).failure.None?
  {
    if content != [] {
      var init := content[..|content| - 1];
      var gid := content[|content| - 1];
      assert Indexable(p.tiles, init) by {
        forall k | 0 <= k < |init| && HasFlip(init[k])
          ensures TileId(ImageGid(init[k])) in p.tiles && ChooseTransform(init[k]).Some?
        {
          assert init[k] == content[k];
        }
      }
      IndexContentSucceeds(p, init);
      var q := IndexContent(p, init);
      IndexContentDerived(p, init);
      if HasFlip(gid) {
        assert TileId(ImageGid(gid)) in q.tiles;
      }
      IndexGidFails(q, gid);
    }
  }

  /** A Load whose tile layers all satisfy Indexable against the base tiles
      ends without error. */
  lemma {:induction false} IndexLayersSucceeds(p: Progress, layers: seq<TileLayer>)
    requires p.failure.None?
    requires forall i :: 0 <= i < |layers| && !layers[i].isObjectGroup ==> Indexable(p.tiles, layers[i].decodedContent)
    ensures IndexLayers(p, layers).failure.None?
  {
    if layers != [] {
      var init := layers[..|layers| - 1];
      var last := layers[|layers| - 1];
      forall i | 0 <= i < |init| && !init[i].isObjectGroup ensures Indexable(p.tiles, init[i].decodedContent) {
        assert init[i] == layers[i];
      }
      IndexLayersSucceeds(p, init);
      var q := IndexLayers(p, init);
      if !last.isObjectGroup {
        IndexLayersDerived(p, init);
        IndexableGrows(p.tiles, q.tiles, last.decodedContent);
        IndexContentSucceeds(q, last.decodedContent);
      }
    }
  }

  lemma IndexableGrows(a: map<TileId, TileEntry>, b: map<TileId, TileEntry>, content: seq<Gid>)
    requires Indexable(a, content) && Derived(a, b)
    ensures Indexable(b, content)
  {
  }

  /** One gid step adds no key but its own gid. */
  lemma IndexGidOnlyItsGid(p: Progress, gid: Gid)
    ensures forall k :: k in IndexGid(p, gid).tiles && k !in p.tiles ==> k == TileId(gid)
  {
  }

  /** Every key a layer's content adds is a gid of that content. */
  lemma {:induction false} IndexContentOnlyContent(p: Progress, content: seq<Gid>)
    ensures forall k :: k in IndexContent(p, content).tiles && k !in p.tiles ==> k.gid in content
  {
    if content != [] {
      var init := content[..|content| - 1];
      var q := IndexContent(p, init);
      IndexContentOnlyContent(p, init);
      IndexGidOnlyItsGid(q, content[|content| - 1]);
      IndexContentDerived(p, init);
      forall k | k in IndexContent(p, content).tiles && k !in p.tiles ensures k.gid in content {
        if k in q.tiles {
          assert k.gid in init;
        } else {
          assert k.gid == content[|content| - 1];
        }
      }
    }
  }

  /** Every key Load adds is a gid in the content of one of the tile layers:
      with IndexLayersCovers, after a run without error the new keys are
      exactly the flagged gids of the tile layers that were not indexed
      before. */
  lemma {:induction false} IndexLayersOnlyContent(p: Progress, layers: seq<TileLayer>)
    ensures forall k :: k in IndexLayers(p, layers).tiles && k !in p.tiles ==>
      exists i :: 0 <= i < |layers| && !layers[i].isObjectGroup && k.gid in layers[i].decodedContent
  {
    if layers != [] {
      var init := layers[..|layers| - 1];
      var q := IndexLayers(p, init);
      var last := layers[|layers| - 1];
      IndexLayersOnlyContent(p, init);
      IndexLayersDerived(p, init);
      if !last.isObjectGroup {
        IndexContentOnlyContent(q, last.decodedContent);
      }
      forall k | k in IndexLayers(p, layers).tiles && k !in p.tiles
        ensures exists i :: 0 <= i < |layers| && !layers[i].isObjectGroup && k.gid in layers[i].decodedContent
      {
        if k in q.tiles {
          var i :| 0 <= i < |init| && !init[i].isObjectGroup && k.gid in init[i].decodedContent;
          assert layers[i] == init[i];
        } else {
          assert !last.isObjectGroup && k.gid in last.decodedContent;
        }
      }
    }
  }

  /** A gid with the diagonal flag alone picks no transform: the entry then
      takes the texture the loop variable still holds from an earlier gid,
      and when there is none the step fails on the unbound variable. */
  lemma IndexGidReusesTexture(p: Progress, gid: Gid)
    requires p.failure.None? && TileId(gid) !in p.tiles && TileId(ImageGid(gid)) in p.tiles
    requires ChooseTransform(gid).None?
    ensures p.lastArt.Some? ==>
      var base := p.tiles[TileId(ImageGid(gid))];
      && IndexGid(p, gid).failure.None?
      && IndexGid(p, gid).lastArt == p.lastArt
      && IndexGid(p, gid).tiles == p.tiles[TileId(gid) := TileEntry(base.offsetX, base.offsetY, p.lastArt.value)]
    ensures p.lastArt.None? ==> IndexGid(p, gid) == p.(failure := Some(UnboundTransform(gid)))
  {
  }

  /** A stopped loop stays stopped. */
  lemma {:induction false} IndexContentStopped(p: Progress, content: seq<Gid>, k: nat)
    requires k <= |content|
    requires IndexContent(p, content[..k]).failure.Some?
    ensures IndexContent(p, content) == IndexContent(p, content[..k])
  {
    if k < |content| {
      var init := content[..|content| - 1];
      assert init[..k] == content[..k];
      IndexContentStopped(p, init, k);
    } else {
      assert content[..k] == content;
    }
  }

  lemma {:induction false} IndexLayersStopped(p: Progress, layers: seq<TileLayer>, i: nat)
    requires i <= |layers|
    requires IndexLayers(p, layers[..i]).failure.Some?
    ensures IndexLayers(p, layers) == IndexLayers(p, layers[..i])
  {
    if i < |layers| {
      var init := layers[..|layers| - 1];
      assert init[..i] == layers[..i];
      IndexLayersStopped(p, init, i);
    } else {
      assert layers[..i] == layers;
    }
  }

  /** A loop that ran to the end left every flagged gid of the content
      indexed. */
  lemma {:induction false} IndexContentCovers(p: Progress, content: seq<Gid>)
    requires IndexContent(p, content).failure.None?
    ensures forall k :: 0 <= k < |content| && HasFlip(content[k]) ==> TileId(content[k]) in IndexContent(p, content).tiles
  {
    if content != [] {
      var init := content[..|content| - 1];
      var q := IndexContent(p, init);
      IndexContentCovers(p, init);
      var r := IndexGid(q, content[|content| - 1]);
      IndexGidDerived(q, content[|content| - 1]);
      forall k | 0 <= k < |content| && HasFlip(content[k]) ensures TileId(content[k]) in r.tiles {
        if k < |content| - 1 { assert content[k] == init[k]; }
      }
    }
  }

  /** After a completed Load every flagged gid of every tile layer has an
      entry. */
  lemma {:induction false} IndexLayersCovers(p: Progress, layers: seq<TileLayer>)
    requires IndexLayers(p, layers).failure.None?
    ensures forall i, k ::
      (0 <= i < |layers| && !layers[i].isObjectGroup && 0 <= k < |layers[i].decodedContent|
       && HasFlip(layers[i].decodedContent[k])) ==> TileId(layers[i].decodedContent[k]) in IndexLayers(p, layers).tiles
  {
    if layers != [] {
      var init := layers[..|layers| - 1];
      var q := IndexLayers(p, init);
      var last := layers[|layers| - 1];
      var r := IndexLayer(q, last);
      if !last.isObjectGroup {
        IndexContentCovers(q, last.decodedContent);
        IndexContentDerived(q, last.decodedContent);
      }
      IndexLayersCovers(p, init);
      forall i, k | 0 <= i < |layers| && !layers[i].isObjectGroup && 0 <= k < |layers[i].decodedContent|
        && HasFlip(layers[i].decodedContent[k])
        ensures TileId(layers[i].decodedContent[k]) in r.tiles
      {
        if i < |layers| - 1 { assert layers[i] == init[i]; }
      }
    }
  }

  lemma IndexContentNext(p: Progress, content: seq<Gid>, k: nat)
    requires k < |content|
    ensures IndexContent(p, content[..k + 1]) == IndexGid(IndexContent(p, content[..k]), content[k])
  {
    assert content[..k + 1][..k] == content[..k];
  }

  lemma IndexLayersNext(p: Progress, layers: seq<TileLayer>, i: nat)
    requires i < |layers|
    ensures IndexLayers(p, layers[..i + 1]) == IndexLayer(IndexLayers(p, layers[..i]), layers[i])
  {
    assert layers[..i + 1][..i] == layers[..i];
  }

  // ---------------------------------------------------------------------
  // The loader object
  // ---------------------------------------------------------------------

  class MapResourceLoader {
    /** Image.open: the file system as seen by the loader. */
    const open: string -> Image
    /** _img_cache: images already read, by file name. */
    var imgCache: map<string, Image>
    /** indexed_tiles: tile entries by gid. */
    var indexedTiles: map<TileId, TileEntry>

    constructor (open: string -> Image)
      ensures this.open == open
      ensures imgCache == map[] && indexedTiles == map[]
    {
      this.open := open;
      imgCache := map[];
      indexedTiles := map[];
    }

    /** _load_image: the cached image of filename, read and cached on the
        first request. */
    method LoadImage(filename: string) returns (img: Image)
      modifies this`imgCache
      ensures filename in imgCache && img == imgCache[filename]
      ensures filename in old(imgCache) ==> imgCache == old(imgCache)
      ensures filename !in old(imgCache) ==> img == open(filename) && imgCache == old(imgCache)[filename := img]
      ensures forall f :: f in old(imgCache) ==> f in imgCache && imgCache[f] == old(imgCache)[f]
    {
      if filename in imgCache {
        img := imgCache[filename];
      } else {
        img := open(filename);
        imgCache := imgCache[filename := img];
      }
    }

    /** _load_image_part: the tile of the given size at (xpos, ypos) of the
        cached sheet. */
    method LoadImagePart(filename: string, xpos: int, ypos: int, width: nat, height: nat) returns (part: Image)
      modifies this`imgCache
      ensures filename in imgCache
      ensures filename in old(imgCache) ==> imgCache == old(imgCache)
      ensures filename !in old(imgCache) ==> imgCache == old(imgCache)[filename := open(filename)]
      ensures part == Cropped(imgCache[filename], CropRectangle(xpos, ypos, width, height))
      ensures Width(part) == width && Height(part) == height
    {
      var sourceImg := LoadImage(filename);
      var cropRectangle := CropRectangle(xpos, ypos, width, height);
      var sheet := LoadImage(filename);
      part := Cropped(sheet, cropRectangle);
    }

    /** _load_image_parts: the tiles of a sheet, row by row. */
    method LoadImageParts(filename: string, margin: nat, spacing: nat, tileWidth: nat, tileHeight: nat)
      returns (images: seq<Image>)
      requires tileWidth + spacing > 0 && tileHeight + spacing > 0
      modifies this`imgCache
      ensures filename in imgCache
      ensures filename in old(imgCache) ==> imgCache == old(imgCache)
      ensures filename !in old(imgCache) ==> imgCache == old(imgCache)[filename := open(filename)]
      ensures CropsOf(images, imgCache[filename],
                      SheetOrigins(imgCache[filename], margin, spacing, tileWidth, tileHeight), tileWidth, tileHeight)
    {
      var sourceImg := LoadImage(filename);
      ghost var cache := imgCache;
      var tileWidthSpacing := tileWidth + spacing;
      var width := Truncate(Width(sourceImg), tileWidthSpacing);
      var tileHeightSpacing := tileHeight + spacing;
      var height := Truncate(Height(sourceImg), tileHeightSpacing);
      ghost var xs := Range(margin, width, tileWidthSpacing);
      ghost var ys := Range(margin, height, tileHeightSpacing);
      images := [];
      var yPos := margin;
      ghost var row := 0;
      while yPos < height
        invariant 0 <= row <= |ys|
        invariant row < |ys| ==> ys[row] == yPos
        invariant row == |ys| ==> yPos >= height
        invariant imgCache == cache
        invariant CropsOf(images, sourceImg, GridOrigins(xs, ys[..row]), tileWidth, tileHeight)
        decreases height - yPos
      {
        images := LoadImageRow(filename, images, GridOrigins(xs, ys[..row]), margin, width, tileWidthSpacing,
                               yPos, tileWidth, tileHeight);
        GridOriginsNext(xs, ys, row);
        RangeSucc(margin, height, tileHeightSpacing, row);
        yPos := yPos + tileHeightSpacing;
        row := row + 1;
      }
      assert ys[..row] == ys;
    }

    /** One pass of _load_image_parts' inner loop: appends the tiles of the
        row at yPos, from left to right, to images, which holds the crops
        at the origins done. */
    method LoadImageRow(filename: string, images: seq<Image>, ghost done: seq<(int, int)>, margin: nat, width: int,
                        tileWidthSpacing: nat, yPos: int, tileWidth: nat, tileHeight: nat)
      returns (extended: seq<Image>)
      requires filename in imgCache && tileWidthSpacing > 0
      requires CropsOf(images, imgCache[filename], done, tileWidth, tileHeight)
      modifies this`imgCache
      ensures imgCache == old(imgCache)
      ensures CropsOf(extended, imgCache[filename], done + RowOrigins(Range(margin, width, tileWidthSpacing), yPos),
                      tileWidth, tileHeight)
    {
      ghost var xs := Range(margin, width, tileWidthSpacing);
      ghost var sourceImg := imgCache[filename];
      ghost var cache := imgCache;
      extended := images;
      var xPos := margin;
      ghost var col := 0;
      ghost var origins := done;
      while xPos < width
        invariant 0 <= col <= |xs|
        invariant col < |xs| ==> xs[col] == xPos
        invariant col == |xs| ==> xPos >= width
        invariant imgCache == cache
        invariant origins == done + RowOrigins(xs[..col], yPos)
        invariant CropsOf(extended, sourceImg, origins, tileWidth, tileHeight)
        decreases width - xPos
      {
        RangeSucc(margin, width, tileWidthSpacing, col);
        var imgPart := LoadImagePart(filename, xPos, yPos, tileWidth, tileHeight);
        RowOriginsNext(xs, col, yPos);
        CropsOfAppend(extended, sourceImg, origins, tileWidth, tileHeight, imgPart, xPos, yPos);
        extended := extended + [imgPart];
        origins := origins + [(xPos, yPos)];
        xPos := xPos + tileWidthSpacing;
        col := col + 1;
      }
      assert xs[..col] == xs;
    }

    /** The body of load's flip loop for one gid: tex2 is the loop's
        texture variable, which keeps its value from one gid to the next. */
    method IndexFlipped(gid: Gid, tex2: Option<Art>) returns (next: Option<Art>, error: Option<LoadError>)
      modifies this`indexedTiles
      ensures IndexGid(Progress(old(indexedTiles), tex2, None), gid) == Progress(indexedTiles, next, error)
    {
      next, error := tex2, None;
      if TileId(gid) !in indexedTiles {
        if HasFlip(gid) {
          var imageGid := ImageGid(gid);
          if TileId(imageGid) !in indexedTiles {
            error := Some(MissingBaseTile(gid));
            return;
          }
          var base := indexedTiles[TileId(imageGid)];
          if gid & FlipDiagonal != 0 {
            if gid & FlipX != 0 {
              next := Some(Transformed(base.art, Rotate(90)));
            } else if gid & FlipY != 0 {
              next := Some(Transformed(base.art, Rotate(270)));
            }
          } else {
            next := Some(Transformed(base.art, Flip(gid & FlipX != 0, gid & FlipY != 0)));
          }
          if next.None? {
            error := Some(UnboundTransform(gid));
            return;
          }
          indexedTiles := indexedTiles[TileId(gid) := TileEntry(base.offsetX, base.offsetY, next.value)];
        }
      }
    }

    /** load, after the inherited loader has indexed the base tiles: for
        each gid of each tile layer that is not yet indexed and carries a
        flip flag, index the unflipped tile's art under the chosen
        transform. Stops at the first error, keeping what it indexed. */
    method Load(baseTiles: map<TileId, TileEntry>, layers: seq<TileLayer>) returns (error: Option<LoadError>)
      modifies this`indexedTiles
      ensures var done := IndexLayers(Progress(baseTiles, None, None), layers);
        indexedTiles == done.tiles && error == done.failure
    {
      ghost var start := Progress(baseTiles, None, None);
      indexedTiles := baseTiles;
      var tex2: Option<Art> := None;
      var i := 0;
      while i < |layers|
        invariant 0 <= i <= |layers|
        invariant IndexLayers(start, layers[..i]) == Progress(indexedTiles, tex2, None)
      {
        var layer := layers[i];
        IndexLayersNext(start, layers, i);
        ghost var before := IndexLayers(start, layers[..i]);
        if !layer.isObjectGroup {
          var content := layer.decodedContent;
          var k := 0;
          while k < |content|
            invariant 0 <= k <= |content|
            invariant IndexContent(before, content[..k]) == Progress(indexedTiles, tex2, None)
          {
            IndexContentNext(before, content, k);
            tex2, error := IndexFlipped(content[k], tex2);
            if error.Some? {
              IndexContentStopped(before, content, k + 1);
              IndexLayersStopped(start, layers, i + 1);
              return;
            }
            k := k + 1;
          }
          assert content[..k] == content;
        }
        i := i + 1;
      }
      assert layers[..i] == layers;
      error := None;
    }
  }
}
