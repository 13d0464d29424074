# SomeWorld tile-map core, modelled in Dafny

SomeWorld is a small pyglet game that draws maps made with the Tiled editor.
This project models the parts of its Python code that compute something:

- **`common.py`**:
  - `special_round` rounds a number away from zero: it floors negatives and ceils everything else.
  - The `escape` string class writes every control character as `\xNN`.
- **`process_map.py`**: the `MapResourceLoader`, which does three things:
  - It keeps a cache of opened images, keyed by file name.
  - It cuts a tile sheet into tiles. The sheet size is first truncated to whole strides; the cut is row by row and then column by column, starting at the margin.
  - After the inherited loader has indexed the base tiles, it indexes every flipped gid in the map's tile layers. A gid is a Tiled global tile id, whose top three bits are the X, Y and diagonal flip flags. The gid's entry takes the offsets of the unflipped tile and a rotation or mirror image of its texture.
- **`world.py`**:
  - Its copy of `escape`.
  - The loop of `demo_pyglet` that places one sprite per non-empty cell of every visible tile layer. Each position is `(tilewidth * x, tileheight * (height - y))`, and the drawing group is the layer's index.

The model has three modules, one per source file: `Common` (`common.dfy`), `ProcessMap` (`process_map.dfy`) and `World` (`world.dfy`). Code that builds values is modelled as functions. Code that updates an object or loops over lists is modelled as methods with loop invariants, proved equal to fold functions. All later lemmas talk about those fold functions.

- **The loader** is a class. Its fields are the image cache (`imgCache`), the tile index (`indexedTiles`) and, as a constant, the function that opens image files (`open`).
- **Tile-index keys** are `TileId(gid)`: the gid of the tile an entry stands for.
- **`Load`'s loop** is specified by the fold `IndexLayers` over the layers. Its state is a `Progress`: the tile index, the loop's texture variable `tex2` (kept from one gid to the next, as in the source) and the error that stopped the loop.
- **Errors** are values, not exceptions:
  - The lookup of the unflipped tile (process_map.py:39) raises a `KeyError` when that tile is missing. Here this is `MissingBaseTile`.
  - A gid with only the diagonal flag picks no transform (process_map.py:45-49). The code then reuses the texture last assigned to `tex2`, by the latest gid that picked a transform, possibly in an earlier layer. Flagged gids that are already indexed are skipped and leave `tex2` alone. If no gid has assigned it yet, the name `tex2` is unbound. The model does the same. When `lastArt` holds a texture, the gid is indexed with it and the loop goes on. When it holds none, the step fails with `UnboundTransform` and the loop stops with the index as it stood, like the `UnboundLocalError` at line 52.
- **Sprite placement** is a method over abstract layer records, proved equal to `MapSprites`. `PlaceLayer` is one iteration of the source's layer loop (its row and column loops) and appends to the same list. Likewise `LoadImageRow` is one pass of `_load_image_parts`' inner loop.

## Model

| member | source | states |
|---|---|---|
| Common.Ceil | common.py:45 | the result is the least integer not below the value |
| Common.SpecialRound | common.py:38-45 | negatives: `r <= v < r + 1` (floor); others: `r - 1 < v <= r` (ceil); the result has the sign class of the value, and is zero exactly for zero |
| Common.SpecialRoundUnique | common.py:38-45 | each branch's two bounds determine the result: any integer meeting them is `special_round`'s value |
| Common.SpecialRoundOfInteger | common.py:38-45 | an integral value is returned unchanged |
| Common.SpecialRoundIdempotent | common.py:38-45 | rounding a rounded value changes nothing |
| Common.ControlCount | common.py:13 | the number of control characters in a string is at most its length |
| Common.HexDigit | common.py:13 | a digit below 16 is printed as a lower-case hex character whose value is that digit |
| Common.EscapeChar | common.py:13 | a control character becomes `\`, `x` and two lower-case hex digits whose value is its code, the first being 0 or 1; any other character is kept; the output has no control character |
| Common.Escape | common.py:11-14 | the output is three characters longer per control character, and holds no control character |
| Common.EscapeConcat | common.py:13 | escaping distributes over concatenation (the join is character by character) |
| Common.EscapeAppend | common.py:13 | appending a character appends exactly its encoding |
| Common.ControlCountZero | common.py:13 | no control character is counted exactly when the string has none |
| Common.EscapeFixedPoints | common.py:11-14 | escaping leaves a string unchanged if and only if it has no control character |
| Common.EscapeIdempotent | common.py:11-14 | escaping an escaped string changes nothing |
| Common.EscapeNotInjective | common.py:11-14 | the text `\x01` and the character with code 1 are different strings with the same escape |
| ProcessMap.ImageGid | process_map.py:38 | the result has no flag bit; putting the gid's own flag bits back onto it gives the gid |
| ProcessMap.ImageGidUnflagged | process_map.py:37-38 | the unflagged gid passes none of the line-37 flag tests, and equals the gid exactly when the gid has no flag |
| ProcessMap.ImageGidBits | process_map.py:38 | exactly bits 29, 30 and 31 are cleared; every lower bit is kept |
| ProcessMap.ChooseTransform | process_map.py:45-51 | no transform is picked exactly when the diagonal flag is set and neither X nor Y is |
| ProcessMap.ChooseTransformFlags | process_map.py:45-51 | the Tiled flags of the picked transform are the gid's own flags, except that with diagonal, X and Y all set, Y is ignored (rotate 90) |
| ProcessMap.ChooseTransformRoundTrip | process_map.py:38-51 | outside that one combination, the unflagged gid OR-ed with the picked transform's flags is the gid again |
| ProcessMap.CropRectangle | process_map.py:72 | the box starts at (xpos, ypos), and a crop by it is exactly width wide and height high |
| ProcessMap.Truncate | process_map.py:78-81 | the truncated size is at most the size and within one stride of it |
| ProcessMap.TruncateMultiple | process_map.py:78-81 | the truncated size is a whole number of strides |
| ProcessMap.Range | process_map.py:83-84 | every value lies in [start, stop); the range is empty exactly when start >= stop, and otherwise starts at start |
| ProcessMap.RangeAt | process_map.py:83-84 | the i-th value is start plus i steps |
| ProcessMap.RangeLast | process_map.py:83-84 | one more step past the last value reaches stop |
| ProcessMap.RangeMember | process_map.py:83-84 | start plus j steps is below stop exactly when j indexes the range |
| ProcessMap.RowOrigins | process_map.py:84-86 | one origin per column, in column order, all in the row's y |
| ProcessMap.GridOrigins | process_map.py:83-86 | rows times columns origins |
| ProcessMap.GridOriginsAt | process_map.py:83-86 | row-major order: the origin at position row * columns + col is (column col, row row) |
| ProcessMap.SheetOrigins | process_map.py:76-86 | the crop origins of a sheet, row by row over the truncated height and column by column over the truncated width; each lies at or past the margin and inside the truncated sheet |
| ProcessMap.GridOfRangesAt | process_map.py:83-86 | for the nested loops over range(margin, height, stride_y) and range(margin, width, stride_x), the origin at row-major position row * columns + col is (margin + col * stride_x, margin + row * stride_y) |
| ProcessMap.IndexGid | process_map.py:36-54 | one gid of the flip loop (its cases are stated by the lemmas below): a stopped loop is unchanged, old entries are kept, and a flagged gid is indexed unless the step fails |
| ProcessMap.IndexGidSkips | process_map.py:36-37 | an already indexed gid, or one with no flip flag, changes nothing |
| ProcessMap.IndexGidFails | process_map.py:36-54 | a step fails exactly for a new flagged gid whose unflipped tile is missing (then with `MissingBaseTile`, the `KeyError` of line 39) or which picks no transform while `tex2` is unbound (then with `UnboundTransform`, line 52); a failing step changes nothing else |
| ProcessMap.IndexGidSetsTexture | process_map.py:39-54 | a new flagged gid with an indexed unflipped tile that picks a transform gets the tile's offsets and its art under the transform, which becomes `tex2` |
| ProcessMap.IndexContentSucceeds | process_map.py:35-54 | a layer whose flagged gids all have an indexed unflipped tile and pick a transform is processed without error |
| ProcessMap.IndexLayersSucceeds | process_map.py:31-54 | a `load` whose tile layers all meet that condition against the base tiles ends without error |
| ProcessMap.IndexContent | process_map.py:35-54 | the gid steps over a layer's content in order; a stopped loop is unchanged, and a loop that ends without an error had none before |
| ProcessMap.IndexLayer | process_map.py:31-54 | one layer: an object group is skipped, a tile layer has its content folded; same two properties |
| ProcessMap.IndexLayers | process_map.py:31-54 | the layer steps over all layers in order; same two properties |
| ProcessMap.IndexGidReusesTexture | process_map.py:45-54 | a gid with the diagonal flag alone, whose unflipped tile is indexed, gets that tile's offsets and the texture left in the loop variable by an earlier gid, which stays as it was; with no earlier texture the step fails with `UnboundTransform` and nothing else changes |
| ProcessMap.DerivedTransitive | process_map.py:35-54 | two rounds of deriving are one round of deriving from the first index |
| ProcessMap.IndexGidDerived | process_map.py:36-54 | one gid step keeps every old entry, and every new entry is a flagged gid whose unflipped tile was indexed, with that tile's offsets and, when a transform is picked, that tile's art under it |
| ProcessMap.IndexGidOnlyItsGid | process_map.py:36-54 | the only key one gid step can add is that gid |
| ProcessMap.IndexContentDerived | process_map.py:35-54 | the same entry properties for a layer's whole content |
| ProcessMap.IndexContentOnlyContent | process_map.py:35-54 | every key a layer's content adds is a gid of that content |
| ProcessMap.IndexLayersDerived | process_map.py:31-54 | the same entry properties for the whole flip loop of `load`, whether or not it stops on an error |
| ProcessMap.IndexLayersOnlyContent | process_map.py:31-54 | every key `load` adds is a gid in the content of a tile layer (the converse of `IndexLayersCovers`) |
| ProcessMap.IndexContentStopped | process_map.py:35-54 | once the loop has stopped within a layer, the rest of the layer changes nothing |
| ProcessMap.IndexLayersStopped | process_map.py:31-54 | once the loop has stopped, the remaining layers change nothing |
| ProcessMap.IndexContentCovers | process_map.py:35-54 | a layer processed without error leaves every flagged gid of its content indexed |
| ProcessMap.IndexLayersCovers | process_map.py:31-54 | a `load` without error leaves every flagged gid of every tile layer indexed |
| ProcessMap.IndexContentNext | process_map.py:35 | the content fold over k + 1 gids is the fold over k gids followed by gid k |
| ProcessMap.IndexLayersNext | process_map.py:31 | the layer fold over i + 1 layers is the fold over i layers followed by layer i |
| ProcessMap.MapResourceLoader.constructor | process_map.py:27 | a new loader has an empty image cache and an empty tile index |
| ProcessMap.MapResourceLoader.LoadImage | process_map.py:58-64 | a cached file gives its cached image and leaves the cache alone; an uncached one is opened and added, with every other entry kept |
| ProcessMap.MapResourceLoader.LoadImagePart | process_map.py:69-73 | the crop of the cached sheet by the rectangle at (xpos, ypos), exactly width × height; the cache changes only by opening the file if it was absent |
| ProcessMap.MapResourceLoader.LoadImageParts | process_map.py:75-87 | the i-th image is the crop of the sheet at the i-th row-major origin of the truncated sheet grid, one per origin |
| ProcessMap.MapResourceLoader.LoadImageRow | process_map.py:84-86 | one pass of the inner loop appends, left to right, the crops at the row's origins, and leaves the cache as it was |
| ProcessMap.MapResourceLoader.IndexFlipped | process_map.py:36-54 | one iteration of the gid loop changes the index, the texture variable and the error exactly as one fold step does |
| ProcessMap.MapResourceLoader.Load | process_map.py:28-54 | the final tile index and error are those of the fold over the layers, started from the base tiles |
| World.EscapeTerm | world.py:20 | the term for one character holds no control character |
| World.Escape | world.py:18-21 | the output holds no control character |
| World.EscapeTermMatches | world.py:20 | each character is printed as by common.py's generator term |
| World.EscapeMatchesCommon | world.py:18-21 | world.py's escape equals common.py's on every string |
| World.RowSprites | world.py:199-209 | the sprites of a row's first n cells, left to right, one for each non-empty cell: at most n, all in the layer's group |
| World.GridSprites | world.py:198-209 | the sprites of a layer's first m rows, top row first: all in the layer's group |
| World.LayerSprites | world.py:190-209 | the sprites of one layer, none for an invisible layer or an object group: all in the layer's group |
| World.MapSprites | world.py:189-209 | the sprites of the first n layers in order, each layer's index as its group: every group is below n |
| World.PlaceLayer | world.py:198-209 | appends the sprites of one layer's non-empty cells, in row and then column order |
| World.PlaceSprites | world.py:188-209 | the sprite list is the fold over all layers, skipping invisible layers and object groups |
| World.RowSpritesMembers | world.py:199-209 | a row yields exactly the sprites of its non-empty cells |
| World.GridSpritesMembers | world.py:198-209 | a layer's rows yield exactly the sprites of its non-empty cells |
| World.MapSpritesMembers | world.py:189-209 | a sprite is placed if and only if it shows the id read at `content2D[x][y]` of a non-empty cell of a drawn layer, at `(tilewidth * x, tileheight * (height - y))`, in that layer's index as group |
| World.SkippedLayersPlaceNothing | world.py:190-196 | no placed sprite is in the group of an invisible layer or an object group |
| World.OrderedConcat | world.py:189-199 | two ordered lists, each element of the first before each of the second, concatenate to an ordered list |
| World.EarlierColumnBefore | world.py:199 | with a positive tile width, the sprite of an earlier column of a row comes before that of a later column |
| World.RowSpritesOrdered | world.py:199 | with a positive tile width, a row's sprites come left to right |
| World.EarlierRowBefore | world.py:198 | with a positive tile height, a sprite of an earlier row comes before any sprite of a later one (it is drawn higher up) |
| World.GridSpritesOrdered | world.py:198-199 | with positive tile sizes, a layer's sprites come row by row from the top, then left to right |
| World.MapSpritesOrdered | world.py:189-199 | with positive tile sizes, the sprites come layer by layer, then by descending y, then by ascending x |
| World.PlacedOnce | world.py:189-209 | with positive tile sizes no sprite is placed twice, so each non-empty cell yields exactly one sprite |

## Left out

- `JSONDebugEncoder` (common.py:16-36, world.py:23-41): it depends on Python reflection (`type.mro`, `__dict__`) and the json library.
- `TrueTypeMonoFont` (world.py:43-132): freetype, numpy and OpenGL calls.
- The pyglet window, the keyboard, the clock and `update`'s floating-point scrolling in `demo_pyglet`. All pyglet objects are left out: a sprite is its image id, its position and its group number.
- main.py and avatar.py. The collision, height and level system they call (`World`, `check_collision`, avatar `move`) is not defined in main.py, avatar.py or world.py, and is not part of this model.
- `get_file_sha1sum`, `save_tile_images` and process_map.py's `main`: file output and hashing.
- `get_indexed_tiles` (process_map.py:89-90): a plain getter of the tile index, which the model reads as the `indexedTiles` field.
- The inherited `AbstractResourceLoader.load`, which indexes the base tiles. Its result is the `baseTiles` parameter of `Load`. It cuts the tile sheets through `_load_image_parts`, which fills the image cache; that effect on the cache is not modelled, so `Load` leaves the cache as it was.
- `Image.open` and file I/O. An opened image is the value of the loader's `open` function. The `print` of a newly loaded file name is left out.
- The colorkey arguments, which the source accepts and ignores.
- `_load_image_file_like` (process_map.py:66-67). It only forwards to `_load_image`, so `LoadImage` covers it.
- Textures: `get_texture`, `get_transform` and the saving, centring and restoring of anchors (process_map.py:40-44, 52-53). A texture is the opaque `Art` of the base tile, and a transformed texture is `Transformed(base, transform)`. PIL images, which `_load_image_part` returns, have no `get_texture`, so `load` could not run on them as written. The model keeps that question out: it treats any tile's art as having a texture.
- ProcessMap.MapResourceLoader.LoadImageParts: requires positive strides (`tile_width + spacing` and `tile_height + spacing`). With a zero stride the source fails with a division by zero at lines 79 and 81.
- Image ids in `world.py`: a cell is an integer, and zero or non-zero stands for Python's truthiness test. The lookup in `indexed_tiles` (world.py:202) is left out: a sprite carries the id, not the texture.
- World.PlaceSprites: requires every cell the loops read to exist (`WellFormed`). With a shorter `content2D` the source raises an `IndexError`, which is not modelled.
- World.MapSpritesOrdered and World.PlacedOnce: hold only for positive tile sizes. With a zero tile size, sprites of different cells can coincide.
- World.EarlierColumnBefore, World.RowSpritesOrdered, World.EarlierRowBefore and World.GridSpritesOrdered: likewise require a positive tile width, a positive tile height, or both, for the same reason.
- Gids are 32-bit words. Larger Python integers are not modelled.
- Common.Escape and World.Escape work on strings of Unicode scalar values (Dafny's `char`). A Python `str` can also hold lone surrogates, which are not modelled.
- `special_round`'s argument is a real number. The float inputs where `math.floor` and `math.ceil` raise (a NaN raises `ValueError`, an infinity `OverflowError`) are not modelled.
