/** The parts of world.py that compute something: its copy of the string
    escaper and the placement of one sprite per tile in demo_pyglet. */
module World {
  import Common

  // ---------------------------------------------------------------------
  // escape.__repr__ (world.py's copy)
  // ---------------------------------------------------------------------

  /** The generator term of world.py's escape for one character. */
  function EscapeTerm(c: char): (r: string)
    ensures Common.NoControl(r)
  {
    if c as int < 32 then ['\\', 'x', Common.HexDigits[c as int / 16], Common.HexDigits[c as int % 16]]
    else [c]
  }

  /** world.py's escape.__repr__: the terms joined in order, built as the
      join consumes them, from the first character to the last. */
  function Escape(s: string): (r: string)
    ensures Common.NoControl(r)
  {
    if s == [] then [] else Escape(s[..|s| - 1]) + EscapeTerm(s[|s| - 1])
  }

  /** The two copies print a character alike. */
  lemma EscapeTermMatches(c: char)
    ensures EscapeTerm(c) == Common.EscapeChar(c)
  {
    if c as int < 32 {
      assert Common.HexDigit(c as int / 16) == Common.HexDigits[c as int / 16];
      assert Common.HexDigit(c as int % 16) == Common.HexDigits[c as int % 16];
    }
  }

  /** The copy agrees with common.py's escape on every string. */
  lemma {:induction false} EscapeMatchesCommon(s: string)
    ensures Escape(s) == Common.Escape(s)
  {
    if s != [] {
      var init := s[..|s| - 1];
      var c := s[|s| - 1];
      assert init + [c] == s;
      assert Escape(s) == Escape(init) + EscapeTerm(c);
      EscapeMatchesCommon(init);
      EscapeTermMatches(c);
      Common.EscapeAppend(init, c);
    }
  }

  // ---------------------------------------------------------------------
  // Sprite placement
  // ---------------------------------------------------------------------

  /** The parts of a map layer that the placement loop reads. content2D is
      indexed by column first, then by row. */
  datatype MapLayer = MapLayer(visible: bool, isObjectGroup: bool, width: nat, height: nat,
                               content2D: seq<seq<int>>)

  /** A placed tile: its image id, its position and its drawing group. */
  datatype Sprite = Sprite(imageId: int, x: int, y: int, group: nat)

  /** Only visible tile layers are drawn; object groups are skipped. */
  predicate Drawn(layer: MapLayer) {
    layer.visible && !layer.isObjectGroup
  }

  /** content2D holds every cell the loop reads: width columns of at least
      height cells each. */
  predicate Covers(layer: MapLayer) {
    && |layer.content2D| >= layer.width
    && forall x :: 0 <= x < layer.width ==> |layer.content2D[x]| >= layer.height
  }

  /** Every drawn layer covers its cells. */
  predicate WellFormed(layers: seq<MapLayer>) {
    forall i :: 0 <= i < |layers| && Drawn(layers[i]) ==> Covers(layers[i])
  }

  /** s is the sprite of the non-empty cell (x, y) of layer, drawn in group:
      it shows the id read at content2D[x][y] at the column's x and the
      row's y counted upwards from the bottom of the layer. */
  predicate CellSprite(layer: MapLayer, group: nat, tileWidth: nat, tileHeight: nat, x: int, y: int, s: Sprite)
    requires Covers(layer)
  {
    && 0 <= x < layer.width && 0 <= y < layer.height
    && layer.content2D[x][y] != 0
    && s == Sprite(layer.content2D[x][y], tileWidth * x, tileHeight * (layer.height - y), group)
  }

  /** The sprites of the first n cells of row y: at most one per cell, all
      in the layer's group. */
  function RowSprites(layer: MapLayer, group: nat, tileWidth: nat, tileHeight: nat, y: nat, n: nat): (r: seq<Sprite>)
    requires Covers(layer) && y < layer.height && n <= layer.width
    ensures |r| <= n
    ensures forall i :: 0 <= i < |r| ==> r[i].group == group
  {
    if n == 0 then []
    else
      var imageId := layer.content2D[n - 1][y];
      RowSprites(layer, group, tileWidth, tileHeight, y, n - 1)
        + (if imageId != 0 then [Sprite(imageId, tileWidth * (n - 1), tileHeight * (layer.height - y), group)] else [])
  }

  /** The sprites of the first m rows, all in the layer's group. */
  function GridSprites(layer: MapLayer, group: nat, tileWidth: nat, tileHeight: nat, m: nat): (r: seq<Sprite>)
    requires Covers(layer) && m <= layer.height
    ensures forall i :: 0 <= i < |r| ==> r[i].group == group
  {
    if m == 0 then [] else
      GridSprites(layer, group, tileWidth, tileHeight, m - 1)
      + RowSprites(layer, group, tileWidth, tileHeight, m - 1, layer.width)
  }

  /** The sprites of one layer: none unless it is drawn, all in the layer's
      group. */
  function LayerSprites(layer: MapLayer, group: nat, tileWidth: nat, tileHeight: nat): (r: seq<Sprite>)
    requires Drawn(layer) ==> Covers(layer)
    ensures forall i :: 0 <= i < |r| ==> r[i].group == group
  {
    if Drawn(layer) then GridSprites(layer, group, tileWidth, tileHeight, layer.height) else []
  }

  /** The sprites of the first n layers, the group of each being its
      layer's index in the whole list. */
  function MapSprites(layers: seq<MapLayer>, tileWidth: nat, tileHeight: nat, n: nat): (r: seq<Sprite>)
    requires WellFormed(layers) && n <= |layers|
    ensures forall i :: 0 <= i < |r| ==> r[i].group < n
  {
    if n == 0 then [] else
      MapSprites(layers, tileWidth, tileHeight, n - 1)
      + LayerSprites(layers[n - 1], n - 1, tileWidth, tileHeight)
  }

  /** The body of demo_pyglet's layer loop for a drawn layer: appends the
      sprite of every non-empty cell, row by row and, within a row, column
      by column. */
  method PlaceLayer(sprites: seq<Sprite>, layer: MapLayer, groupNum: nat, tileWidth: nat, tileHeight: nat)
    returns (placed: seq<Sprite>)
    requires Covers(layer)
    ensures placed == sprites + GridSprites(layer, groupNum, tileWidth, tileHeight, layer.height)
  {
    placed := sprites;
    for ytile := 0 to layer.height
      invariant placed == sprites + GridSprites(layer, groupNum, tileWidth, tileHeight, ytile)
    {
      ghost var rowsDone := placed;
      for xtile := 0 to layer.width
        invariant placed == rowsDone + RowSprites(layer, groupNum, tileWidth, tileHeight, ytile, xtile)
      {
        var imageId := layer.content2D[xtile][ytile];
        if imageId != 0 {
          placed := placed + [Sprite(imageId, tileWidth * xtile, tileHeight * (layer.height - ytile), groupNum)];
        }
      }
      assert placed == sprites + (GridSprites(layer, groupNum, tileWidth, tileHeight, ytile)
        + RowSprites(layer, groupNum, tileWidth, tileHeight, ytile, layer.width));
    }
  }

  /** The tile loop of demo_pyglet, without the pyglet objects: one sprite
      per non-empty cell of every drawn layer, layer by layer, in the group
      numbered by the layer's index. */
  method PlaceSprites(layers: seq<MapLayer>, tileWidth: nat, tileHeight: nat) returns (sprites: seq<Sprite>)
    requires WellFormed(layers)
    ensures sprites == MapSprites(layers, tileWidth, tileHeight, |layers|)
  {
    sprites := [];
    for groupNum := 0 to |layers|
      invariant sprites == MapSprites(layers, tileWidth, tileHeight, groupNum)
    {
      var layer := layers[groupNum];
      if !layer.visible {
        continue;
      }
      if layer.isObjectGroup {
        continue;
      }
      sprites := PlaceLayer(sprites, layer, groupNum, tileWidth, tileHeight);
    }
  }

  // ---------------------------------------------------------------------
  // What the placement produces
  // ---------------------------------------------------------------------

  lemma MulStrict(a: int, b: int, c: int)
    requires a > 0 && b < c
    ensures a * b < a * c
  {
    assert a * c - a * b == a * (c - b);
  }

  /** A row's sprites are the sprites of its non-empty cells. */
  lemma {:induction false} RowSpritesMembers(layer: MapLayer, group: nat, tileWidth: nat, tileHeight: nat, y: nat, n: nat)
    requires Covers(layer) && y < layer.height && n <= layer.width
    ensures forall s :: s in RowSprites(layer, group, tileWidth, tileHeight, y, n) <==>
      exists x :: 0 <= x < n && CellSprite(layer, group, tileWidth, tileHeight, x, y, s)
  {
    if n > 0 {
      var init := RowSprites(layer, group, tileWidth, tileHeight, y, n - 1);
      var all := RowSprites(layer, group, tileWidth, tileHeight, y, n);
      RowSpritesMembers(layer, group, tileWidth, tileHeight, y, n - 1);
      forall s | s in all ensures exists x :: 0 <= x < n && CellSprite(layer, group, tileWidth, tileHeight, x, y, s) {
        if s !in init {
          assert CellSprite(layer, group, tileWidth, tileHeight, n - 1, y, s);
        }
      }
      forall s | CellSprite(layer, group, tileWidth, tileHeight, n - 1, y, s) ensures s in all {
      }
    }
  }

  /** A layer's first m rows give the sprites of their non-empty cells. */
  lemma {:induction false} GridSpritesMembers(layer: MapLayer, group: nat, tileWidth: nat, tileHeight: nat, m: nat)
    requires Covers(layer) && m <= layer.height
    ensures forall s :: s in GridSprites(layer, group, tileWidth, tileHeight, m) <==>
      exists x, y :: 0 <= y < m && CellSprite(layer, group, tileWidth, tileHeight, x, y, s)
  {
    if m > 0 {
      GridSpritesMembers(layer, group, tileWidth, tileHeight, m - 1);
      RowSpritesMembers(layer, group, tileWidth, tileHeight, m - 1, layer.width);
      forall s, x, y | 0 <= y < m && CellSprite(layer, group, tileWidth, tileHeight, x, y, s)
        ensures s in GridSprites(layer, group, tileWidth, tileHeight, m)
      {
        if y < m - 1 {
          assert s in GridSprites(layer, group, tileWidth, tileHeight, m - 1);
        } else {
          assert s in RowSprites(layer, group, tileWidth, tileHeight, m - 1, layer.width);
        }
      }
    }
  }

  /** A sprite is placed exactly when it is the sprite of a non-empty cell
      of a drawn layer, in the group numbered by that layer's index. */
  lemma {:induction false} MapSpritesMembers(layers: seq<MapLayer>, tileWidth: nat, tileHeight: nat, n: nat)
    requires WellFormed(layers) && n <= |layers|
    ensures forall s :: s in MapSprites(layers, tileWidth, tileHeight, n) <==>
      exists i, x, y :: 0 <= i < n && Drawn(layers[i]) && CellSprite(layers[i], i, tileWidth, tileHeight, x, y, s)
  {
    if n > 0 {
      var last := layers[n - 1];
      var init := MapSprites(layers, tileWidth, tileHeight, n - 1);
      var here := LayerSprites(last, n - 1, tileWidth, tileHeight);
      assert MapSprites(layers, tileWidth, tileHeight, n) == init + here;
      MapSpritesMembers(layers, tileWidth, tileHeight, n - 1);
      if Drawn(last) {
        GridSpritesMembers(last, n - 1, tileWidth, tileHeight, last.height);
      }
      forall s | s in init + here
        ensures exists i, x, y :: 0 <= i < n && Drawn(layers[i]) && CellSprite(layers[i], i, tileWidth, tileHeight, x, y, s)
      {
        if s !in init {
          var x, y :| 0 <= y < last.height && CellSprite(last, n - 1, tileWidth, tileHeight, x, y, s);
          assert Drawn(layers[n - 1]) && CellSprite(layers[n - 1], n - 1, tileWidth, tileHeight, x, y, s);
        }
      }
      forall s, i, x, y | 0 <= i < n && Drawn(layers[i]) && CellSprite(layers[i], i, tileWidth, tileHeight, x, y, s)
        ensures s in init + here
      {
        if i < n - 1 {
          assert s in init;
        } else {
          assert s in here;
        }
      }
    }
  }

  /** Invisible layers and object groups contribute no sprite: no placed
      sprite carries such a layer's group number. */
  lemma SkippedLayersPlaceNothing(layers: seq<MapLayer>, tileWidth: nat, tileHeight: nat, i: nat)
    requires WellFormed(layers) && i < |layers| && !Drawn(layers[i])
    ensures forall s :: s in MapSprites(layers, tileWidth, tileHeight, |layers|) ==> s.group != i
  {
    MapSpritesMembers(layers, tileWidth, tileHeight, |layers|);
  }

  /** The emission order: earlier layers first; within a layer, rows from
      the top of the screen down (a larger y first); within a row, columns
      from left to right. */
  predicate Before(a: Sprite, b: Sprite) {
    || a.group < b.group
    || (a.group == b.group && (a.y > b.y || (a.y == b.y && a.x < b.x)))
  }

  predicate Ordered(sprites: seq<Sprite>) {
    forall i, j :: 0 <= i < j < |sprites| ==> Before(sprites[i], sprites[j])
  }

  lemma OrderedConcat(a: seq<Sprite>, b: seq<Sprite>)
    requires Ordered(a) && Ordered(b)
    requires forall s, t :: s in a && t in b ==> Before(s, t)
    ensures Ordered(a + b)
  {
    forall i, j | 0 <= i < j < |a + b| ensures Before((a + b)[i], (a + b)[j]) {
      if j < |a| {
        assert Before(a[i], a[j]);
      } else if i >= |a| {
        assert Before(b[i - |a|], b[j - |a|]);
      } else {
        assert a[i] in a && b[j - |a|] in b;
      }
    }
  }

  /** A sprite of an earlier column of row y comes before that of column
      n - 1. */
  lemma EarlierColumnBefore(layer: MapLayer, group: nat, tileWidth: nat, tileHeight: nat, y: nat, n: nat, s: Sprite, t: Sprite)
    requires Covers(layer) && y < layer.height && 0 < n <= layer.width && tileWidth > 0
    requires s in RowSprites(layer, group, tileWidth, tileHeight, y, n - 1)
    requires CellSprite(layer, group, tileWidth, tileHeight, n - 1, y, t)
    ensures Before(s, t)
  {
    RowSpritesMembers(layer, group, tileWidth, tileHeight, y, n - 1);
    var x :| 0 <= x < n - 1 && CellSprite(layer, group, tileWidth, tileHeight, x, y, s);
    MulStrict(tileWidth, x, n - 1);
  }

  lemma {:induction false} RowSpritesOrdered(layer: MapLayer, group: nat, tileWidth: nat, tileHeight: nat, y: nat, n: nat)
    requires Covers(layer) && y < layer.height && n <= layer.width && tileWidth > 0
    ensures Ordered(RowSprites(layer, group, tileWidth, tileHeight, y, n))
  {
    if n > 0 {
      var init := RowSprites(layer, group, tileWidth, tileHeight, y, n - 1);
      var imageId := layer.content2D[n - 1][y];
      var cell := if imageId != 0 then [Sprite(imageId, tileWidth * (n - 1), tileHeight * (layer.height - y), group)] else [];
      assert RowSprites(layer, group, tileWidth, tileHeight, y, n) == init + cell;
      RowSpritesOrdered(layer, group, tileWidth, tileHeight, y, n - 1);
      forall s, t | s in init && t in cell ensures Before(s, t) {
        assert CellSprite(layer, group, tileWidth, tileHeight, n - 1, y, t);
        EarlierColumnBefore(layer, group, tileWidth, tileHeight, y, n, s, t);
      }
      OrderedConcat(init, cell);
    }
  }

  /** A sprite of an earlier row comes before one of row m - 1. */
  lemma EarlierRowBefore(layer: MapLayer, group: nat, tileWidth: nat, tileHeight: nat, m: nat, s: Sprite, t: Sprite)
    requires Covers(layer) && 0 < m <= layer.height && tileHeight > 0
    requires s in GridSprites(layer, group, tileWidth, tileHeight, m - 1)
    requires t in RowSprites(layer, group, tileWidth, tileHeight, m - 1, layer.width)
    ensures Before(s, t)
  {
    GridSpritesMembers(layer, group, tileWidth, tileHeight, m - 1);
    RowSpritesMembers(layer, group, tileWidth, tileHeight, m - 1, layer.width);
    var x, y :| 0 <= y < m - 1 && CellSprite(layer, group, tileWidth, tileHeight, x, y, s);
    var x' :| 0 <= x' < layer.width && CellSprite(layer, group, tileWidth, tileHeight, x', m - 1, t);
    MulStrict(tileHeight, layer.height - (m - 1), layer.height - y);
  }

  lemma {:induction false} GridSpritesOrdered(layer: MapLayer, group: nat, tileWidth: nat, tileHeight: nat, m: nat)
    requires Covers(layer) && m <= layer.height && tileWidth > 0 && tileHeight > 0
    ensures Ordered(GridSprites(layer, group, tileWidth, tileHeight, m))
  {
    if m > 0 {
      var init := GridSprites(layer, group, tileWidth, tileHeight, m - 1);
      var row := RowSprites(layer, group, tileWidth, tileHeight, m - 1, layer.width);
      assert GridSprites(layer, group, tileWidth, tileHeight, m) == init + row;
      GridSpritesOrdered(layer, group, tileWidth, tileHeight, m - 1);
      RowSpritesOrdered(layer, group, tileWidth, tileHeight, m - 1, layer.width);
      forall s, t | s in init && t in row ensures Before(s, t) {
        EarlierRowBefore(layer, group, tileWidth, tileHeight, m, s, t);
      }
      OrderedConcat(init, row);
    }
  }

  /** With positive tile sizes the sprites come out in emission order, so
      no sprite is placed twice. */
  lemma {:induction false} MapSpritesOrdered(layers: seq<MapLayer>, tileWidth: nat, tileHeight: nat, n: nat)
    requires WellFormed(layers) && n <= |layers| && tileWidth > 0 && tileHeight > 0
    ensures Ordered(MapSprites(layers, tileWidth, tileHeight, n))
  {
    if n > 0 {
      var init := MapSprites(layers, tileWidth, tileHeight, n - 1);
      var last := LayerSprites(layers[n - 1], n - 1, tileWidth, tileHeight);
      MapSpritesOrdered(layers, tileWidth, tileHeight, n - 1);
      MapSpritesMembers(layers, tileWidth, tileHeight, n - 1);
      if Drawn(layers[n - 1]) {
        GridSpritesOrdered(layers[n - 1], n - 1, tileWidth, tileHeight, layers[n - 1].height);
        GridSpritesMembers(layers[n - 1], n - 1, tileWidth, tileHeight, layers[n - 1].height);
      }
      forall s, t | s in init && t in last ensures Before(s, t) {
        var i, x, y :| 0 <= i < n - 1 && Drawn(layers[i]) && CellSprite(layers[i], i, tileWidth, tileHeight, x, y, s);
      }
      OrderedConcat(init, last);
    }
  }

  /** Each non-empty cell of a drawn layer yields exactly one sprite. */
  lemma PlacedOnce(layers: seq<MapLayer>, tileWidth: nat, tileHeight: nat)
    requires WellFormed(layers) && tileWidth > 0 && tileHeight > 0
    ensures var sprites := MapSprites(layers, tileWidth, tileHeight, |layers|);
      forall i, j :: 0 <= i < j < |sprites| ==> sprites[i] != sprites[j]
  {
    MapSpritesOrdered(layers, tileWidth, tileHeight, |layers|);
  }
}
