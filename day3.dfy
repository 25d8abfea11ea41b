/** `day3.rs`: a map of open squares and trees that repeats to the right
    forever, and the tiles met going 3 right and 1 down from the top left. */
module Day3 {
  import opened Results
  import opened Text
  import opened Integers

  /** `Tile`. */
  datatype Tile = Empty | Tree

  /** `TravelMap`: the width of the map, and for each row the columns of its
      trees, each paired with `Tile::Tree`. */
  datatype TravelMap = TravelMap(width: nat, trees: seq<seq<(nat, Tile)>>)

  /** The trees of `line` from column `from` on: the `filter`/`map` over the
      enumerated bytes of the line. */
  function Trees(line: string, from: nat): seq<(nat, Tile)>
    decreases |line| - from
  {
    if from >= |line| then []
    else (if line[from] == '#' then [(from, Tree)] else []) + Trees(line, from + 1)
  }

  /** `TravelMap::parse` over the lines of the text: the width is the length
      of the first line, or 1 when there is none. */
  function ParseLines(lines: seq<string>): (m: TravelMap)
    ensures |m.trees| == |lines|
  {
    var width := if |lines| == 0 then 1 else |lines[0]|;
    TravelMap(width, seq(|lines|, r requires 0 <= r < |lines| => Trees(lines[r], 0)))
  }

  /** `TravelMap::parse`. */
  function Parse(s: string): TravelMap {
    ParseLines(Lines(s))
  }

  /** The column `x` lands on: the remainder, moved up by the width when it
      is negative. */
  function Wrap(x: int, width: int): int
    requires width > 0
  {
    var col := Rem(x, width);
    if col < 0 then col + width else col
  }

  /** Wrapping is the remainder that is never negative: every `x` lands in
      `[0, width)` on the column it is congruent to. */
  lemma WrapIsMod(x: int, width: int)
    requires width > 0
    ensures Wrap(x, width) == x % width
    ensures 0 <= Wrap(x, width) < width
  {
    RemNormalised(x, width);
  }

  /** `iter().find` on a row: the tile paired with the first entry for `col`. */
  function FindColumn(row: seq<(nat, Tile)>, col: nat): Option<Tile> {
    if |row| == 0 then None
    else if row[0].0 == col then Some(row[0].1)
    else FindColumn(row[1..], col)
  }

  /** The map may be indexed at row `y`: a row outside the map needs no width,
      but the source divides by the width inside it. */
  predicate Indexable(m: TravelMap, y: int) {
    0 <= y < |m.trees| ==> m.width > 0
  }

  /** `Index<Vec2>`: rows outside the map are empty; inside, the column wraps
      and the tile is that of the row's entry for it, or empty. */
  function Index(m: TravelMap, x: int, y: int): Tile
    requires Indexable(m, y)
  {
    if y < 0 || y >= |m.trees| then Empty
    else
      var col := Wrap(x, m.width);
      WrapIsMod(x, m.width);
      match FindColumn(m.trees[y], col)
      case Some(t) => t
      case None => Empty
  }

  /** The entry for `col` among the trees from `from` on exists exactly when
      that column holds `#`, and it is a tree. */
  lemma {:induction false} FindTrees(line: string, from: nat, col: nat)
    ensures FindColumn(Trees(line, from), col) ==
      if from <= col < |line| && line[col] == '#' then Some(Tree) else None
    decreases |line| - from
  {
    if from < |line| {
      FindTrees(line, from + 1, col);
      var rest := Trees(line, from + 1);
      if line[from] == '#' {
        var t := Trees(line, from);
        assert t == [(from, Tree)] + rest;
        assert t[0] == (from, Tree) && t[1..] == rest;
      } else {
        assert Trees(line, from) == rest;
      }
    }
  }

  /** Every tree listed from `from` on is at a column at or after `from`. */
  lemma {:induction false} TreesFrom(line: string, from: nat, i: nat)
    requires i < |Trees(line, from)|
    ensures from <= Trees(line, from)[i].0 < |line|
    ensures line[Trees(line, from)[i].0] == '#' && Trees(line, from)[i].1 == Tree
    decreases |line| - from
  {
    if line[from] != '#' {
      TreesFrom(line, from + 1, i);
    } else if i > 0 {
      TreesFrom(line, from + 1, i - 1);
    }
  }

  /** A parsed row lists its trees' columns in increasing order. */
  lemma {:induction false} TreesAscending(line: string, from: nat, i: nat, j: nat)
    requires i < j < |Trees(line, from)|
    ensures Trees(line, from)[i].0 < Trees(line, from)[j].0
    decreases |line| - from
  {
    if line[from] != '#' {
      TreesAscending(line, from + 1, i, j);
    } else if i > 0 {
      TreesAscending(line, from + 1, i - 1, j - 1);
    } else {
      TreesFrom(line, from + 1, j - 1);
    }
  }

  /** Indexing a parsed map: a tile is a tree exactly when its row is in the
      map and its wrapped column holds `#` in that line. */
  lemma IndexMeaning(lines: seq<string>, x: int, y: int)
    requires Indexable(ParseLines(lines), y)
    ensures ParseLines(lines).width > 0 ==>
      (Index(ParseLines(lines), x, y) == Tree <==>
        0 <= y < |lines| && x % ParseLines(lines).width < |lines[y]| && lines[y][x % ParseLines(lines).width] == '#')
    ensures y < 0 || y >= |lines| ==> Index(ParseLines(lines), x, y) == Empty
  {
    var m := ParseLines(lines);
    if 0 <= y < |lines| {
      WrapIsMod(x, m.width);
      FindTrees(lines[y], 0, x % m.width);
    }
  }

  /** The tiles from `(x, y)` on, stepping 3 right and 1 down while `y` is a
      row of the map: `successors`, `take_while` and `map` together. */
  function PathFrom(m: TravelMap, x: int, y: nat): seq<Tile>
    requires |m.trees| > 0 ==> m.width > 0
    decreases |m.trees| - y
  {
    if y >= |m.trees| then [] else [Index(m, x, y)] + PathFrom(m, x + 3, y + 1)
  }

  /** `get_path`. */
  function GetPath(m: TravelMap): seq<Tile>
    requires |m.trees| > 0 ==> m.width > 0
  {
    PathFrom(m, 0, 0)
  }

  lemma {:induction false} PathFromMeaning(m: TravelMap, j: nat, k: nat)
    requires |m.trees| > 0 ==> m.width > 0
    requires j <= |m.trees|
    ensures |PathFrom(m, 3 * j, j)| == |m.trees| - j
    ensures j + k < |m.trees| ==> PathFrom(m, 3 * j, j)[k] == Index(m, 3 * (j + k), j + k)
    decreases |m.trees| - j
  {
    if j < |m.trees| {
      if k == 0 {
        PathFromMeaning(m, j + 1, 0);
      } else {
        PathFromMeaning(m, j + 1, k - 1);
      }
    }
  }

  /** The path meets exactly one tile per row: row `k`'s tile at column `3k`. */
  lemma PathMeaning(m: TravelMap, k: nat)
    requires |m.trees| > 0 ==> m.width > 0
    ensures |GetPath(m)| == |m.trees|
    ensures k < |m.trees| ==> GetPath(m)[k] == Index(m, 3 * k, k)
  {
    PathFromMeaning(m, 0, k);
  }

  function ExampleLines(): seq<string> {
    ["..##.......",
     "#...#...#..",
     ".#....#..#.",
     "..#.#...#.#",
     ".#...##..#.",
     "..#.##.....",
     ".#.#.#....#",
     ".#........#",
     "#.##...#...",
     "#...##....#",
     ".#..#...#.#"]
  }

  /** `EXAMPLE`: the example's lines joined by line feeds. */
  function ExampleText(): string {
    Join(ExampleLines(), "\n")
  }

  lemma ExampleLinesPlain(lines: seq<string>)
    requires lines == ExampleLines()
    ensures |lines| >= 1
    ensures forall k :: 0 <= k < |lines| ==> lines[k] != "" && '\n' !in lines[k]
    ensures forall k :: 0 <= k < |lines| ==> lines[k][|lines[k]| - 1] != '\r'
  {
  }

  /** The example text reads as the example's lines, so parsing it parses them. */
  lemma ExampleTextLines()
    ensures Lines(ExampleText()) == ExampleLines()
    ensures Parse(ExampleText()) == ParseLines(ExampleLines())
  {
    ExampleLinesPlain(ExampleLines());
    LinesJoin(ExampleLines());
  }

  /** The map of the example's lines is 11 wide and 11 high, and its second
      row has trees in columns 0, 4 and 8. */
  lemma ExampleShape(m: TravelMap)
    requires m == ParseLines(ExampleLines())
    ensures m.width == 11 && |m.trees| == 11
    ensures m.trees[1] == [(0, Tree), (4, Tree), (8, Tree)]
  {
    assert Trees(ExampleLines()[1], 0) == [(0, Tree), (4, Tree), (8, Tree)];
  }

  /** `TravelMap::parse(EXAMPLE)` is 11 wide and 11 high, and its second row
      has trees in columns 0, 4 and 8. */
  lemma ParseExample()
    ensures Parse(ExampleText()) == ParseLines(ExampleLines())
    ensures Parse(ExampleText()).width == 11
    ensures |Parse(ExampleText()).trees| == 11
    ensures Parse(ExampleText()).trees[1] == [(0, Tree), (4, Tree), (8, Tree)]
  {
    ExampleTextLines();
    ExampleShape(Parse(ExampleText()));
  }

  /** Indexing the map of the example's lines. */
  lemma ExampleCells(m: TravelMap)
    requires m == ParseLines(ExampleLines())
    ensures Index(m, 0, 0) == Empty && Index(m, 2, 0) == Tree
    ensures Index(m, 0, -1) == Empty && Index(m, 0, 11) == Empty
    ensures Index(m, 0, 1) == Tree && Index(m, 11, 1) == Tree && Index(m, -11, 1) == Tree
  {
    var lines := ExampleLines();
    IndexMeaning(lines, 0, 0);
    IndexMeaning(lines, 2, 0);
    IndexMeaning(lines, 0, -1);
    IndexMeaning(lines, 0, 11);
    IndexMeaning(lines, 0, 1);
    IndexMeaning(lines, 11, 1);
    IndexMeaning(lines, -11, 1);
  }

  /** Indexing `TravelMap::parse(EXAMPLE)`: an empty and a tree cell of the
      first row, rows above and below the map, and a tree of the second row
      reached at column 0, 11 and -11. */
  lemma IndexExamples()
    ensures Parse(ExampleText()) == ParseLines(ExampleLines())
    ensures Index(Parse(ExampleText()), 0, 0) == Empty
    ensures Index(Parse(ExampleText()), 2, 0) == Tree
    ensures Index(Parse(ExampleText()), 0, -1) == Empty
    ensures Index(Parse(ExampleText()), 0, 11) == Empty
    ensures Index(Parse(ExampleText()), 0, 1) == Tree
    ensures Index(Parse(ExampleText()), 11, 1) == Tree
    ensures Index(Parse(ExampleText()), -11, 1) == Tree
  {
    ExampleTextLines();
    ExampleCells(Parse(ExampleText()));
  }

  /** The slope read straight off the lines, each `width` wide: row `y`'s
      tile at column `3y` taken modulo the width. */
  function Slope(lines: seq<string>, width: nat, y: nat): (r: seq<Tile>)
    requires width > 0
    ensures |r| == if y <= |lines| then |lines| - y else 0
    decreases |lines| - y
  {
    if y >= |lines| then [] else [TileAt(lines[y], (3 * y) % width)] + Slope(lines, width, y + 1)
  }

  /** The tile of column `col` of a line. */
  function TileAt(line: string, col: nat): Tile {
    if col < |line| && line[col] == '#' then Tree else Empty
  }

  /** The path over a parsed map is the slope read off its lines. */
  lemma PathIsSlope(lines: seq<string>)
    requires |lines| > 0 && |lines[0]| > 0
    ensures GetPath(ParseLines(lines)) == Slope(lines, |lines[0]|, 0)
  {
    var m := ParseLines(lines);
    var slope := Slope(lines, m.width, 0);
    PathMeaning(m, 0);
    forall k | 0 <= k < |lines|
      ensures GetPath(m)[k] == slope[k]
    {
      PathMeaning(m, k);
      IndexMeaning(lines, 3 * k, k);
      SlopeAt(lines, m.width, 0, k);
    }
  }

  lemma {:induction false} SlopeAt(lines: seq<string>, width: nat, y: nat, k: nat)
    requires width > 0 && y + k < |lines|
    ensures Slope(lines, width, y)[k] == TileAt(lines[y + k], (3 * (y + k)) % width)
    decreases k
  {
    if k > 0 {
      SlopeAt(lines, width, y + 1, k - 1);
    }
  }

  /** A slope is fixed by its tiles. */
  lemma SlopeOf(lines: seq<string>, width: nat, tiles: seq<Tile>)
    requires width > 0 && |tiles| == |lines|
    requires forall k :: 0 <= k < |lines| ==> tiles[k] == TileAt(lines[k], (3 * k) % width)
    ensures Slope(lines, width, 0) == tiles
  {
    forall k | 0 <= k < |lines|
      ensures Slope(lines, width, 0)[k] == tiles[k]
    {
      SlopeAt(lines, width, 0, k);
    }
  }

  /** The tiles the example's slope meets, row by row. */
  lemma ExampleTiles(lines: seq<string>, tiles: seq<Tile>)
    requires lines == ExampleLines()
    requires tiles == [Empty, Empty, Tree, Empty, Tree, Tree, Empty, Tree, Tree, Tree, Tree]
    ensures forall k :: 0 <= k < |lines| ==> tiles[k] == TileAt(lines[k], (3 * k) % 11)
  {
    forall k | 0 <= k < |lines|
      ensures tiles[k] == TileAt(lines[k], (3 * k) % 11)
    {
      if k == 0 {
        assert lines[0][0] == '.';
      } else if k == 1 {
        assert lines[1][3] == '.';
      } else if k == 2 {
        assert lines[2][6] == '#';
      } else if k == 3 {
        assert lines[3][9] == '.';
      } else if k == 4 {
        assert lines[4][1] == '#';
      } else if k == 5 {
        assert lines[5][4] == '#';
      } else if k == 6 {
        assert lines[6][7] == '.';
      } else if k == 7 {
        assert lines[7][10] == '#';
      } else if k == 8 {
        assert lines[8][2] == '#';
      } else if k == 9 {
        assert lines[9][5] == '#';
      } else if k == 10 {
        assert lines[10][8] == '#';
      }
    }
  }

  /** The path over the map of the example's lines. */
  lemma ExamplePath(m: TravelMap)
    requires m == ParseLines(ExampleLines())
    ensures GetPath(m) == [Empty, Empty, Tree, Empty, Tree, Tree, Empty, Tree, Tree, Tree, Tree]
  {
    var tiles := [Empty, Empty, Tree, Empty, Tree, Tree, Empty, Tree, Tree, Tree, Tree];
    ExampleTiles(ExampleLines(), tiles);
    PathIsSlope(ExampleLines());
    SlopeOf(ExampleLines(), 11, tiles);
  }

  /** The path over `TravelMap::parse(EXAMPLE)` meets E, E, T, E, T, T, E, T, T, T, T. */
  lemma PathExample()
    ensures Parse(ExampleText()) == ParseLines(ExampleLines())
    ensures GetPath(Parse(ExampleText())) == [Empty, Empty, Tree, Empty, Tree, Tree, Empty, Tree, Tree, Tree, Tree]
  {
    ExampleTextLines();
    ExamplePath(Parse(ExampleText()));
  }
}
