/** `day11.rs`: the seat map of a waiting area and one generation of its
    seating automaton, computed from a read-only source buffer into a second
    buffer, the two buffers alternating by the parity of a generation counter. */
module Day11 {
  import opened Results
  import opened Text

  datatype SeatState = Floor | Empty | Full

  /** `Display for SeatState`: the character each state is written as; decoding
      it gives the state back. */
  function Display(s: SeatState): char {
    match s
    case Floor => '.'
    case Empty => 'L'
    case Full => '#'
  }

  /** `TryFrom<u8> for SeatState`: '.', 'L' and '#' are the only legal bytes. */
  function SeatFromByte(b: char): (r: Result<SeatState>)
    ensures r.Ok? <==> b == '.' || b == 'L' || b == '#'
    ensures r.Ok? ==> Display(r.value) == b
  {
    match b
    case '.' => Ok(Floor)
    case 'L' => Ok(Empty)
    case '#' => Ok(Full)
    case _ => Err
  }

  /** Printing a state and decoding the character gives the state back. */
  lemma DisplayRoundTrip(s: SeatState)
    ensures SeatFromByte(Display(s)) == Ok(s)
  {
  }

  type Grid = seq<seq<SeatState>>

  /** Decodes one line of the map; any illegal byte fails the whole line. */
  function DecodeLine(line: string): (r: Result<seq<SeatState>>)
    ensures r.Ok? <==> forall k :: 0 <= k < |line| ==> SeatFromByte(line[k]).Ok?
    ensures r.Ok? ==> |r.value| == |line|
    ensures r.Ok? ==> forall k :: 0 <= k < |line| ==> Display(r.value[k]) == line[k]
  {
    if line == [] then Ok([])
    else
      var first :- SeatFromByte(line[0]);
      var rest :- DecodeLine(line[1..]);
      assert forall k :: 1 <= k < |line| ==> line[k] == line[1..][k - 1];
      Ok([first] + rest)
  }

  /** Each line decoded and framed by one Floor cell on either side. */
  function PadLines(lines: seq<string>): (r: Result<Grid>)
    ensures r.Ok? <==> forall i :: 0 <= i < |lines| ==> DecodeLine(lines[i]).Ok?
    ensures r.Ok? ==> |r.value| == |lines|
    ensures r.Ok? ==> forall i :: 0 <= i < |lines| ==> r.value[i] == [Floor] + DecodeLine(lines[i]).value + [Floor]
  {
    if lines == [] then Ok([])
    else
      var first :- DecodeLine(lines[0]);
      var rest :- PadLines(lines[1..]);
      assert forall i :: 1 <= i < |lines| ==> lines[i] == lines[1..][i - 1];
      Ok([[Floor] + first + [Floor]] + rest)
  }

  /** A row of `n` Floor cells. */
  function FloorRow(n: nat): (r: seq<SeatState>)
    ensures |r| == n && forall k :: 0 <= k < n ==> r[k] == Floor
  {
    seq(n, _ => Floor)
  }

  /** `SeatMap::parse`: the decoded lines framed by a one-cell Floor border. The
      border rows take the width of the first framed line; lines of other
      widths are not rejected. Empty text, and any illegal byte, is an error. */
  function ParseSeatMap(s: string): (r: Result<Grid>)
    ensures s == "" ==> r.Err?
    ensures r.Ok? <==> |Lines(s)| > 0 && forall i :: 0 <= i < |Lines(s)| ==> DecodeLine(Lines(s)[i]).Ok?
    ensures r.Ok? ==> |r.value| == |Lines(s)| + 2
    ensures r.Ok? ==> r.value[0] == FloorRow(|Lines(s)[0]| + 2) && r.value[|r.value| - 1] == FloorRow(|Lines(s)[0]| + 2)
    ensures r.Ok? ==> forall i :: 0 <= i < |Lines(s)| ==> PaddedLine(Lines(s)[i], r.value[i + 1])
  {
    var text := Lines(s);
    var lines :- PadLines(text);
    if |lines| == 0 then Err
    else
      FramedLines(text, lines);
      Ok(Frame(lines))
  }

  /** Each padded line sits one row down in the framed map, its cells showing
      the characters of the line between two Floor cells. */
  lemma FramedLines(text: seq<string>, lines: Grid)
    requires PadLines(text) == Ok(lines) && |lines| > 0
    ensures |Frame(lines)[0]| == |text[0]| + 2
    ensures forall i :: 0 <= i < |text| ==> PaddedLine(text[i], Frame(lines)[i + 1])
  {
    var framed := Frame(lines);
    forall i | 0 <= i < |text|
      ensures PaddedLine(text[i], framed[i + 1])
    {
      PaddedLineShows(text[i], DecodeLine(text[i]).value, framed[i + 1]);
    }
  }

  /** A row holding the cells of a line between two Floor cells. */
  predicate PaddedLine(line: string, row: seq<SeatState>) {
    |row| == |line| + 2 && row[0] == Floor && row[|line| + 1] == Floor &&
    forall j :: 0 <= j < |line| ==> Display(row[j + 1]) == line[j]
  }

  /** Cells showing a line, framed by Floor cells, show the line between them. */
  lemma PaddedLineShows(line: string, cells: seq<SeatState>, row: seq<SeatState>)
    requires |cells| == |line| && forall j :: 0 <= j < |line| ==> Display(cells[j]) == line[j]
    requires row == [Floor] + cells + [Floor]
    ensures PaddedLine(line, row)
  {
    forall j | 0 <= j < |line|
      ensures Display(row[j + 1]) == line[j]
    {
      assert row[j + 1] == cells[j];
    }
  }

  /** The padded lines between two Floor rows as wide as the first of them. */
  function Frame(lines: Grid): (r: Grid)
    requires |lines| > 0
    ensures |r| == |lines| + 2
    ensures r[0] == FloorRow(|lines[0]|) && r[|r| - 1] == FloorRow(|lines[0]|)
    ensures forall i :: 0 <= i < |lines| ==> r[i + 1] == lines[i]
  {
    var border := FloorRow(|lines[0]|);
    [border] + lines + [border]
  }

  /** Every row has the width of the first, which is at least one, and there are at
      least two rows: the shape on which the source's window slicing stays in bounds. */
  predicate IsRect(g: Grid) {
    |g| >= 2 && |g[0]| >= 1 && forall r :: 0 <= r < |g| ==> |g[r]| == |g[0]|
  }

  predicate SameShape(a: Grid, b: Grid) {
    |a| == |b| && forall r :: 0 <= r < |a| ==> |a[r]| == |b[r]|
  }

  /** Cells that a step recomputes; all others form the border. */
  predicate Interior(g: Grid, r: int, c: int) {
    0 < r < |g| - 1 && 0 <= r < |g| && 0 < c < |g[r]| - 1
  }

  /** Cell `c` of row `r` of both grids is on the border and holds the same state. */
  predicate BorderAgrees(a: Grid, b: Grid, r: int, c: int)
    requires SameShape(a, b) && 0 <= r < |a| && 0 <= c < |a[r]|
  {
    !Interior(a, r, c) ==> a[r][c] == b[r][c]
  }

  lemma SameBorderSymmetric(a: Grid, b: Grid)
    requires SameBorder(a, b)
    ensures SameBorder(b, a)
  {
    forall r, c | 0 <= r < |b| && 0 <= c < |b[r]|
      ensures BorderAgrees(b, a, r, c)
    {
      assert BorderAgrees(a, b, r, c);
    }
  }

  lemma SameBorderTransitive(a: Grid, b: Grid, c: Grid)
    requires SameBorder(a, b) && SameBorder(b, c)
    ensures SameBorder(a, c)
  {
    forall i, j | 0 <= i < |a| && 0 <= j < |a[i]|
      ensures BorderAgrees(a, c, i, j)
    {
      assert BorderAgrees(a, b, i, j) && BorderAgrees(b, c, i, j);
    }
  }

  /** Same shape, and equal on every border cell. */
  predicate SameBorder(a: Grid, b: Grid) {
    SameShape(a, b) &&
    forall r, c :: 0 <= r < |a| && 0 <= c < |a[r]| ==> BorderAgrees(a, b, r, c)
  }

  function CountFull(cells: seq<SeatState>): (n: nat)
    ensures n <= |cells|
    ensures n == 0 <==> Full !in cells
  {
    if cells == [] then 0 else (if cells[0] == Full then 1 else 0) + CountFull(cells[1..])
  }

  /** Number of Full cells in the 3x3 window centred on an interior cell,
      the cell itself included. */
  function WindowCount(g: Grid, r: nat, c: nat): nat
    requires IsRect(g) && Interior(g, r, c)
  {
    CountFull(g[r - 1][c - 1..c + 2]) + CountFull(g[r][c - 1..c + 2]) + CountFull(g[r + 1][c - 1..c + 2])
  }

  /** The rule of one cell: Floor is inert, an Empty seat fills when its window
      holds no Full seat, a Full seat empties when its window holds more than 4. */
  function NextSeat(s: SeatState, count: nat): SeatState {
    match s
    case Floor => Floor
    case Empty => if count == 0 then Full else Empty
    case Full => if count > 4 then Empty else Full
  }

  /** The content of `dst` after a step from `src`: interior cells follow the rule
      applied to `src`, border cells keep what `dst` held. */
  function StepInto(src: Grid, dst: Grid): (r: Grid)
    requires IsRect(src) && SameShape(src, dst)
    ensures SameShape(src, r) && SameBorder(dst, r)
    ensures forall i, j :: Interior(src, i, j) ==> r[i][j] == NextSeat(src[i][j], WindowCount(src, i, j))
  {
    seq(|dst|, i requires 0 <= i < |dst| =>
      seq(|dst[i]|, j requires 0 <= j < |dst[i]| =>
        if Interior(src, i, j) then NextSeat(src[i][j], WindowCount(src, i, j)) else dst[i][j]))
  }

  /** One generation of a map whose border is already in place. */
  function Next(g: Grid): (r: Grid)
    requires IsRect(g)
    ensures IsRect(r) && SameBorder(g, r)
  {
    StepInto(g, g)
  }

  /** The map after `n` generations. */
  function Iterate(g: Grid, n: nat): (r: Grid)
    requires n == 0 || IsRect(g)
    ensures IsRect(g) ==> IsRect(r) && SameBorder(g, r)
    decreases n
  {
    if n == 0 then g
    else
      var prev := Iterate(g, n - 1);
      SameBorderTransitive(g, prev, Next(prev));
      Next(prev)
  }

  class SeatMap {
    var rows: Grid

    constructor (rows: Grid)
      ensures this.rows == rows
    {
      this.rows := rows;
    }

    /** `SeatMap::parse`, building the two border rows by pushing Floor cells. */
    static method Parse(s: string) returns (r: Result<SeatMap>)
      ensures r.Ok? <==> ParseSeatMap(s).Ok?
      ensures r.Ok? ==> fresh(r.value) && r.value.rows == ParseSeatMap(s).value
    {
      var lines :- PadLines(Lines(s));
      if |lines| == 0 {
        return Err;
      }
      var expected := |lines[0]|;
      var empty: seq<SeatState> := [];
      while |empty| < expected
        invariant |empty| <= expected
        invariant forall k :: 0 <= k < |empty| ==> empty[k] == Floor
      {
        empty := empty + [Floor];
      }
      assert empty == FloorRow(expected);
      var framed := [empty] + lines;
      framed := framed + [empty];
      assert framed == Frame(lines);
      var seats := new SeatMap(framed);
      return Ok(seats);
    }

    /** `SeatMap::step`: writes the next generation of `source` into the
        interior of `dest`, row by row and column by column. */
    static method Step(source: SeatMap, dest: SeatMap)
      requires source != dest
      requires IsRect(source.rows) && SameShape(source.rows, dest.rows)
      modifies dest
      ensures dest.rows == StepInto(source.rows, old(dest.rows))
    {
      var g := source.rows;
      var h, w := |g|, |g[0]|;
      ghost var before := dest.rows;
      SteppedStart(g, before);
      var row := 0;
      while row < h - 2
        invariant 0 <= row <= h - 2
        invariant g == source.rows
        invariant SteppedTo(g, before, dest.rows, row, 0)
      {
        SteppedRowStart(g, before, dest.rows, row);
        var col := 1;
        while col < w - 1
          invariant 1 <= col <= if w > 1 then w - 1 else 1
          invariant g == source.rows
          invariant SteppedTo(g, before, dest.rows, row, col)
        {
          var count := CountFull(g[row][col - 1..col + 2]) + CountFull(g[row + 1][col - 1..col + 2])
                       + CountFull(g[row + 2][col - 1..col + 2]);
          var value := NextSeat(g[row + 1][col], count);
          SteppedCell(g, before, dest.rows, row, col, value);
          dest.rows := dest.rows[row + 1 := dest.rows[row + 1][col := value]];
          col := col + 1;
        }
        SteppedRowEnd(g, before, dest.rows, row, col);
        row := row + 1;
      }
      SteppedAll(g, before, dest.rows);
    }
  }

  /** `d` holds the next generation of `src` in the interior cells that come
      before cell `col` of row `row + 1` in row-major order, and what `before`
      held everywhere else. */
  ghost predicate SteppedTo(src: Grid, before: Grid, d: Grid, row: int, col: int)
    requires IsRect(src) && SameShape(src, before)
  {
    SameShape(src, d) &&
    forall i, j :: 0 <= i < |d| && 0 <= j < |d[i]| ==>
      d[i][j] == (if Interior(src, i, j) && (i <= row || (i == row + 1 && j < col))
                  then NextSeat(src[i][j], WindowCount(src, i, j)) else before[i][j])
  }

  lemma SteppedStart(src: Grid, before: Grid)
    requires IsRect(src) && SameShape(src, before)
    ensures SteppedTo(src, before, before, 0, 0)
  {
  }

  lemma SteppedRowStart(src: Grid, before: Grid, d: Grid, row: int)
    requires IsRect(src) && SameShape(src, before) && SteppedTo(src, before, d, row, 0)
    ensures SteppedTo(src, before, d, row, 1)
  {
  }

  /** Writing the rule's value into the next cell extends the stepped region by one. */
  lemma SteppedCell(src: Grid, before: Grid, d: Grid, row: nat, col: nat, value: SeatState)
    requires IsRect(src) && SameShape(src, before) && SteppedTo(src, before, d, row, col)
    requires row < |src| - 2 && 1 <= col < |src[0]| - 1
    requires value == NextSeat(src[row + 1][col], WindowCount(src, row + 1, col))
    ensures SteppedTo(src, before, d[row + 1 := d[row + 1][col := value]], row, col + 1)
  {
    var e := d[row + 1 := d[row + 1][col := value]];
    assert SameShape(src, e) by {
      forall i | 0 <= i < |e|
        ensures |e[i]| == |src[i]|
      {
        if i == row + 1 {
          assert |e[i]| == |d[i]|;
        }
      }
    }
    forall i, j | 0 <= i < |e| && 0 <= j < |e[i]|
      ensures e[i][j] == (if Interior(src, i, j) && (i <= row || (i == row + 1 && j < col + 1))
                          then NextSeat(src[i][j], WindowCount(src, i, j)) else before[i][j])
    {
      SteppedCellAt(src, before, d, row, col, value, i, j);
    }
  }

  /** The cell `(i, j)` after writing the next cell, from its value before. */
  lemma SteppedCellAt(src: Grid, before: Grid, d: Grid, row: nat, col: nat, value: SeatState, i: nat, j: nat)
    requires IsRect(src) && SameShape(src, before) && SteppedTo(src, before, d, row, col)
    requires row < |src| - 2 && 1 <= col < |src[0]| - 1
    requires value == NextSeat(src[row + 1][col], WindowCount(src, row + 1, col))
    requires i < |d| && j < |d[i]|
    ensures var e := d[row + 1 := d[row + 1][col := value]];
      j < |e[i]| &&
      e[i][j] == (if Interior(src, i, j) && (i <= row || (i == row + 1 && j < col + 1))
                  then NextSeat(src[i][j], WindowCount(src, i, j)) else before[i][j])
  {
    var e := d[row + 1 := d[row + 1][col := value]];
    if i != row + 1 {
      assert e[i] == d[i];
    } else if j != col {
      assert e[i][j] == d[i][j];
    } else {
      assert Interior(src, i, j) && e[i][j] == value;
      return;
    }
    assert d[i][j] == (if Interior(src, i, j) && (i <= row || (i == row + 1 && j < col))
                       then NextSeat(src[i][j], WindowCount(src, i, j)) else before[i][j]);
  }

  lemma SteppedRowEnd(src: Grid, before: Grid, d: Grid, row: int, col: int)
    requires IsRect(src) && SameShape(src, before) && SteppedTo(src, before, d, row, col)
    requires col >= |src[0]| - 1
    ensures SteppedTo(src, before, d, row + 1, 0)
  {
  }

  /** Once every interior row is stepped, `d` is the step of `src` into `before`. */
  lemma SteppedAll(src: Grid, before: Grid, d: Grid)
    requires IsRect(src) && SameShape(src, before) && SteppedTo(src, before, d, |src| - 2, 0)
    ensures d == StepInto(src, before)
  {
    var e := StepInto(src, before);
    assert forall i :: 0 <= i < |d| ==> d[i] == e[i];
  }

  /** `SeatMapPair`: two buffers of the same shape and a generation counter whose
      parity says which buffer is current. */
  class SeatMapPair {
    var generation: nat
    const first: SeatMap
    const second: SeatMap
    /** The parsed map the generations are counted from. */
    ghost var initial: Grid

    /** `SeatMapPair::current`: the first buffer on even generations, the second on odd. */
    function Current(): SeatMap
      reads this
    {
      if generation % 2 == 0 then first else second
    }

    /** The buffer `Current` does not select. */
    function Other(): SeatMap
      reads this
    {
      if generation % 2 == 0 then second else first
    }

    /** The current buffer holds generation `generation` of the initial map,
        the other buffer the generation before (or the initial map itself). */
    ghost predicate Valid()
      reads this, first, second
    {
      first != second &&
      SameBorder(first.rows, second.rows) &&
      (generation > 0 ==> IsRect(initial)) &&
      Current().rows == Iterate(initial, generation) &&
      Other().rows == Iterate(initial, if generation == 0 then 0 else generation - 1)
    }

    constructor FromMap(seats: SeatMap)
      ensures Valid() && fresh(second)
      ensures generation == 0 && first == seats && initial == seats.rows
      ensures Current().rows == seats.rows && Other().rows == seats.rows
    {
      generation := 0;
      first := seats;
      second := new SeatMap(seats.rows);
      initial := seats.rows;
    }

    /** `SeatMapPair::parse`: the parsed seats, a copy of it, and generation 0. */
    static method Parse(s: string) returns (r: Result<SeatMapPair>)
      ensures r.Ok? <==> ParseSeatMap(s).Ok?
      ensures r.Ok? ==> fresh(r.value) && fresh(r.value.first) && fresh(r.value.second)
      ensures r.Ok? ==> r.value.Valid() && r.value.generation == 0 && r.value.initial == ParseSeatMap(s).value
    {
      var seats :- SeatMap.Parse(s);
      var pair := new SeatMapPair.FromMap(seats);
      return Ok(pair);
    }

    /** `SeatMapPair::step`: the current buffer is stepped into the other one,
        which then becomes current; the old current buffer is left as it was. */
    method Step()
      requires Valid() && IsRect(Current().rows)
      modifies this, first, second
      ensures Valid() && generation == old(generation) + 1 && initial == old(initial)
      ensures Current().rows == Next(old(Current().rows))
      ensures Other().rows == old(Current().rows)
    {
      var active, next := Current(), Other();
      ghost var src, dst := active.rows, next.rows;
      StepKeepsGenerations(initial, generation, src, dst);
      SeatMap.Step(active, next);
      ParityFlips(generation);
      generation := generation + 1;
      assert Current() == next && Other() == active;
      assert next.rows == Iterate(initial, generation);
      assert active.rows == Iterate(initial, generation - 1);
      assert SameBorder(first.rows, second.rows);
    }
  }

  lemma ParityFlips(n: nat)
    ensures (n + 1) % 2 == 0 <==> n % 2 != 0
  {
  }

  /** What `SeatMapPair::step` relies on: the stepped buffer receives the next
      generation, and the two buffers still agree on the border. */
  lemma StepKeepsGenerations(initial: Grid, n: nat, src: Grid, dst: Grid)
    requires IsRect(src) && (SameBorder(src, dst) || SameBorder(dst, src))
    requires n > 0 ==> IsRect(initial)
    requires src == Iterate(initial, n)
    ensures IsRect(initial) && StepInto(src, dst) == Next(src) == Iterate(initial, n + 1)
    ensures SameBorder(src, Next(src)) && SameBorder(Next(src), src)
  {
    if !SameBorder(src, dst) {
      SameBorderSymmetric(dst, src);
    }
    StepIntoBorderAgnostic(src, dst);
    SameBorderSymmetric(src, Next(src));
  }

  /** Stepping into any buffer that agrees with the source on the border gives
      the next generation of the source. */
  lemma StepIntoBorderAgnostic(src: Grid, dst: Grid)
    requires IsRect(src) && SameBorder(src, dst)
    ensures StepInto(src, dst) == Next(src)
  {
    var a, b := StepInto(src, dst), Next(src);
    forall i | 0 <= i < |a|
      ensures a[i] == b[i]
    {
      forall j | 0 <= j < |a[i]|
        ensures a[i][j] == b[i][j]
      {
        if !Interior(src, i, j) {
          assert BorderAgrees(src, dst, i, j) && BorderAgrees(dst, a, i, j) && BorderAgrees(src, b, i, j);
        }
      }
    }
  }

  lemma CountFullIn(cells: seq<SeatState>)
    ensures CountFull(cells) == 0 <==> forall k :: 0 <= k < |cells| ==> cells[k] != Full
  {
  }

  lemma NextCell(g: Grid, r: nat, c: nat)
    requires IsRect(g) && Interior(g, r, c)
    ensures Next(g)[r][c] == NextSeat(g[r][c], WindowCount(g, r, c))
  {
  }

  /** The window count is zero exactly when no cell of the 3x3 window is Full. */
  lemma WindowWithoutFull(g: Grid, r: nat, c: nat)
    requires IsRect(g) && Interior(g, r, c)
    ensures WindowCount(g, r, c) == 0 <==>
      forall i, j :: r - 1 <= i <= r + 1 && c - 1 <= j <= c + 1 ==> g[i][j] != Full
  {
    var above, here, below := g[r - 1][c - 1..c + 2], g[r][c - 1..c + 2], g[r + 1][c - 1..c + 2];
    CountFullIn(above);
    CountFullIn(here);
    CountFullIn(below);
    if WindowCount(g, r, c) == 0 {
      forall i, j | r - 1 <= i <= r + 1 && c - 1 <= j <= c + 1
        ensures g[i][j] != Full
      {
        assert g[i][j] == g[i][c - 1..c + 2][j - c + 1];
      }
    }
    if forall i, j :: r - 1 <= i <= r + 1 && c - 1 <= j <= c + 1 ==> g[i][j] != Full {
      forall k | 0 <= k < 3
        ensures above[k] != Full && here[k] != Full && below[k] != Full
      {
        assert above[k] == g[r - 1][c - 1 + k];
        assert here[k] == g[r][c - 1 + k];
        assert below[k] == g[r + 1][c - 1 + k];
      }
    }
  }

  /** The window of a Full seat counts the seat itself, and at most nine cells. */
  lemma WindowCountsSelf(g: Grid, r: nat, c: nat)
    requires IsRect(g) && Interior(g, r, c) && g[r][c] == Full
    ensures 1 <= WindowCount(g, r, c) <= 9
  {
    var here := g[r][c - 1..c + 2];
    assert here[1] == Full;
  }

  /** The rule of a step, cell by cell: Floor stays Floor and nothing else
      becomes Floor; an Empty seat becomes Full exactly when no cell of its 3x3
      window is Full, and stays Empty otherwise; a Full seat becomes Empty
      exactly when its window (which counts the seat itself) holds more than 4
      Full cells. */
  lemma StepRule(g: Grid, r: nat, c: nat)
    requires IsRect(g) && Interior(g, r, c)
    ensures Next(g)[r][c] == Floor <==> g[r][c] == Floor
    ensures g[r][c] == Empty ==>
      (Next(g)[r][c] == Full <==> forall i, j :: r - 1 <= i <= r + 1 && c - 1 <= j <= c + 1 ==> g[i][j] != Full)
    ensures g[r][c] == Empty && Next(g)[r][c] != Full ==> Next(g)[r][c] == Empty
    ensures g[r][c] == Full ==> (Next(g)[r][c] == Empty <==> WindowCount(g, r, c) > 4)
    ensures g[r][c] == Full && Next(g)[r][c] != Empty ==> Next(g)[r][c] == Full
  {
    NextCell(g, r, c);
    WindowWithoutFull(g, r, c);
  }

  /** A Floor cell stays Floor in every later generation. */
  lemma {:induction false} FloorForever(g: Grid, n: nat, r: nat, c: nat)
    requires IsRect(g) && r < |g| && c < |g[r]| && g[r][c] == Floor
    ensures Iterate(g, n)[r][c] == Floor
    decreases n
  {
    if n > 0 {
      var prev := Iterate(g, n - 1);
      FloorForever(g, n - 1, r, c);
      assert Iterate(g, n) == Next(prev);
      assert r < |prev| && c < |prev[r]| && prev[r][c] == Floor;
      if Interior(prev, r, c) {
        NextCell(prev, r, c);
      } else {
        assert BorderAgrees(prev, Next(prev), r, c);
      }
    }
  }

  /** Every generation of a parsed rectangular map keeps its one-cell Floor border. */
  lemma BorderStaysFloor(s: string, n: nat, r: nat, c: nat)
    requires ParseSeatMap(s).Ok? && IsRect(ParseSeatMap(s).value)
    requires r < |ParseSeatMap(s).value| && c < |ParseSeatMap(s).value[0]|
    requires !Interior(ParseSeatMap(s).value, r, c)
    ensures Iterate(ParseSeatMap(s).value, n)[r][c] == Floor
  {
    var g := ParseSeatMap(s).value;
    var lines := Lines(s);
    assert g[r][c] == Floor by {
      if 0 < r < |g| - 1 {
        var line := lines[r - 1];
        assert |g[r]| == |line| + 2;
      }
    }
    assert BorderAgrees(g, Iterate(g, n), r, c);
  }

  lemma DecodeSingle(c: char)
    requires SeatFromByte(c).Ok?
    ensures DecodeLine([c]) == Ok([SeatFromByte(c).value])
  {
    var v := SeatFromByte(c).value;
    assert [c][1..] == [];
    assert DecodeLine([]) == Ok([]);
    assert [v] + [] == [v];
  }

  lemma PadSingle(line: string)
    requires DecodeLine(line).Ok?
    ensures PadLines([line]) == Ok([[Floor] + DecodeLine(line).value + [Floor]])
  {
    var row := [Floor] + DecodeLine(line).value + [Floor];
    assert [line][1..] == [];
    assert PadLines([]) == Ok([]);
    assert [row] + [] == [row];
  }

  /** The single seat "L", framed by Floor. */
  lemma CanParse()
    ensures ParseSeatMap("L") == Ok([FloorRow(3), [Floor, Empty, Floor], FloorRow(3)])
  {
    LinesOne("L");
    DecodeSingle('L');
    PadSingle("L");
    assert [Floor] + [Empty] + [Floor] == [Floor, Empty, Floor];
    assert ParseSeatMap("L") == Ok(Frame([[Floor, Empty, Floor]]));
    assert Frame([[Floor, Empty, Floor]]) == [FloorRow(3), [Floor, Empty, Floor], FloorRow(3)];
  }

  /** The single occupied seat "#", framed by Floor. */
  lemma CanParseFull()
    ensures ParseSeatMap("#") == Ok([FloorRow(3), [Floor, Full, Floor], FloorRow(3)])
  {
    LinesOne("#");
    DecodeSingle('#');
    PadSingle("#");
    assert [Floor] + [Full] + [Floor] == [Floor, Full, Floor];
    assert ParseSeatMap("#") == Ok(Frame([[Floor, Full, Floor]]));
    assert Frame([[Floor, Full, Floor]]) == [FloorRow(3), [Floor, Full, Floor], FloorRow(3)];
  }

  /** The lone Empty seat of a 3x3 map sees no Full seat and fills. */
  lemma LoneSeatFills()
    ensures Next([FloorRow(3), [Floor, Empty, Floor], FloorRow(3)]) == [FloorRow(3), [Floor, Full, Floor], FloorRow(3)]
  {
    var g := [FloorRow(3), [Floor, Empty, Floor], FloorRow(3)];
    var want := [FloorRow(3), [Floor, Full, Floor], FloorRow(3)];
    var next := Next(g);
    assert WindowCount(g, 1, 1) == 0 by {
      assert g[0][0..3] == g[2][0..3] == FloorRow(3);
      assert g[1][0..3] == [Floor, Empty, Floor];
    }
    NextCell(g, 1, 1);
    forall i, j | 0 <= i < 3 && 0 <= j < 3 && !Interior(g, i, j)
      ensures next[i][j] == Floor
    {
      assert BorderAgrees(g, next, i, j);
    }
    assert next[0] == want[0] && next[1] == want[1] && next[2] == want[2];
  }

  /** Stepping the map of "L" gives the map of "#". */
  lemma CanStep()
    ensures ParseSeatMap("L").Ok? && IsRect(ParseSeatMap("L").value)
    ensures ParseSeatMap("#") == Ok(Next(ParseSeatMap("L").value))
  {
    CanParse();
    CanParseFull();
    LoneSeatFills();
  }

  /** Text whose lines all decode is accepted, whatever their widths. */
  lemma ParsesWhenLinesDecode(s: string, lines: seq<string>)
    requires Lines(s) == lines && |lines| > 0
    requires forall i :: 0 <= i < |lines| ==> DecodeLine(lines[i]).Ok?
    ensures ParseSeatMap(s).Ok?
  {
  }

  lemma RaggedLines()
    ensures Lines("L\nLL") == ["L", "LL"]
  {
    assert "L\nLL" == "L" + "\n" + "LL";
    LinesCons("L", "LL");
    LinesOne("LL");
  }

  lemma RaggedDecodes(lines: seq<string>)
    requires lines == ["L", "LL"]
    ensures forall i :: 0 <= i < |lines| ==> DecodeLine(lines[i]).Ok?
  {
    assert DecodeLine(lines[0]).Ok? && DecodeLine(lines[1]).Ok?;
  }

  /** Lines of different widths are not rejected. */
  lemma RaggedAccepted()
    ensures ParseSeatMap("L\nLL").Ok?
  {
    RaggedLines();
    RaggedDecodes(["L", "LL"]);
    ParsesWhenLinesDecode("L\nLL", ["L", "LL"]);
  }

  /** The character a seat is written as once it is occupied; Floor stays '.'. */
  function Filled(c: char): char {
    if c == 'L' then '#' else c
  }

  /** Two rows of text of the same width: the first holds only Floor and
      Empty seats, the second the same with every seat occupied. */
  predicate FilledRow(before: string, after: string) {
    |before| == |after| &&
    forall j :: 0 <= j < |before| ==> (before[j] == '.' || before[j] == 'L') && after[j] == Filled(before[j])
  }

  /** The lines of a rectangular map without occupied seats, and the lines of
      the same map with every seat occupied. */
  predicate FilledLines(before: seq<string>, after: seq<string>) {
    |before| == |after| > 0 &&
    forall i :: 0 <= i < |before| ==> |before[i]| == |before[0]| && FilledRow(before[i], after[i])
  }

  /** A parsed cell off the border of a rectangular map shows the character
      of its line, and a border cell is Floor. */
  lemma ParsedCell(s: string, r: nat, c: nat)
    requires ParseSeatMap(s).Ok? && IsRect(ParseSeatMap(s).value)
    requires r < |ParseSeatMap(s).value| && c < |ParseSeatMap(s).value[0]|
    ensures Interior(ParseSeatMap(s).value, r, c) ==> Display(ParseSeatMap(s).value[r][c]) == Lines(s)[r - 1][c - 1]
    ensures !Interior(ParseSeatMap(s).value, r, c) ==> ParseSeatMap(s).value[r][c] == Floor
  {
    var g := ParseSeatMap(s).value;
    if !Interior(g, r, c) {
      BorderStaysFloor(s, 0, r, c);
    } else {
      var line := Lines(s)[r - 1];
      assert |g[r]| == |line| + 2;
    }
  }

  /** Text laid out as a rectangle of seats parses to a rectangular map. */
  lemma FilledLinesParse(s0: string, s1: string)
    requires FilledLines(Lines(s0), Lines(s1))
    ensures ParseSeatMap(s0).Ok? && IsRect(ParseSeatMap(s0).value)
    ensures ParseSeatMap(s1).Ok? && IsRect(ParseSeatMap(s1).value)
    ensures SameShape(ParseSeatMap(s0).value, ParseSeatMap(s1).value)
  {
    var before, after := Lines(s0), Lines(s1);
    forall i | 0 <= i < |before|
      ensures DecodeLine(before[i]).Ok? && DecodeLine(after[i]).Ok?
    {
      assert FilledRow(before[i], after[i]);
    }
    var g0, g1 := ParseSeatMap(s0).value, ParseSeatMap(s1).value;
    forall r | 0 <= r < |g0|
      ensures |g0[r]| == |before[0]| + 2 && |g1[r]| == |before[0]| + 2
    {
      if 0 < r < |g0| - 1 {
        assert FilledRow(before[r - 1], after[r - 1]);
      }
    }
  }

  /** The map of a rectangle of Floor and Empty seats holds no Full seat. */
  lemma FilledLinesNoneFull(s0: string, s1: string)
    requires FilledLines(Lines(s0), Lines(s1))
    requires ParseSeatMap(s0).Ok? && IsRect(ParseSeatMap(s0).value)
    ensures NoneFull(ParseSeatMap(s0).value)
  {
    var g0 := ParseSeatMap(s0).value;
    forall r, c | 0 <= r < |g0| && 0 <= c < |g0[r]|
      ensures g0[r][c] != Full
    {
      ParsedCell(s0, r, c);
      if Interior(g0, r, c) {
        assert FilledRow(Lines(s0)[r - 1], Lines(s1)[r - 1]);
      }
    }
  }

  /** No cell of the map is a Full seat. */
  predicate NoneFull(g: Grid) {
    forall r, c :: 0 <= r < |g| && 0 <= c < |g[r]| ==> g[r][c] != Full
  }

  /** Every interior cell of `after` is the cell of `before` with an Empty seat
      filled, and the border is the same. */
  predicate AllFilled(before: Grid, after: Grid) {
    SameShape(before, after) &&
    forall r, c :: 0 <= r < |before| && 0 <= c < |before[r]| ==>
      after[r][c] == (if Interior(before, r, c) then NextSeat(before[r][c], 0) else before[r][c])
  }

  /** One cell of the step of a map without Full seats. */
  lemma NoneFullCell(g: Grid, r: nat, c: nat)
    requires IsRect(g) && NoneFull(g) && r < |g| && c < |g[r]|
    ensures Next(g)[r][c] == (if Interior(g, r, c) then NextSeat(g[r][c], 0) else g[r][c])
  {
    if Interior(g, r, c) {
      NextCell(g, r, c);
      WindowWithoutFull(g, r, c);
    } else {
      assert BorderAgrees(g, Next(g), r, c);
    }
  }

  /** In a map with no Full seat no window holds one, so one step fills every
      Empty seat and changes nothing else. */
  lemma NoneFullFills(g: Grid)
    requires IsRect(g) && NoneFull(g)
    ensures AllFilled(g, Next(g))
  {
    forall r, c | 0 <= r < |g| && 0 <= c < |g[r]|
      ensures Next(g)[r][c] == (if Interior(g, r, c) then NextSeat(g[r][c], 0) else g[r][c])
    {
      NoneFullCell(g, r, c);
    }
  }

  /** A grid is determined by its shape and its cells. */
  lemma FilledUnique(g: Grid, a: Grid, b: Grid)
    requires AllFilled(g, a) && AllFilled(g, b)
    ensures a == b
  {
    forall r | 0 <= r < |g|
      ensures a[r] == b[r]
    {
      assert |a[r]| == |b[r]| == |g[r]|;
      forall c | 0 <= c < |g[r]|
        ensures a[r][c] == b[r][c]
      {
      }
    }
  }

  /** A seat written as the filled character of a Floor or Empty seat is that
      seat with an Empty seat filled. */
  lemma FilledDisplay(a: SeatState, b: SeatState)
    requires a != Full && Display(b) == Filled(Display(a))
    ensures b == NextSeat(a, 0)
  {
  }

  /** One cell of the map of the filled text. */
  lemma ParsedFilledCell(s0: string, s1: string, r: nat, c: nat)
    requires FilledLines(Lines(s0), Lines(s1))
    requires ParseSeatMap(s0).Ok? && IsRect(ParseSeatMap(s0).value)
    requires ParseSeatMap(s1).Ok? && IsRect(ParseSeatMap(s1).value)
    requires SameShape(ParseSeatMap(s0).value, ParseSeatMap(s1).value)
    requires r < |ParseSeatMap(s0).value| && c < |ParseSeatMap(s0).value[r]|
    ensures var g0, g1 := ParseSeatMap(s0).value, ParseSeatMap(s1).value;
      g1[r][c] == (if Interior(g0, r, c) then NextSeat(g0[r][c], 0) else g0[r][c])
  {
    var g0, g1 := ParseSeatMap(s0).value, ParseSeatMap(s1).value;
    ParsedCell(s0, r, c);
    ParsedCell(s1, r, c);
    if Interior(g0, r, c) {
      var before, after := Lines(s0)[r - 1], Lines(s1)[r - 1];
      assert FilledRow(before, after);
      FilledDisplay(g0[r][c], g1[r][c]);
    }
  }

  /** The map of the filled text is the map of the first text with every Empty seat filled. */
  lemma ParsedFilled(s0: string, s1: string)
    requires FilledLines(Lines(s0), Lines(s1))
    requires ParseSeatMap(s0).Ok? && IsRect(ParseSeatMap(s0).value)
    requires ParseSeatMap(s1).Ok? && IsRect(ParseSeatMap(s1).value)
    requires SameShape(ParseSeatMap(s0).value, ParseSeatMap(s1).value)
    ensures AllFilled(ParseSeatMap(s0).value, ParseSeatMap(s1).value)
  {
    var g0, g1 := ParseSeatMap(s0).value, ParseSeatMap(s1).value;
    forall r, c | 0 <= r < |g0| && 0 <= c < |g0[r]|
      ensures g1[r][c] == (if Interior(g0, r, c) then NextSeat(g0[r][c], 0) else g0[r][c])
    {
      ParsedFilledCell(s0, s1, r, c);
    }
  }

  /** A rectangular map with no occupied seat fills every seat in one step:
      the next generation is the map of the same text with every `L` written `#`. */
  lemma EmptyMapFills(s0: string, s1: string)
    requires FilledLines(Lines(s0), Lines(s1))
    ensures ParseSeatMap(s0).Ok? && IsRect(ParseSeatMap(s0).value)
    ensures ParseSeatMap(s1) == Ok(Next(ParseSeatMap(s0).value))
  {
    FilledLinesParse(s0, s1);
    FilledLinesNoneFull(s0, s1);
    var g0 := ParseSeatMap(s0).value;
    NoneFullFills(g0);
    ParsedFilled(s0, s1);
    FilledUnique(g0, Next(g0), ParseSeatMap(s1).value);
  }

  /** The waiting area of the example, before anyone has sat down: its rows
      joined by line feeds. */
  function Example0(): string {
    Join(Example0Rows(), "\n")
  }

  /** The same waiting area after one generation. */
  function Example1(): string {
    Join(Example1Rows(), "\n")
  }

  function Example0Rows(): seq<string> {
    [
      "L.LL.LL.LL",
      "LLLLLLL.LL",
      "L.L.L..L..",
      "LLLL.LL.LL",
      "L.LL.LL.LL",
      "L.LLLLL.LL",
      "..L.L.....",
      "LLLLLLLLLL",
      "L.LLLLLL.L",
      "L.LLLLL.LL"
    ]
  }

  function Example1Rows(): seq<string> {
    [
      "#.##.##.##",
      "#######.##",
      "#.#.#..#..",
      "####.##.##",
      "#.##.##.##",
      "#.#####.##",
      "..#.#.....",
      "##########",
      "#.######.#",
      "#.#####.##"
    ]
  }

  /** The rows of both examples are lines without line feeds or carriage returns. */
  lemma ExampleRowsPlain(rows: seq<string>)
    requires rows == Example0Rows() || rows == Example1Rows()
    ensures |rows| >= 1
    ensures forall k :: 0 <= k < |rows| ==> rows[k] != "" && '\n' !in rows[k]
    ensures forall k :: 0 <= k < |rows| ==> rows[k][|rows[k]| - 1] != '\r'
  {
  }

  /** Rows 0 to 4 of the second example are those of the first with every seat occupied. */
  lemma ExampleTopFilled(before: seq<string>, after: seq<string>, i: nat)
    requires before == Example0Rows() && after == Example1Rows() && i < 5
    ensures |before[i]| == 10 && FilledRow(before[i], after[i])
  {
  }

  /** Rows 5 to 9 of the second example are those of the first with every seat occupied. */
  lemma ExampleBottomFilled(before: seq<string>, after: seq<string>, i: nat)
    requires before == Example0Rows() && after == Example1Rows() && 5 <= i < 10
    ensures |before[i]| == 10 && FilledRow(before[i], after[i])
  {
  }

  /** Row by row, the second example is the first with every seat occupied. */
  lemma ExampleRowsFilled(before: seq<string>, after: seq<string>)
    requires before == Example0Rows() && after == Example1Rows()
    ensures FilledLines(before, after)
  {
    forall i | 0 <= i < |before|
      ensures |before[i]| == 10 && FilledRow(before[i], after[i])
    {
      if i < 5 {
        ExampleTopFilled(before, after, i);
      } else {
        ExampleBottomFilled(before, after, i);
      }
    }
  }

  /** `SeatMapPair::parse(EXAMPLE_0)` stepped once is the map of `EXAMPLE_1`. */
  lemma CanStepExample()
    ensures ParseSeatMap(Example0()).Ok? && IsRect(ParseSeatMap(Example0()).value)
    ensures ParseSeatMap(Example1()) == Ok(Next(ParseSeatMap(Example0()).value))
  {
    ExampleRowsPlain(Example0Rows());
    ExampleRowsPlain(Example1Rows());
    LinesJoin(Example0Rows());
    LinesJoin(Example1Rows());
    ExampleRowsFilled(Example0Rows(), Example1Rows());
    EmptyMapFills(Example0(), Example1());
  }
}
