/** The key of the book (poem) cipher: the letters of a poem, upper-cased,
    laid out row by row in a square grid padded with '_', and the map from
    each letter to the coordinates "row/col" of the cells holding it, in
    reading order. */
module BookKeys {
  import opened Results
  import opened JsText
  import Letters

  /** The size the constructor defaults to, and the size the page asks for. */
  const DefaultGridSize: nat := 10

  /** The padding of cells beyond the end of the poem. */
  const Blank: char := '_'

  /* ---------------------------------------------------------------------
     The grid
     --------------------------------------------------------------------- */

  /** `text.replace(/[^а-яіїєґА-ЯІЇЄҐA-Za-z]/g, '').toUpperCase()`: the
      letters of the class, in order, in capital form. */
  function CleanText(text: string): (r: string)
    ensures |r| <= |text|
    ensures forall i | 0 <= i < |r| :: Letters.IsCapital(r[i])
  {
    if text == [] then []
    else if Letters.IsClassLetter(text[0]) then
      Letters.CaseFacts(text[0]);
      [Letters.UpperOf(text[0])] + CleanText(text[1..])
    else CleanText(text[1..])
  }

  /** Cleaning keeps exactly the letters of the class, in order and in
      capital form: one character yields its capital when it is in the class
      and nothing otherwise, and cleaning a concatenation cleans each part. */
  lemma {:induction false} CleanTextAppend(x: string, y: string)
    ensures |x| == 1 ==>
      CleanText(x) == if Letters.IsClassLetter(x[0]) then [Letters.UpperOf(x[0])] else []
    ensures CleanText(x + y) == CleanText(x) + CleanText(y)
  {
    if x == [] {
      assert x + y == y;
    } else {
      assert (x + y)[0] == x[0];
      assert (x + y)[1..] == x[1..] + y;
      CleanTextAppend(x[1..], y);
      if |x| == 1 {
        assert x[1..] == [];
      }
    }
  }

  /** A text of capitals is already clean. */
  lemma {:induction false} CleanCapitals(s: string)
    requires forall i | 0 <= i < |s| :: Letters.IsCapital(s[i])
    ensures CleanText(s) == s
  {
    if s != [] {
      Letters.CaseFacts(s[0]);
      CleanCapitals(s[1..]);
    }
  }

  /** Cleaning is idempotent. */
  lemma CleanTwice(text: string)
    ensures CleanText(CleanText(text)) == CleanText(text)
  {
    CleanCapitals(CleanText(text));
  }

  /** `cleanText[idx] || '_'`: the letter at `idx`, or the padding past the
      end. */
  function PadCell(clean: string, idx: nat): char {
    if idx < |clean| then clean[idx] else Blank
  }

  /** The first `n` cells of the reading order. */
  function Padded(clean: string, n: nat): (r: string)
    ensures |r| == n
  {
    seq(n, i requires 0 <= i < n => PadCell(clean, i))
  }

  /** The letters left for the next rows once a row of `size` is filled. */
  function Rest(clean: string, size: nat): string {
    if size <= |clean| then clean[size..] else []
  }

  /** A row holds capitals and padding only. */
  predicate CapitalsOrBlank(row: seq<char>) {
    forall c | 0 <= c < |row| :: Letters.IsCapital(row[c]) || row[c] == Blank
  }

  /** `count` rows of `size` cells, each row taking the next `size` letters:
      the loops of `buildGrid`, one row per step. */
  function Rows(clean: string, size: nat, count: nat): (g: seq<seq<char>>)
    requires forall i | 0 <= i < |clean| :: Letters.IsCapital(clean[i])
    ensures |g| == count
    ensures forall k | 0 <= k < count :: |g[k]| == size && CapitalsOrBlank(g[k])
    decreases count
  {
    if count == 0 then []
    else [Padded(clean, size)] + Rows(Rest(clean, size), size, count - 1)
  }

  /** The grid is `size` rows of `size` cells. */
  predicate Square(g: seq<seq<char>>, size: nat) {
    |g| == size && forall r | 0 <= r < size :: |g[r]| == size
  }

  /** `buildGrid`. */
  function BuildGrid(text: string, size: nat): (g: seq<seq<char>>)
    ensures Square(g, size)
    ensures forall r | 0 <= r < size :: CapitalsOrBlank(g[r])
  {
    Rows(CleanText(text), size, size)
  }

  /** The cells in reading order, row after row. */
  function Flatten(rows: seq<seq<char>>): string {
    if rows == [] then [] else rows[0] + Flatten(rows[1..])
  }

  /** Filling a row and then the rest reads the letters in order. */
  lemma PaddedSplit(clean: string, size: nat, m: nat)
    ensures Padded(clean, size) + Padded(Rest(clean, size), m) == Padded(clean, size + m)
  {
    var lhs := Padded(clean, size) + Padded(Rest(clean, size), m);
    forall i | 0 <= i < size + m ensures lhs[i] == PadCell(clean, i) {
      if i >= size {
        assert lhs[i] == PadCell(Rest(clean, size), i - size);
      }
    }
  }

  lemma {:induction false} RowsRead(clean: string, size: nat, count: nat)
    requires forall i | 0 <= i < |clean| :: Letters.IsCapital(clean[i])
    ensures Flatten(Rows(clean, size, count)) == Padded(clean, size * count)
    decreases count
  {
    if count > 0 {
      var rest := Rest(clean, size);
      assert forall i | 0 <= i < |rest| :: rest[i] == clean[i + size];
      RowsRead(rest, size, count - 1);
      PaddedSplit(clean, size, size * (count - 1));
      assert size * count == size + size * (count - 1);
    }
  }

  /** Read row by row, the grid is the cleaned text cut or padded with '_'
      to `size * size` cells. */
  lemma GridReadsText(text: string, size: nat)
    ensures Flatten(BuildGrid(text, size)) == Padded(CleanText(text), size * size)
    ensures |CleanText(text)| >= size * size ==> Flatten(BuildGrid(text, size)) == CleanText(text)[..size * size]
  {
    RowsRead(CleanText(text), size, size);
  }

  /* ---------------------------------------------------------------------
     Cells in the order the loops visit them
     --------------------------------------------------------------------- */

  datatype Cell = Cell(row: nat, col: nat, ch: char)

  /** The cell lies in the grid and shows its character. */
  predicate Holds(g: seq<seq<char>>, cell: Cell) {
    cell.row < |g| && cell.col < |g[cell.row]| && g[cell.row][cell.col] == cell.ch
  }

  /** `x` comes before `y` in reading order. */
  predicate Earlier(x: Cell, y: Cell) {
    x.row < y.row || (x.row == y.row && x.col < y.col)
  }

  /** Each cell comes before every later one in reading order. */
  predicate ReadingOrder(cells: seq<Cell>) {
    forall i, j | 0 <= i < j < |cells| :: Earlier(cells[i], cells[j])
  }

  /** The inner loop over the columns of row `r`, from column `c`. */
  function RowVisit(g: seq<seq<char>>, size: nat, r: nat, c: nat): (cells: seq<Cell>)
    requires Square(g, size) && r < size
    ensures forall k | 0 <= k < |cells| :: cells[k].row == r && c <= cells[k].col && Holds(g, cells[k])
    decreases size - c
  {
    if c >= size then [] else [Cell(r, c, g[r][c])] + RowVisit(g, size, r, c + 1)
  }

  /** The outer loop over the rows, from row `r`. */
  function Visit(g: seq<seq<char>>, size: nat, r: nat): (cells: seq<Cell>)
    requires Square(g, size)
    ensures forall k | 0 <= k < |cells| :: r <= cells[k].row && Holds(g, cells[k])
    decreases size - r
  {
    if r >= size then [] else RowVisit(g, size, r, 0) + Visit(g, size, r + 1)
  }

  lemma {:induction false} RowVisitOrdered(g: seq<seq<char>>, size: nat, r: nat, c: nat)
    requires Square(g, size) && r < size
    ensures ReadingOrder(RowVisit(g, size, r, c))
    decreases size - c
  {
    if c < size {
      var rest := RowVisit(g, size, r, c + 1);
      RowVisitOrdered(g, size, r, c + 1);
      OrderedCons(Cell(r, c, g[r][c]), rest);
    }
  }

  lemma OrderedCons(h: Cell, t: seq<Cell>)
    requires ReadingOrder(t) && forall k | 0 <= k < |t| :: Earlier(h, t[k])
    ensures ReadingOrder([h] + t)
  {
    var u := [h] + t;
    forall i, j | 0 <= i < j < |u| ensures Earlier(u[i], u[j]) {
      assert u[j] == t[j - 1];
      if i > 0 {
        assert u[i] == t[i - 1];
      }
    }
  }

  lemma OrderedAppend(x: seq<Cell>, y: seq<Cell>)
    requires ReadingOrder(x) && ReadingOrder(y)
    requires forall i, j | 0 <= i < |x| && 0 <= j < |y| :: Earlier(x[i], y[j])
    ensures ReadingOrder(x + y)
  {
    var u := x + y;
    forall i, j | 0 <= i < j < |u| ensures Earlier(u[i], u[j]) {
      if j < |x| {
        assert u[i] == x[i] && u[j] == x[j];
      } else if i < |x| {
        assert u[i] == x[i] && u[j] == y[j - |x|];
      } else {
        assert u[i] == y[i - |x|] && u[j] == y[j - |x|];
      }
    }
  }

  /** The loops visit the cells in reading order. */
  lemma {:induction false} VisitOrdered(g: seq<seq<char>>, size: nat, r: nat)
    requires Square(g, size)
    ensures ReadingOrder(Visit(g, size, r))
    decreases size - r
  {
    if r < size {
      var row := RowVisit(g, size, r, 0);
      var rest := Visit(g, size, r + 1);
      RowVisitOrdered(g, size, r, 0);
      VisitOrdered(g, size, r + 1);
      OrderedAppend(row, rest);
    }
  }

  lemma {:induction false} RowVisitCovers(g: seq<seq<char>>, size: nat, r: nat, c0: nat, c: nat)
    requires Square(g, size) && r < size && c0 <= c < size
    ensures Cell(r, c, g[r][c]) in RowVisit(g, size, r, c0)
    decreases c - c0
  {
    if c0 < c {
      RowVisitCovers(g, size, r, c0 + 1, c);
    }
  }

  /** The loops visit every cell of the grid. */
  lemma {:induction false} VisitCovers(g: seq<seq<char>>, size: nat, r0: nat, r: nat, c: nat)
    requires Square(g, size) && r0 <= r < size && c < size
    ensures Cell(r, c, g[r][c]) in Visit(g, size, r0)
    decreases r - r0
  {
    if r0 < r {
      VisitCovers(g, size, r0 + 1, r, c);
    } else {
      RowVisitCovers(g, size, r, 0, c);
    }
  }

  /* ---------------------------------------------------------------------
     The coordinate map
     --------------------------------------------------------------------- */

  /** `${row + 1}/${col + 1}`: the 1-based coordinate text of a cell. */
  function CoordText(row: nat, col: nat): string {
    Decimal(row + 1) + "/" + Decimal(col + 1)
  }

  /** One step of `buildCoordinateMap`: a letter cell appends its coordinate
      to the list of its letter, creating the list on first sight. */
  function Push(m: map<char, seq<string>>, cell: Cell): map<char, seq<string>> {
    if cell.ch == Blank then m
    else m[cell.ch := (if cell.ch in m then m[cell.ch] else []) + [CoordText(cell.row, cell.col)]]
  }

  /** The map after visiting `cells` in order. */
  function MapOf(cells: seq<Cell>): map<char, seq<string>> {
    if cells == [] then map[] else Push(MapOf(cells[..|cells| - 1]), cells[|cells| - 1])
  }

  /** The coordinates of the cells holding `ch`, in visiting order. */
  function Coords(cells: seq<Cell>, ch: char): seq<string> {
    if cells == [] then []
    else (if cells[0].ch == ch then [CoordText(cells[0].row, cells[0].col)] else []) + Coords(cells[1..], ch)
  }

  lemma {:induction false} CoordsAppend(x: seq<Cell>, y: seq<Cell>, ch: char)
    ensures Coords(x + y, ch) == Coords(x, ch) + Coords(y, ch)
  {
    if x != [] {
      assert (x + y)[1..] == x[1..] + y;
      CoordsAppend(x[1..], y, ch);
    } else {
      assert x + y == y;
    }
  }

  /** The map holds, for each letter seen, exactly the coordinates of its
      cells in visiting order, and nothing for the padding or for letters
      not seen. */
  lemma {:induction false} MapEntry(cells: seq<Cell>, ch: char)
    ensures Blank !in MapOf(cells)
    ensures ch != Blank ==> (ch in MapOf(cells) <==> Coords(cells, ch) != [])
    ensures ch != Blank && ch in MapOf(cells) ==> MapOf(cells)[ch] == Coords(cells, ch)
  {
    if cells != [] {
      var init := cells[..|cells| - 1];
      var last := cells[|cells| - 1];
      MapEntry(init, ch);
      assert cells == init + [last];
      CoordsAppend(init, [last], ch);
      assert Coords([last], ch) == if last.ch == ch then [CoordText(last.row, last.col)] else [];
    }
  }

  /** The index of the first cell holding `ch`, or -1. */
  function Find(cells: seq<Cell>, ch: char): (i: int)
    ensures -1 <= i < |cells|
    ensures i >= 0 ==> cells[i].ch == ch
    ensures forall j | 0 <= j < |cells| && (i < 0 || j < i) :: cells[j].ch != ch
  {
    if cells == [] then -1
    else if cells[0].ch == ch then 0
    else
      var k := Find(cells[1..], ch);
      if k < 0 then -1 else k + 1
  }

  /** The first coordinate listed for `ch` is that of its first cell. */
  lemma {:induction false} CoordsHead(cells: seq<Cell>, ch: char)
    ensures Coords(cells, ch) != [] <==> Find(cells, ch) >= 0
    ensures Find(cells, ch) >= 0 ==>
      Coords(cells, ch)[0] == CoordText(cells[Find(cells, ch)].row, cells[Find(cells, ch)].col)
  {
    if cells != [] && cells[0].ch != ch {
      CoordsHead(cells[1..], ch);
    }
  }

  /* ---------------------------------------------------------------------
     The key
     --------------------------------------------------------------------- */

  /** `BookCipherKey`: the grid size, the grid and the coordinate map. */
  datatype BookKey = BookKey(size: nat, grid: seq<seq<char>>, coordinateMap: map<char, seq<string>>) {
    /** What the constructor guarantees: a square grid of capitals and
        padding, and the coordinate map of that grid. */
    predicate Valid() {
      && Square(grid, size)
      && (forall r | 0 <= r < size :: CapitalsOrBlank(grid[r]))
      && coordinateMap == MapOf(Visit(grid, size, 0))
    }
  }

  /** `new BookCipherKey(gridText, gridSize)`. */
  function NewKey(text: string, size: nat): (k: BookKey)
    ensures k.Valid()
    ensures k.size == size
    ensures Flatten(k.grid) == Padded(CleanText(text), size * size)
  {
    var g := BuildGrid(text, size);
    GridReadsText(text, size);
    BookKey(size, g, MapOf(Visit(g, size, 0)))
  }

  /** Failures of the book cipher: no key set ("key not set"), and the
      `TypeError` of indexing the grid with a row that is not a number. */
  datatype BookError = MissingKey | RowNotANumber

  /** `getCoordinate`: the first coordinate listed for the capital form of
      the character, or `null`. */
  function GetCoordinate(key: BookKey, ch: char): Option<string> {
    var upper := Letters.UpperOf(ch);
    if upper !in key.coordinateMap || key.coordinateMap[upper] == [] then None
    else Some(key.coordinateMap[upper][0])
  }

  /** `charAtCoordinate(row, col)` on `parseInt` results (`None` is NaN).
      A coordinate outside 1..size gives `null`. NaN fails both range
      comparisons, so a NaN row reaches `this.grid[NaN]`, which is
      `undefined`, and indexing it throws; a NaN column in a valid row reads
      `undefined`. */
  function CharAtCoordinate(key: BookKey, row: Option<int>, col: Option<int>): (r: Result<Option<char>, BookError>)
    requires key.Valid()
    ensures r.Failure? <==> row.None? && (col.None? || 1 <= col.value <= key.size)
    ensures r == Success(None) <==>
      || (row.Some? && !(1 <= row.value <= key.size))
      || (col.Some? && !(1 <= col.value <= key.size))
      || (row.Some? && col.None?)
  {
    if (row.Some? && (row.value < 1 || row.value > key.size)) || (col.Some? && (col.value < 1 || col.value > key.size)) then
      Success(None)
    else if row.None? then
      Failure(RowNotANumber)
    else if col.None? then
      Success(None)
    else
      Success(Some(key.grid[row.value - 1][col.value - 1]))
  }

  /** `x` is a letter some cell holds. */
  predicate Occurs(key: BookKey, x: char) {
    x != Blank && exists r, c | 0 <= r < key.size && 0 <= c < key.size && r < |key.grid| && c < |key.grid[r]| ::
      key.grid[r][c] == x
  }

  /** Cell (r, c) holds `x` and no earlier cell in reading order does. */
  predicate FirstAt(key: BookKey, x: char, r: nat, c: nat)
    requires key.Valid()
  {
    && r < key.size && c < key.size && key.grid[r][c] == x
    && forall r', c' | 0 <= r' < key.size && 0 <= c' < key.size && Earlier(Cell(r', c', ' '), Cell(r, c, ' ')) ::
         key.grid[r'][c'] != x
  }

  /** `getCoordinate` finds a character exactly when its capital form is a
      letter of the grid. */
  lemma GetCoordinateOccurs(key: BookKey, ch: char)
    requires key.Valid()
    ensures GetCoordinate(key, ch).None? <==> !Occurs(key, Letters.UpperOf(ch))
  {
    var x := Letters.UpperOf(ch);
    var cells := Visit(key.grid, key.size, 0);
    MapEntry(cells, x);
    CoordsHead(cells, x);
    if x != Blank && Find(cells, x) < 0 {
      forall r, c | 0 <= r < key.size && 0 <= c < key.size ensures key.grid[r][c] != x {
        VisitCovers(key.grid, key.size, 0, r, c);
      }
    } else if x != Blank {
      assert Holds(key.grid, cells[Find(cells, x)]);
    }
  }

  /** What `getCoordinate` returns is the coordinate of the first cell, in
      reading order, holding the capital form of the character, and
      `charAtCoordinate` at that coordinate gives the capital back. */
  lemma GetCoordinateFirst(key: BookKey, ch: char)
    requires key.Valid()
    ensures GetCoordinate(key, ch).Some? ==>
      exists r: nat, c: nat | FirstAt(key, Letters.UpperOf(ch), r, c) ::
        && GetCoordinate(key, ch).value == CoordText(r, c)
        && CharAtCoordinate(key, Some(r + 1), Some(c + 1)) == Success(Some(Letters.UpperOf(ch)))
  {
    var x := Letters.UpperOf(ch);
    var cells := Visit(key.grid, key.size, 0);
    MapEntry(cells, x);
    CoordsHead(cells, x);
    var i := Find(cells, x);
    if x != Blank && i >= 0 {
      var cell := cells[i];
      FirstCellFirst(key, x, cells, i);
      assert GetCoordinate(key, ch).value == CoordText(cell.row, cell.col);
      assert CharAtCoordinate(key, Some(cell.row + 1), Some(cell.col + 1)) == Success(Some(x));
    }
  }

  /** The first visited cell holding `x` is the first in reading order. */
  lemma FirstCellFirst(key: BookKey, x: char, cells: seq<Cell>, i: int)
    requires key.Valid() && cells == Visit(key.grid, key.size, 0)
    requires i == Find(cells, x) && i >= 0
    ensures FirstAt(key, x, cells[i].row, cells[i].col)
  {
    var cell := cells[i];
    assert Holds(key.grid, cell);
    VisitOrdered(key.grid, key.size, 0);
    forall r', c' | 0 <= r' < key.size && 0 <= c' < key.size && Earlier(Cell(r', c', ' '), Cell(cell.row, cell.col, ' '))
      ensures key.grid[r'][c'] != x
    {
      var other := Cell(r', c', key.grid[r'][c']);
      VisitCovers(key.grid, key.size, 0, r', c');
      var k :| 0 <= k < |cells| && cells[k] == other;
      assert k < i;
    }
  }
}
