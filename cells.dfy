/**
 * Coordinates of the 10x10 board and the "r-c" text ids that the game
 * stores for cells: written with a template string when a ship is placed
 * and when a hit is recorded, and read back with `split("-").map(Number)`
 * when a sunk ship is drawn.
 */
module Cells {
  import opened Wrappers

  /** The side of the square board (`gridSize`). */
  const GridSize: int := 10

  type Index = i: int | 0 <= i < GridSize
  type Cell = (Index, Index)

  /** Every cell of the board. */
  const AllCells: set<Cell> := set r: Index, c: Index | 0 <= r < GridSize && 0 <= c < GridSize :: (r, c)

  lemma AllCellsComplete(p: Cell)
    ensures p in AllCells
  {
    var r, c := p.0, p.1;
    assert (r, c) in AllCells;
  }

  /** A grid with an entry for every cell of the board. */
  ghost predicate Total<V>(m: map<Cell, V>)
  {
    forall p: Cell :: p in m
  }

  /** A grid built over `AllCells` has an entry for every cell. */
  lemma TotalOver<V>(m: map<Cell, V>)
    requires m.Keys == AllCells
    ensures Total(m)
  {
    forall p: Cell
      ensures p in m
    {
      AllCellsComplete(p);
    }
  }

  /** A grid that agrees with `m` everywhere except at `p`, where it holds `v`, is `m[p := v]`. */
  lemma UpdateAt<V>(m: map<Cell, V>, m': map<Cell, V>, p: Cell, v: V)
    requires Total(m) && Total(m')
    requires forall q: Cell :: m'[q] == if q == p then v else m[q]
    ensures m' == m[p := v]
  {
  }

  /** A grid that holds `v` on every cell is the constant grid over `AllCells`. */
  lemma ConstantGrid<V>(m: map<Cell, V>, v: V)
    requires forall q: Cell :: q in m && m[q] == v
    ensures m == map q | q in AllCells :: v
  {
    forall q: Cell
      ensures q in AllCells
    {
      AllCellsComplete(q);
    }
  }

  // ---- decimal text of a non-negative number, as `${n}` writes it ----

  predicate IsDigit(ch: char) { '0' <= ch <= '9' }

  predicate AllDigits(s: string) { forall i :: 0 <= i < |s| ==> IsDigit(s[i]) }

  function DigitChar(d: nat): (ch: char)
    requires d < 10
    ensures IsDigit(ch)
  {
    ('0' as int + d) as char
  }

  function DigitValue(ch: char): (d: nat)
    requires IsDigit(ch)
    ensures d < 10
  {
    ch as int - '0' as int
  }

  /** The decimal numeral of `n`, most significant digit first, no leading zeros. */
  function NatToString(n: nat): (s: string)
    ensures |s| >= 1 && AllDigits(s)
    ensures |s| > 1 ==> s[0] != '0'
    decreases n
  {
    if n < 10 then [DigitChar(n)] else NatToString(n / 10) + [DigitChar(n % 10)]
  }

  /** The value of a string of decimal digits (the empty string reads as 0). */
  function DigitsValue(s: string): nat
    requires AllDigits(s)
  {
    if s == [] then 0 else DigitsValue(s[..|s| - 1]) * 10 + DigitValue(s[|s| - 1])
  }

  lemma {:induction false} DecimalRoundTrip(n: nat)
    ensures DigitsValue(NatToString(n)) == n
  {
    if n >= 10 {
      var s := NatToString(n);
      var prefix := NatToString(n / 10);
      assert s[..|s| - 1] == prefix;
      DecimalRoundTrip(n / 10);
    }
  }

  /**
   * JavaScript's `Number` on one piece of an id: a string of decimal
   * digits gives its value (the empty string gives 0); anything else is
   * NaN, here `None`.
   */
  function Number(s: string): (r: Option<nat>)
    ensures r.Some? <==> AllDigits(s)
  {
    if AllDigits(s) then Some(DigitsValue(s)) else None
  }

  // ---- `String.prototype.split` on a one-character separator ----

  /** The position of the first `ch` in `s`. */
  function IndexOf(s: string, ch: char): (i: nat)
    requires ch in s
    ensures i < |s| && s[i] == ch && ch !in s[..i]
  {
    if s[0] == ch then 0
    else
      var j := IndexOf(s[1..], ch);
      assert s[..j + 1] == [s[0]] + s[1..][..j];
      j + 1
  }

  /** The pieces of `s` between occurrences of `sep`; there is always at least one. */
  function Split(s: string, sep: char): (pieces: seq<string>)
    ensures |pieces| >= 1
    ensures forall k :: 0 <= k < |pieces| ==> sep !in pieces[k]
    decreases |s|
  {
    if sep in s then
      var i := IndexOf(s, sep);
      [s[..i]] + Split(s[i + 1..], sep)
    else
      [s]
  }

  /** A position holding `ch` with no earlier `ch` is the one `IndexOf` finds. */
  lemma IndexOfFirst(s: string, ch: char, j: nat)
    requires j < |s| && s[j] == ch && ch !in s[..j]
    ensures IndexOf(s, ch) == j
  {
    var i := IndexOf(s, ch);
    assert forall k :: 0 <= k < i ==> s[..i][k] == s[k];
    assert forall k :: 0 <= k < j ==> s[..j][k] == s[k];
  }

  lemma SplitTwo(a: string, b: string, sep: char)
    requires sep !in a && sep !in b
    ensures Split(a + [sep] + b, sep) == [a, b]
  {
    var s := a + [sep] + b;
    assert s[..|a|] == a;
    IndexOfFirst(s, sep, |a|);
    assert s[|a| + 1..] == b;
  }

  // ---- the "r-c" ids ----

  /**
   * `const [r, c] = id.split("-").map(Number)`: the row and column an id
   * denotes, or `None` when a piece is missing or is not a number.
   */
  function ParseId(id: string): (r: Option<(int, int)>)
    ensures '-' !in id ==> r == None
    ensures r.Some? ==> '-' in id && 0 <= r.value.0 && 0 <= r.value.1
  {
    var pieces := Split(id, '-');
    if |pieces| < 2 then None
    else
      match (Number(pieces[0]), Number(pieces[1]))
      case (Some(r), Some(c)) => Some((r, c))
      case _ => None
  }

  /**
   * The id `${r}-${c}` of a cell (game.js lines 135 and 175). Rows and
   * columns are below 10, so it is always three characters: the row's
   * digit, a `-`, and the column's digit.
   */
  function CellId(p: Cell): (id: string)
    ensures |id| == 3 && id[1] == '-'
    ensures IsDigit(id[0]) && DigitValue(id[0]) == p.0
    ensures IsDigit(id[2]) && DigitValue(id[2]) == p.1
  {
    NatToString(p.0) + "-" + NatToString(p.1)
  }

  /** Every id the game writes parses back to the cell it was written for. */
  lemma ParseCellId(p: Cell)
    ensures ParseId(CellId(p)) == Some((p.0 as int, p.1 as int))
  {
    var a, b := NatToString(p.0), NatToString(p.1);
    assert !IsDigit('-');
    assert CellId(p) == a + ['-'] + b;
    SplitTwo(a, b, '-');
    DecimalRoundTrip(p.0);
    DecimalRoundTrip(p.1);
  }

  /** The board cell an id denotes, when it parses to one. */
  function CellOf(id: string): Option<Cell>
  {
    match ParseId(id)
    case Some((r, c)) => if 0 <= r < GridSize && 0 <= c < GridSize then Some((r, c)) else None
    case None => None
  }

  /** Different cells have different ids, so a set of ids counts cells. */
  lemma CellIdInjective(p: Cell, q: Cell)
    ensures CellId(p) == CellId(q) <==> p == q
  {
    if CellId(p) == CellId(q) {
      ParseCellId(p);
      ParseCellId(q);
    }
  }
}
