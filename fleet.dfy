/**
 * The fleet: the ship roster (game.js lines 7-13) and ship placement
 * (lines 109-141), stated on a value-level view of `shipBoard`.
 */
module Fleet {
  import opened Wrappers
  import opened Cells

  /**
   * One ship of the roster with what the game keeps for it: the ids of the
   * cells it was hit on (a `Set`) and the ids of the cells it covers (an
   * array, filled in placement order).
   */
  datatype Ship = Ship(name: string, size: nat, hits: set<string>, cells: seq<string>)

  /** `numShips` and the roster. */
  const NumShips: nat := 5
  const RosterNames: seq<string> := ["Yamato", "USS Arizona", "HMS Hood", "Bismarck", "HMS Prince of Wales"]
  const RosterSizes: seq<nat> := [5, 4, 3, 3, 2]

  /** The cells the whole fleet covers. */
  const FleetCells: nat := 17

  predicate RosterShape(ships: seq<Ship>)
  {
    && |ships| == NumShips
    && forall i :: 0 <= i < NumShips ==> ships[i].name == RosterNames[i] && ships[i].size == RosterSizes[i]
  }

  /** No ship has hits or cells: the state `initGame` leaves before placement (lines 58-61). */
  predicate Cleared(ships: seq<Ship>)
  {
    forall i :: 0 <= i < |ships| ==> ships[i].hits == {} && ships[i].cells == []
  }

  /** The roster as the game builds it (lines 7-13), with an empty `hits` set and no cells. */
  function NewFleet(): (ships: seq<Ship>)
    ensures RosterShape(ships) && Cleared(ships)
  {
    seq(NumShips, i requires 0 <= i < NumShips => Ship(RosterNames[i], RosterSizes[i], {}, []))
  }

  /** `ship.hits.clear(); ship.cells = []` for every ship (lines 58-61). */
  function ClearAll(ships: seq<Ship>): (r: seq<Ship>)
    ensures |r| == |ships| && Cleared(r)
    ensures forall i :: 0 <= i < |ships| ==> r[i].name == ships[i].name && r[i].size == ships[i].size
  {
    seq(|ships|, i requires 0 <= i < |ships| => ships[i].(hits := {}, cells := []))
  }

  lemma RosterNamesDistinct()
    ensures forall i, j :: 0 <= i < j < NumShips ==> RosterNames[i] != RosterNames[j]
  {
    assert RosterNames[2][0] != RosterNames[3][0];
  }

  /** The total size of the first `k` ships of the roster. */
  function SumSizes(k: nat): nat
    requires k <= NumShips
  {
    if k == 0 then 0 else SumSizes(k - 1) + RosterSizes[k - 1]
  }

  /** `ships.find(s => s.name === name)`, as the index of the first ship with that name. */
  function ShipIndex(ships: seq<Ship>, name: string): (r: Option<nat>)
    ensures r.Some? ==> r.value < |ships| && ships[r.value].name == name
    ensures r.Some? ==> forall j :: 0 <= j < r.value ==> ships[j].name != name
    ensures r.None? ==> forall j :: 0 <= j < |ships| ==> ships[j].name != name
  {
    if ships == [] then None
    else if ships[0].name == name then Some(0)
    else
      match ShipIndex(ships[1..], name)
      case Some(k) => Some(k + 1)
      case None => None
  }

  /** In the roster, looking a ship up by its name finds that very ship. */
  lemma FindRosterShip(ships: seq<Ship>, i: nat)
    requires RosterShape(ships) && i < NumShips
    ensures ShipIndex(ships, ships[i].name) == Some(i)
  {
    RosterDistinct(ships);
    FindDistinct(ships, i);
  }

  /** No two ships share a name. */
  predicate NamesDistinct(ships: seq<Ship>)
  {
    forall i, j :: 0 <= i < |ships| && 0 <= j < |ships| && i != j ==> ships[i].name != ships[j].name
  }

  function ShipNames(ships: seq<Ship>): set<string>
  {
    set i | 0 <= i < |ships| :: ships[i].name
  }

  lemma RosterDistinct(ships: seq<Ship>)
    requires RosterShape(ships)
    ensures NamesDistinct(ships)
  {
    RosterNamesDistinct();
  }

  /** With distinct names, looking a ship up by its name finds that very ship. */
  lemma FindDistinct(ships: seq<Ship>, i: nat)
    requires NamesDistinct(ships) && i < |ships|
    ensures ShipIndex(ships, ships[i].name) == Some(i)
  {
  }

  // ---- one placement attempt ----

  /** The caller-supplied draw that replaces `Math.random` (lines 113-115). */
  datatype Attempt = Attempt(isHoriz: bool, row: Index, col: Index)

  /** The span stays inside the board: the tests of lines 117-118 pass. */
  predicate Fits(a: Attempt, size: nat)
  {
    if a.isHoriz then a.col + size <= GridSize else a.row + size <= GridSize
  }

  /** The positions a ship of `size` would cover from the anchor of `a` (lines 122-130). */
  function Span(a: Attempt, size: nat): seq<Cell>
    requires Fits(a, size)
  {
    seq(size, i requires 0 <= i < size => if a.isHoriz then (a.row, a.col + i) else (a.row + i, a.col))
  }

  /** The cells of a span, described without the sequence. */
  predicate Covers(a: Attempt, size: nat, p: Cell)
  {
    if a.isHoriz then p.0 == a.row && a.col <= p.1 < a.col + size
    else p.1 == a.col && a.row <= p.0 < a.row + size
  }

  predicate Distinct<T(==)>(s: seq<T>)
  {
    forall i, j :: 0 <= i < j < |s| ==> s[i] != s[j]
  }

  function Elements<T>(s: seq<T>): set<T>
  {
    set x | x in s
  }

  /**
   * A span is `size` consecutive cells: along the row from the anchor when
   * horizontal, down the column when vertical, each cell once.
   */
  lemma SpanShape(a: Attempt, size: nat)
    requires Fits(a, size)
    ensures |Span(a, size)| == size && Distinct(Span(a, size))
    ensures forall p :: p in Span(a, size) <==> Covers(a, size, p)
    ensures |Elements(Span(a, size))| == size
  {
    var s := Span(a, size);
    forall p: Cell | Covers(a, size, p)
      ensures p in s
    {
      var i := if a.isHoriz then p.1 - a.col else p.0 - a.row;
      assert s[i] == p;
    }
    CardDistinct(s);
  }

  lemma {:induction false} CardDistinct<T>(s: seq<T>)
    requires Distinct(s)
    ensures |Elements(s)| == |s|
  {
    if s != [] {
      CardDistinct(s[1..]);
      assert Elements(s) == {s[0]} + Elements(s[1..]);
      assert s[0] !in Elements(s[1..]);
    }
  }

  lemma {:induction false} CardElements<T>(s: seq<T>)
    ensures |Elements(s)| <= |s|
  {
    if s != [] {
      CardElements(s[1..]);
      assert Elements(s) == {s[0]} + Elements(s[1..]);
    }
  }

  lemma {:induction false} SubsetCard<T>(x: set<T>, y: set<T>)
    requires x <= y
    ensures |x| <= |y|
    ensures x != y ==> |x| < |y|
    decreases |y|
  {
    if x != y {
      var e :| e in y && e !in x;
      SubsetCard(x, y - {e});
    }
  }

  // ---- the board as a value ----

  /** `shipBoard`: each cell holds the name of the ship on it, or null. */
  type Board = map<Cell, Option<string>>

  const EmptyBoard: Board := map p | p in AllCells :: None

  /** A board with null on every cell is the empty board. */
  lemma IsEmptyBoard(b: Board)
    requires forall p: Cell :: p in b && b[p] == None
    ensures b == EmptyBoard
  {
    ConstantGrid(b, None);
  }

  /** Every cell of `cells` is on the board and empty: no `shipBoard[r][c]` was truthy (line 125). */
  predicate Free(b: Board, cells: seq<Cell>)
  {
    forall i :: 0 <= i < |cells| ==> cells[i] in b && b[cells[i]] == None
  }

  /** `shipBoard[r][c] = name` for each position in turn (lines 133-134). */
  function Place(b: Board, cells: seq<Cell>, name: string): (r: Board)
    ensures r.Keys == b.Keys + Elements(cells)
    ensures forall p :: p in r ==> r[p] == if p in cells then Some(name) else b[p]
  {
    if cells == [] then b
    else
      var last := cells[|cells| - 1];
      var r := Place(b, cells[..|cells| - 1], name)[last := Some(name)];
      assert forall p :: p in cells <==> p in cells[..|cells| - 1] || p == last;
      r
  }

  /** The ids `${r}-${c}` of the positions, in order (line 135). */
  function Ids(cells: seq<Cell>): seq<string>
  {
    seq(|cells|, i requires 0 <= i < |cells| => CellId(cells[i]))
  }

  lemma IdsOf(cells: seq<Cell>, p: Cell)
    ensures CellId(p) in Ids(cells) <==> p in cells
  {
    if CellId(p) in Ids(cells) {
      var i :| 0 <= i < |cells| && Ids(cells)[i] == CellId(p);
      CellIdInjective(p, cells[i]);
    }
    if p in cells {
      var i :| 0 <= i < |cells| && cells[i] == p;
      assert Ids(cells)[i] == CellId(p);
    }
  }

  function Occupied(b: Board): set<Cell>
  {
    set p | p in b && b[p].Some?
  }

  function NameCells(b: Board, name: string): set<Cell>
  {
    set p | p in b && b[p] == Some(name)
  }

  /** Every ship's cell ids agree with the board: `CellId(p)` is in a ship's `cells` exactly when `p` holds its name. */
  predicate CellsAgree(b: Board, ships: seq<Ship>)
  {
    forall i, p :: 0 <= i < |ships| && p in b ==> (b[p] == Some(ships[i].name) <==> CellId(p) in ships[i].cells)
  }

  /** `id.split("-").map(Number)` names a board cell that holds `name` (line 185). */
  predicate IdLeadsTo(b: Board, id: string, name: string)
  {
    match ParseId(id)
    case Some((r, c)) => 0 <= r < GridSize && 0 <= c < GridSize && (r, c) in b && b[(r, c)] == Some(name)
    case None => false
  }

  predicate IdsParse(b: Board, ships: seq<Ship>)
  {
    forall i, id :: 0 <= i < |ships| && id in ships[i].cells ==> IdLeadsTo(b, id, ships[i].name)
  }

  /** The cells that the ids of `ids` denote: `id.split("-").map(Number)` for each (line 185). */
  function IdCells(ids: seq<string>): set<Cell>
  {
    set id | id in ids && CellOf(id).Some? :: CellOf(id).value
  }

  /** The ids a ship lists denote exactly the cells its name is on. */
  lemma IdCellsOfShip(b: Board, ships: seq<Ship>, i: nat)
    requires Total(b) && CellsAgree(b, ships) && IdsParse(b, ships) && i < |ships|
    ensures IdCells(ships[i].cells) == NameCells(b, ships[i].name)
  {
    var ship := ships[i];
    forall id | id in ship.cells
      ensures CellOf(id).Some? && CellOf(id).value in NameCells(b, ship.name)
    {
      assert IdLeadsTo(b, id, ship.name);
    }
    forall p | p in NameCells(b, ship.name)
      ensures p in IdCells(ship.cells)
    {
      assert CellId(p) in ship.cells;
      ParseCellId(p);
      assert CellOf(CellId(p)) == Some(p);
    }
  }

  /**
   * The state after the first `k` ships of the roster are placed and the
   * others not yet: each placed ship covers exactly `size` cells and lists
   * their ids, the others cover none, and the board holds nothing else.
   */
  ghost predicate Placed(b: Board, ships: seq<Ship>, k: nat)
  {
    && Total(b)
    && RosterShape(ships) && k <= NumShips
    && (forall i :: 0 <= i < NumShips ==> ships[i].hits == {})
    && (forall i :: 0 <= i < k ==> |ships[i].cells| == ships[i].size && |NameCells(b, ships[i].name)| == ships[i].size)
    && (forall i :: k <= i < NumShips ==> ships[i].cells == [] && NameCells(b, ships[i].name) == {})
    && (forall p :: p in b && b[p].Some? ==> b[p].value in RosterNames)
    && CellsAgree(b, ships)
    && IdsParse(b, ships)
    && |Occupied(b)| == SumSizes(k)
  }

  /** Before placement the board is empty and nothing is placed. */
  lemma PlacedStart(ships: seq<Ship>)
    requires RosterShape(ships) && Cleared(ships)
    ensures Placed(EmptyBoard, ships, 0)
  {
    TotalOver(EmptyBoard);
    assert Occupied(EmptyBoard) == {};
    forall i | 0 <= i < NumShips
      ensures NameCells(EmptyBoard, ships[i].name) == {}
    {
    }
  }

  // ---- one attempt and the whole run, as values ----

  /** An attempt is accepted when its span fits and every cell of it is still null (lines 117-132). */
  predicate Accepts(b: Board, size: nat, a: Attempt)
  {
    Fits(a, size) && Free(b, Span(a, size))
  }

  /** Ship `k` with the ids of `cells` appended to its `cells` (line 135). */
  function WithCells(ships: seq<Ship>, k: nat, cells: seq<Cell>): seq<Ship>
    requires k < |ships|
  {
    ships[k := ships[k].(cells := ships[k].cells + Ids(cells))]
  }

  /** Pushing one more id extends `WithCells` by one position. */
  lemma WithCellsPush(ships: seq<Ship>, k: nat, cells: seq<Cell>, p: Cell)
    requires k < |ships|
    ensures var w := WithCells(ships, k, cells);
      w[k := w[k].(cells := w[k].cells + [CellId(p)])] == WithCells(ships, k, cells + [p])
  {
    assert Ids(cells + [p]) == Ids(cells) + [CellId(p)];
    assert ships[k].cells + Ids(cells) + [CellId(p)] == ships[k].cells + (Ids(cells) + [CellId(p)]);
  }

  /** The board and the fleet after one attempt to place ship `k` (lines 113-138). */
  function Attempted(b: Board, ships: seq<Ship>, k: nat, a: Attempt): (r: (Board, seq<Ship>))
    requires k < |ships|
    ensures |r.1| == |ships|
  {
    var size := ships[k].size;
    if Accepts(b, size, a) then
      var span := Span(a, size);
      (Place(b, span, ships[k].name), WithCells(ships, k, span))
    else (b, ships)
  }

  /** What a run of placement draws leaves: the board, the fleet, how many ships are placed and how many draws were used. */
  datatype Placement = Placement(board: Board, ships: seq<Ship>, placed: nat, used: nat)

  /**
   * `placeShips` fed with `attempts` in turn, starting at ship `k`: each ship
   * takes draws until one is accepted, and the run stops when the roster is
   * placed or the draws run out (lines 110-140).
   */
  function PlaceRun(b: Board, ships: seq<Ship>, k: nat, attempts: seq<Attempt>): (r: Placement)
    requires k <= |ships|
    decreases |attempts|
  {
    if k == |ships| || attempts == [] then Placement(b, ships, k, 0)
    else
      var next := Attempted(b, ships, k, attempts[0]);
      var k' := if Accepts(b, ships[k].size, attempts[0]) then k + 1 else k;
      var rest := PlaceRun(next.0, next.1, k', attempts[1..]);
      rest.(used := rest.used + 1)
  }

  /**
   * A run from ship `k` with the draws from `used` on, after the `used`
   * draws before them, ends in `goal`.
   */
  predicate Heading(goal: Placement, b: Board, ships: seq<Ship>, k: nat, attempts: seq<Attempt>, used: nat)
  {
    k <= |ships| && used <= |attempts| &&
    var r := PlaceRun(b, ships, k, attempts[used..]); goal == r.(used := r.used + used)
  }

  /** One draw keeps a run heading for the same end. */
  lemma PlaceRunAdvance(goal: Placement, b: Board, ships: seq<Ship>, k: nat, attempts: seq<Attempt>, used: nat,
                        next: (Board, seq<Ship>), accepted: bool)
    requires k < |ships| && used < |attempts|
    requires Heading(goal, b, ships, k, attempts, used)
    requires next == Attempted(b, ships, k, attempts[used])
    requires accepted == Accepts(b, ships[k].size, attempts[used])
    ensures Heading(goal, next.0, next.1, if accepted then k + 1 else k, attempts, used + 1)
  {
    assert attempts[used..][0] == attempts[used];
    assert attempts[used..][1..] == attempts[used + 1..];
  }

  /** Placing a name on free cells adds exactly those cells to that name and touches no other name. */
  lemma PlaceNames(b: Board, cells: seq<Cell>, name: string, other: string)
    requires Free(b, cells)
    ensures NameCells(Place(b, cells, name), name) == NameCells(b, name) + Elements(cells)
    ensures other != name ==> NameCells(Place(b, cells, name), other) == NameCells(b, other)
  {
    var r := Place(b, cells, name);
    forall p | p in Elements(cells)
      ensures p in b
    {
      var i :| 0 <= i < |cells| && cells[i] == p;
    }
  }

  lemma PlaceOccupied(b: Board, cells: seq<Cell>, name: string)
    requires Free(b, cells)
    ensures Occupied(Place(b, cells, name)) == Occupied(b) + Elements(cells)
    ensures Occupied(b) !! Elements(cells)
  {
    forall p | p in Elements(cells)
      ensures p in b && b[p] == None
    {
      var i :| 0 <= i < |cells| && cells[i] == p;
    }
  }

  /** Names of the roster that differ by index differ. */
  lemma OtherName(ships: seq<Ship>, i: nat, k: nat)
    requires RosterShape(ships) && i < NumShips && k < NumShips && i != k
    ensures ships[i].name != ships[k].name
  {
    RosterNamesDistinct();
  }

  /** The step of `CellsAgree` for an accepted attempt. */
  lemma CellsAgreeStep(b: Board, ships: seq<Ship>, k: nat, a: Attempt)
    requires Placed(b, ships, k) && k < NumShips && Accepts(b, ships[k].size, a)
    ensures CellsAgree(Attempted(b, ships, k, a).0, Attempted(b, ships, k, a).1)
  {
    var span := Span(a, ships[k].size);
    var name := ships[k].name;
    var b', ships' := Place(b, span, name), WithCells(ships, k, span);
    PlaceOccupied(b, span, name);
    assert ships[k].cells + Ids(span) == Ids(span);
    forall i, p | 0 <= i < |ships'| && p in b'
      ensures b'[p] == Some(ships'[i].name) <==> CellId(p) in ships'[i].cells
    {
      IdsOf(span, p);
      if i != k {
        OtherName(ships, i, k);
      } else if p !in span {
        assert p !in NameCells(b, name);
      }
    }
  }

  /** The step of `IdsParse` for an accepted attempt: the new ids read back as the new cells. */
  lemma IdsParseStep(b: Board, ships: seq<Ship>, k: nat, a: Attempt)
    requires Placed(b, ships, k) && k < NumShips && Accepts(b, ships[k].size, a)
    ensures IdsParse(Attempted(b, ships, k, a).0, Attempted(b, ships, k, a).1)
  {
    var span := Span(a, ships[k].size);
    var name := ships[k].name;
    var b', ships' := Place(b, span, name), WithCells(ships, k, span);
    assert ships[k].cells + Ids(span) == Ids(span);
    forall i, id | 0 <= i < |ships'| && id in ships'[i].cells
      ensures IdLeadsTo(b', id, ships'[i].name)
    {
      if i == k {
        var j :| 0 <= j < |span| && Ids(span)[j] == id;
        ParseCellId(span[j]);
      } else {
        assert IdLeadsTo(b, id, ships[i].name);
        var q := (ParseId(id).value.0, ParseId(id).value.1);
        assert q in b && b[q] == Some(ships[i].name);
        assert q !in span;
      }
    }
  }

  /** Placing ship `k` along `span` gives its name exactly the span's cells and leaves the other names alone. */
  lemma StepNames(b: Board, ships: seq<Ship>, k: nat, span: seq<Cell>)
    requires RosterShape(ships) && k < NumShips && Free(b, span)
    ensures forall i :: 0 <= i < NumShips ==>
      NameCells(Place(b, span, ships[k].name), ships[i].name) == if i == k then NameCells(b, ships[k].name) + Elements(span) else NameCells(b, ships[i].name)
  {
    forall i | 0 <= i < NumShips
      ensures NameCells(Place(b, span, ships[k].name), ships[i].name) == if i == k then NameCells(b, ships[k].name) + Elements(span) else NameCells(b, ships[i].name)
    {
      PlaceNames(b, span, ships[k].name, ships[i].name);
      if i != k {
        OtherName(ships, i, k);
      }
    }
  }

  /** The step of the counting parts of `Placed` for an accepted attempt. */
  lemma CountsStep(b: Board, ships: seq<Ship>, k: nat, a: Attempt)
    requires Placed(b, ships, k) && k < NumShips && Accepts(b, ships[k].size, a)
    ensures var (b', ships') := Attempted(b, ships, k, a);
      && (forall i :: 0 <= i < k + 1 ==> |ships'[i].cells| == ships'[i].size && |NameCells(b', ships'[i].name)| == ships'[i].size)
      && (forall i :: k + 1 <= i < NumShips ==> ships'[i].cells == [] && NameCells(b', ships'[i].name) == {})
      && |Occupied(b')| == SumSizes(k + 1)
  {
    var size := ships[k].size;
    var span := Span(a, size);
    SpanShape(a, size);
    StepNames(b, ships, k, span);
    PlacedCounts(b, ships, k, span);
    UnplacedCounts(b, ships, k, span);
    PlaceOccupied(b, span, ships[k].name);
  }

  /** After the step, the first `k + 1` ships each have `size` cells and ids. */
  lemma PlacedCounts(b: Board, ships: seq<Ship>, k: nat, span: seq<Cell>)
    requires Placed(b, ships, k) && k < NumShips && Free(b, span)
    requires |span| == ships[k].size && |Elements(span)| == ships[k].size
    requires forall i :: 0 <= i < NumShips ==>
      NameCells(Place(b, span, ships[k].name), ships[i].name) == if i == k then NameCells(b, ships[k].name) + Elements(span) else NameCells(b, ships[i].name)
    ensures var b', ships' := Place(b, span, ships[k].name), WithCells(ships, k, span);
      forall i :: 0 <= i < k + 1 ==> |ships'[i].cells| == ships'[i].size && |NameCells(b', ships'[i].name)| == ships'[i].size
  {
    var b', ships' := Place(b, span, ships[k].name), WithCells(ships, k, span);
    forall i | 0 <= i < k + 1
      ensures |ships'[i].cells| == ships'[i].size && |NameCells(b', ships'[i].name)| == ships'[i].size
    {
      if i == k {
        assert NameCells(b, ships[k].name) == {};
      }
    }
  }

  /** After the step, the ships after `k` still have no cells and no name on the board. */
  lemma UnplacedCounts(b: Board, ships: seq<Ship>, k: nat, span: seq<Cell>)
    requires Placed(b, ships, k) && k < NumShips
    requires forall i :: 0 <= i < NumShips ==>
      NameCells(Place(b, span, ships[k].name), ships[i].name) == if i == k then NameCells(b, ships[k].name) + Elements(span) else NameCells(b, ships[i].name)
    ensures var b', ships' := Place(b, span, ships[k].name), WithCells(ships, k, span);
      forall i :: k + 1 <= i < NumShips ==> ships'[i].cells == [] && NameCells(b', ships'[i].name) == {}
  {
  }

  /** An accepted attempt for ship `k` takes a `Placed` state for `k` ships to one for `k + 1`. */
  lemma PlacedStep(b: Board, ships: seq<Ship>, k: nat, a: Attempt)
    requires Placed(b, ships, k) && k < NumShips && Accepts(b, ships[k].size, a)
    ensures Placed(Attempted(b, ships, k, a).0, Attempted(b, ships, k, a).1, k + 1)
  {
    var size := ships[k].size;
    var span := Span(a, size);
    var b' := Place(b, span, ships[k].name);
    CellsAgreeStep(b, ships, k, a);
    IdsParseStep(b, ships, k, a);
    CountsStep(b, ships, k, a);
    assert forall p :: p in b' && b'[p].Some? ==> b'[p].value in RosterNames;
  }

  /** A rejected attempt changes nothing. */
  lemma RejectedUnchanged(b: Board, ships: seq<Ship>, k: nat, a: Attempt)
    requires k < |ships| && !Accepts(b, ships[k].size, a)
    ensures Attempted(b, ships, k, a) == (b, ships)
  {
  }

  /**
   * An accepted attempt writes the ship's name on exactly `size` consecutive
   * cells that were null, appends their ids to the ship's `cells`, and
   * changes no other cell and no other ship.
   */
  lemma AcceptedEffect(b: Board, ships: seq<Ship>, k: nat, a: Attempt)
    requires k < |ships| && Accepts(b, ships[k].size, a)
    ensures var (b', ships') := Attempted(b, ships, k, a);
      && var span := Span(a, ships[k].size);
      && |span| == ships[k].size
      && (forall p :: p in span <==> Covers(a, ships[k].size, p))
      && (forall p :: p in span ==> p in b && b[p] == None && b'[p] == Some(ships[k].name))
      && (forall p :: p in b && p !in span ==> b'[p] == b[p])
      && b'.Keys == b.Keys
      && |ships'| == |ships|
      && ships'[k] == ships[k].(cells := ships[k].cells + Ids(span))
      && (forall i :: 0 <= i < |ships| && i != k ==> ships'[i] == ships[i])
  {
    var span := Span(a, ships[k].size);
    SpanShape(a, ships[k].size);
    PlaceOccupied(b, span, ships[k].name);
  }

  /** A run of draws from a `Placed` state ends in a `Placed` state, and stops early only when the roster is complete. */
  lemma {:induction false} PlaceRunPlaced(b: Board, ships: seq<Ship>, k: nat, attempts: seq<Attempt>)
    requires Placed(b, ships, k)
    ensures var r := PlaceRun(b, ships, k, attempts);
      && Placed(r.board, r.ships, r.placed) && k <= r.placed && r.used <= |attempts|
      && (r.placed < NumShips ==> r.used == |attempts|)
    decreases |attempts|
  {
    if k < NumShips && attempts != [] {
      var a := attempts[0];
      var next := Attempted(b, ships, k, a);
      var k' := if Accepts(b, ships[k].size, a) then k + 1 else k;
      if Accepts(b, ships[k].size, a) {
        PlacedStep(b, ships, k, a);
      } else {
        RejectedUnchanged(b, ships, k, a);
      }
      PlaceRunPlaced(next.0, next.1, k', attempts[1..]);
      PlacedSame(PlaceRun(next.0, next.1, k', attempts[1..]), PlaceRun(b, ships, k, attempts));
    }
  }

  /**
   * `placeShips` from an empty board and a cleared roster: whatever the
   * draws, the ships it placed are laid out as `Placed` says, it stops
   * early only when the draws run out, and with the whole roster placed 17
   * cells are occupied, each ship's name is on exactly `size` cells, no
   * two ships share a cell and every stored id reads back as a cell of its
   * ship. A board cell holds one name, so the disjointness holds of any
   * board; that no ship was written over another is what the counts say:
   * five ships of `size` cells each on 17 = 5+4+3+3+2 occupied cells.
   */
  lemma PlaceShipsResult(ships: seq<Ship>, attempts: seq<Attempt>)
    requires RosterShape(ships) && Cleared(ships)
    ensures var r := PlaceRun(EmptyBoard, ships, 0, attempts);
      && Placed(r.board, r.ships, r.placed)
      && (r.placed < NumShips ==> r.used == |attempts|)
      && (r.placed == NumShips ==>
            && |Occupied(r.board)| == FleetCells
            && (forall i :: 0 <= i < NumShips ==> |NameCells(r.board, r.ships[i].name)| == r.ships[i].size == |r.ships[i].cells|)
            && (forall i, j :: 0 <= i < j < NumShips ==> NameCells(r.board, r.ships[i].name) !! NameCells(r.board, r.ships[j].name))
            && (forall i, id :: 0 <= i < NumShips && id in r.ships[i].cells ==> IdLeadsTo(r.board, id, r.ships[i].name)))
  {
    PlacedStart(ships);
    PlaceRunPlaced(EmptyBoard, ships, 0, attempts);
    var r := PlaceRun(EmptyBoard, ships, 0, attempts);
    if r.placed == NumShips {
      PlacedFull(r.board, r.ships);
      PlacedLayout(r.board, r.ships, r.placed);
    }
  }

  /** `Placed` depends only on the board, the ships and the count. */
  lemma PlacedSame(p: Placement, q: Placement)
    requires Placed(p.board, p.ships, p.placed)
    requires q.board == p.board && q.ships == p.ships && q.placed == p.placed
    ensures Placed(q.board, q.ships, q.placed)
  {
  }

  /**
   * With the whole roster placed, 17 cells are occupied, each ship's name is
   * on exactly `size` cells, no cell holds two ships, and every stored id
   * reads back as a cell holding that ship.
   */
  lemma PlacedFull(b: Board, ships: seq<Ship>)
    requires Placed(b, ships, NumShips)
    ensures |Occupied(b)| == FleetCells
    ensures forall i :: 0 <= i < NumShips ==> |NameCells(b, ships[i].name)| == ships[i].size == |ships[i].cells|
    ensures forall i, id :: 0 <= i < NumShips && id in ships[i].cells ==> IdLeadsTo(b, id, ships[i].name)
  {
    assert SumSizes(NumShips) == FleetCells;
  }

  /**
   * The occupied cells are exactly those of the five ships, and distinct
   * names cover disjoint cells. The disjointness holds of any board, since a
   * cell holds one name; non-overlap of the placement itself comes from the
   * counts in `Placed` (each name on `size` cells, `SumSizes(k)` occupied).
   */
  lemma PlacedLayout(b: Board, ships: seq<Ship>, k: nat)
    requires Placed(b, ships, k)
    ensures forall i, j :: 0 <= i < j < NumShips ==> NameCells(b, ships[i].name) !! NameCells(b, ships[j].name)
    ensures Occupied(b) == NameCells(b, ships[0].name) + NameCells(b, ships[1].name) + NameCells(b, ships[2].name)
      + NameCells(b, ships[3].name) + NameCells(b, ships[4].name)
  {
    RosterDisjoint(b, ships);
    OccupiedByRoster(b, ships);
  }

  /** Different ships of the roster are on disjoint cells. */
  lemma RosterDisjoint(b: Board, ships: seq<Ship>)
    requires RosterShape(ships)
    ensures forall i, j :: 0 <= i < j < NumShips ==> NameCells(b, ships[i].name) !! NameCells(b, ships[j].name)
  {
    forall i, j | 0 <= i < j < NumShips
      ensures NameCells(b, ships[i].name) !! NameCells(b, ships[j].name)
    {
      OtherName(ships, i, j);
    }
  }

  lemma OccupiedByRoster(b: Board, ships: seq<Ship>)
    requires RosterShape(ships)
    requires forall p :: p in b && b[p].Some? ==> b[p].value in RosterNames
    ensures Occupied(b) == NameCells(b, ships[0].name) + NameCells(b, ships[1].name) + NameCells(b, ships[2].name)
      + NameCells(b, ships[3].name) + NameCells(b, ships[4].name)
  {
    forall p | p in Occupied(b)
      ensures exists i :: 0 <= i < NumShips && b[p] == Some(ships[i].name)
    {
      assert b[p].value in RosterNames;
    }
  }
}
