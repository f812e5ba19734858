/**
 * Shot resolution and the end of the game, stated on a value-level view of
 * the game's state: `fireTorpedo`, `handleHit`, `handleMiss`,
 * `checkGameOver` and `showGameOver` (game.js lines 143-220 and 238-239),
 * and the state `initGame` leaves (lines 51-61).
 */
module Battle {
  import opened Wrappers
  import opened Cells
  import opened Fleet

  /** The classes a board cell's element carries: none yet, `hit` or `miss`. */
  datatype CellState = Unknown | Hit | Miss

  type Marks = map<Cell, CellState>

  /** A freshly created board: no cell fired at (`createBoard`, line 69). */
  const FreshMarks: Marks := map p | p in AllCells :: Unknown

  /** A grid with no cell fired at is the fresh one. */
  lemma IsFreshMarks(m: Marks)
    requires forall p: Cell :: p in m && m[p] == Unknown
    ensures m == FreshMarks
  {
    ConstantGrid(m, Unknown);
  }

  /** The torpedoes a game starts with (line 52). */
  const InitialTorpedoes: int := 30

  /**
   * The game's state: `shipBoard`, the hit/miss class of each cell, the cells
   * marked `sunk-part`, the fleet, and the counters and flag of line 4.
   */
  datatype State = State(
    board: Board,
    marks: Marks,
    sunkParts: set<Cell>,
    ships: seq<Ship>,
    torpedoes: int,
    shipsSunk: int,
    isGameOver: bool)

  ghost predicate Shaped(s: State)
  {
    Total(s.board) && Total(s.marks)
  }

  /** What `initGame` leaves once placement has produced `board` and `ships` (lines 52-70). */
  function InitialState(board: Board, ships: seq<Ship>): State
  {
    State(board, FreshMarks, {}, ships, InitialTorpedoes, 0, false)
  }

  /** The cells fired at so far. */
  function Fired(marks: Marks): set<Cell>
  {
    set p | p in marks && marks[p] != Unknown
  }

  /** `ship.hits.size === ship.size` (line 177). */
  predicate IsSunk(ship: Ship)
  {
    |ship.hits| == ship.size
  }

  /** The number of sunk ships. */
  function CountSunk(ships: seq<Ship>): nat
  {
    if ships == [] then 0 else (if IsSunk(ships[0]) then 1 else 0) + CountSunk(ships[1..])
  }

  // ---- the steps of a shot ----

  /** `ship.cells.forEach(...)` adding `sunk-part` to each listed cell (lines 184-187). */
  function MarkSunk(parts: set<Cell>, ids: seq<string>): set<Cell>
  {
    if ids == [] then parts
    else
      var rest := MarkSunk(parts, ids[..|ids| - 1]);
      match CellOf(ids[|ids| - 1])
      case Some(p) => rest + {p}
      case None => rest
  }

  /** `handleMiss` (lines 195-199): the cell gets `miss`. */
  function MissEffect(s: State, p: Cell): State
  {
    s.(marks := s.marks[p := Miss])
  }

  /**
   * `handleHit` (lines 170-193): the cell gets `hit`, the named ship records
   * the hit, and a ship whose hits reach its size is sunk: `shipsSunk` goes
   * up and its cells are marked `sunk-part`.
   */
  function HitEffect(s: State, p: Cell, name: string): State
  {
    var marked := s.(marks := s.marks[p := Hit]);
    match ShipIndex(s.ships, name)
    case Some(i) =>
      var ship := s.ships[i].(hits := s.ships[i].hits + {CellId(p)});
      var recorded := marked.(ships := s.ships[i := ship]);
      if IsSunk(ship) then
        recorded.(shipsSunk := s.shipsSunk + 1, sunkParts := MarkSunk(s.sunkParts, ship.cells))
      else recorded
    case None => marked
  }

  /** How `checkGameOver` reads the counters (lines 212-220). */
  datatype Outcome = InProgress | Won | Lost

  function Verdict(shipsSunk: int, torpedoes: int): Outcome
  {
    if shipsSunk == NumShips then Won
    else if torpedoes <= 0 then Lost
    else InProgress
  }

  /** `checkGameOver`, with `showGameOver` setting `isGameOver` (lines 212-220, 239). */
  function CheckGameOver(s: State): State
  {
    if Verdict(s.shipsSunk, s.torpedoes) != InProgress then s.(isGameOver := true) else s
  }

  /**
   * `fireTorpedo` at cell `p` (lines 143-168): ignored once the game is over
   * or when the cell was already fired at; otherwise one torpedo is spent,
   * the shot hits or misses, and the end of the game is checked.
   */
  function Fire(s: State, p: Cell): (r: State)
    requires Shaped(s)
    ensures Shaped(r) && r.board == s.board && |r.ships| == |s.ships|
  {
    if s.isGameOver || s.marks[p] != Unknown then s
    else
      var launched := s.(torpedoes := s.torpedoes - 1);
      var resolved := match s.board[p]
        case Some(name) => HitEffect(launched, p, name)
        case None => MissEffect(launched, p);
      CheckGameOver(resolved)
  }

  /** Shots fired in turn. */
  function Shots(s: State, ps: seq<Cell>): State
    requires Shaped(s)
    decreases |ps|
  {
    if ps == [] then s
    else
      Shots(Fire(s, ps[0]), ps[1..])
  }

  // ---- the invariant of a game in play ----

  /** The fleet and the board agree: names, ids and sizes as placement left them. */
  predicate FleetOk(s: State)
  {
    && |s.ships| == NumShips
    && NamesDistinct(s.ships)
    && (forall p :: p in s.board && s.board[p].Some? ==> s.board[p].value in ShipNames(s.ships))
    && CellsAgree(s.board, s.ships)
    && (forall i :: 0 <= i < |s.ships| ==> IdCells(s.ships[i].cells) == NameCells(s.board, s.ships[i].name))
    && (forall i :: 0 <= i < |s.ships| ==> |s.ships[i].cells| <= s.ships[i].size)
  }

  /** A `hit` cell holds a ship and a `miss` cell holds none. */
  predicate MarksOk(s: State)
  {
    forall p :: p in s.marks && p in s.board ==>
      (s.marks[p] == Hit ==> s.board[p].Some?) && (s.marks[p] == Miss ==> s.board[p] == None)
  }

  /** A ship's hits are the ids of its cells that were hit, so `hits` is a subset of `cells`. */
  predicate HitsOk(s: State)
  {
    && (forall i, p :: 0 <= i < |s.ships| && p in s.board && p in s.marks ==>
          (CellId(p) in s.ships[i].hits <==> s.marks[p] == Hit && s.board[p] == Some(s.ships[i].name)))
    && (forall i :: 0 <= i < |s.ships| ==> s.ships[i].hits <= Elements(s.ships[i].cells))
  }

  /** `shipsSunk` counts the sunk ships, and exactly the cells of sunk ships are marked `sunk-part`. */
  predicate SunkOk(s: State)
  {
    && s.shipsSunk == CountSunk(s.ships)
    && (forall p :: p in s.sunkParts ==> p in s.board && s.board[p].Some?)
    && (forall i, p :: 0 <= i < |s.ships| && p in s.board && s.board[p] == Some(s.ships[i].name) ==>
          (p in s.sunkParts <==> IsSunk(s.ships[i])))
  }

  /** Every torpedo spent went to a distinct cell, and none is owed. */
  predicate AmmoOk(s: State)
  {
    0 <= s.torpedoes && s.torpedoes + |Fired(s.marks)| == InitialTorpedoes
  }

  /** The game is over exactly when `checkGameOver` would end it. */
  predicate OverOk(s: State)
  {
    s.isGameOver <==> Verdict(s.shipsSunk, s.torpedoes) != InProgress
  }

  ghost predicate Inv(s: State)
  {
    Shaped(s) && FleetOk(s) && MarksOk(s) && HitsOk(s) && SunkOk(s) && AmmoOk(s) && OverOk(s)
  }

  // ---- the initial state ----

  lemma {:induction false} NoneSunk(ships: seq<Ship>)
    requires forall i :: 0 <= i < |ships| ==> ships[i].hits == {} && ships[i].size > 0
    ensures CountSunk(ships) == 0
  {
    if ships != [] {
      NoneSunk(ships[1..]);
    }
  }

  /** A game whose ships are placed (all, or the first `k` when the draws ran out) starts in a state that keeps the invariant. */
  lemma InitialInv(b: Board, ships: seq<Ship>, k: nat)
    requires Placed(b, ships, k)
    ensures Inv(InitialState(b, ships))
  {
    InitialFleet(b, ships, k);
    InitialPlay(b, ships);
  }

  /**
   * A new game, with the fleet placed from the draws on an empty board,
   * starts in a state that keeps the invariant; with the whole roster
   * placed, 17 cells hold a ship and each name is on `size` of them.
   */
  lemma NewGameInv(ships: seq<Ship>, attempts: seq<Attempt>, s: State)
    requires RosterShape(ships) && Cleared(ships)
    requires var r := PlaceRun(EmptyBoard, ships, 0, attempts); s == InitialState(r.board, r.ships)
    ensures Inv(s)
    ensures PlaceRun(EmptyBoard, ships, 0, attempts).placed == NumShips ==> |Occupied(s.board)| == FleetCells && FullFleet(s)
  {
    var r := PlaceRun(EmptyBoard, ships, 0, attempts);
    PlaceShipsResult(ships, attempts);
    InitialInv(r.board, r.ships, r.placed);
  }

  /** Nothing fired, nothing hit, nothing sunk, a full magazine. */
  lemma InitialPlay(b: Board, ships: seq<Ship>)
    requires Total(b)
    requires forall i :: 0 <= i < |ships| ==> ships[i].hits == {} && ships[i].size > 0
    ensures var s := InitialState(b, ships);
      Shaped(s) && MarksOk(s) && HitsOk(s) && SunkOk(s) && AmmoOk(s) && OverOk(s)
  {
    TotalOver(FreshMarks);
    assert Fired(FreshMarks) == {};
    NoneSunk(ships);
    assert forall i :: 0 <= i < |ships| ==> !IsSunk(ships[i]);
  }

  lemma InitialFleet(b: Board, ships: seq<Ship>, k: nat)
    requires Placed(b, ships, k)
    ensures FleetOk(InitialState(b, ships))
  {
    RosterDistinct(ships);
    forall i | 0 <= i < NumShips
      ensures IdCells(ships[i].cells) == NameCells(b, ships[i].name)
    {
      IdCellsOfShip(b, ships, i);
    }
    forall p | p in b && b[p].Some?
      ensures b[p].value in ShipNames(ships)
    {
      var j :| 0 <= j < NumShips && RosterNames[j] == b[p].value;
      assert ships[j].name == b[p].value;
    }
  }

  // ---- one shot preserves the invariant ----

  /** A shot at a cell nobody fired at adds that one cell to the fired ones. */
  lemma FiredAdd(marks: Marks, p: Cell, v: CellState)
    requires p in marks && marks[p] == Unknown && v != Unknown
    ensures Fired(marks[p := v]) == Fired(marks) + {p} && p !in Fired(marks)
    ensures |Fired(marks[p := v])| == |Fired(marks)| + 1
  {
    assert Fired(marks[p := v]) == Fired(marks) + {p};
  }

  /** On a board of roster names, the ship named on a cell is the roster ship `ShipIndex` finds. */
  lemma FindOwner(s: State, p: Cell) returns (i: nat)
    requires Shaped(s) && FleetOk(s) && s.board[p].Some?
    ensures i < NumShips && ShipIndex(s.ships, s.board[p].value) == Some(i)
    ensures s.board[p] == Some(s.ships[i].name)
  {
    var name := s.board[p].value;
    assert name in ShipNames(s.ships);
    i :| 0 <= i < NumShips && s.ships[i].name == name;
    FindDistinct(s.ships, i);
  }

  /** A ship on a cell not yet fired at has strictly fewer hits than cells, so it is not sunk. */
  lemma NotYetSunk(s: State, p: Cell, i: nat)
    requires Shaped(s) && FleetOk(s) && HitsOk(s)
    requires s.marks[p] == Unknown && i < NumShips && s.board[p] == Some(s.ships[i].name)
    ensures CellId(p) in Elements(s.ships[i].cells) && CellId(p) !in s.ships[i].hits
    ensures |s.ships[i].hits| < s.ships[i].size && !IsSunk(s.ships[i])
  {
    var ship := s.ships[i];
    assert CellId(p) in ship.cells;
    SubsetCard(ship.hits, Elements(ship.cells));
    CardElements(ship.cells);
  }

  /** Replacing one ship changes `CountSunk` by the change in that ship's status only. */
  lemma {:induction false} CountSunkUpdate(ships: seq<Ship>, i: nat, ship: Ship)
    requires i < |ships|
    ensures CountSunk(ships[i := ship]) ==
      CountSunk(ships) - (if IsSunk(ships[i]) then 1 else 0) + (if IsSunk(ship) then 1 else 0)
  {
    if i > 0 {
      CountSunkUpdate(ships[1..], i - 1, ship);
      assert ships[i := ship][1..] == ships[1..][i - 1 := ship];
    }
  }

  lemma {:induction false} CountSunkBound(ships: seq<Ship>)
    ensures CountSunk(ships) <= |ships|
  {
    if ships != [] {
      CountSunkBound(ships[1..]);
    }
  }

  /** Marking a list of ids adds the cells they denote. */
  lemma {:induction false} MarkSunkIds(parts: set<Cell>, ids: seq<string>)
    ensures MarkSunk(parts, ids) == parts + IdCells(ids)
    decreases |ids|
  {
    if ids != [] {
      var front := ids[..|ids| - 1];
      MarkSunkIds(parts, front);
      assert forall id :: id in ids <==> id in front || id == ids[|ids| - 1];
    }
  }

  /** Marking all of a ship's ids adds exactly the cells its name is on. */
  lemma SunkPartsOfShip(s: State, i: nat)
    requires Shaped(s) && FleetOk(s) && i < NumShips
    ensures MarkSunk(s.sunkParts, s.ships[i].cells) == s.sunkParts + NameCells(s.board, s.ships[i].name)
  {
    MarkSunkIds(s.sunkParts, s.ships[i].cells);
  }

  /** A shot leaves the board and every ship's name, size and cells as they were. */
  lemma FleetKept(s: State, u: State)
    requires FleetOk(s) && u.board == s.board && |u.ships| == |s.ships|
    requires forall i :: 0 <= i < |s.ships| ==>
      u.ships[i].name == s.ships[i].name && u.ships[i].size == s.ships[i].size && u.ships[i].cells == s.ships[i].cells
    ensures FleetOk(u)
  {
    assert forall i, p :: 0 <= i < |u.ships| && p in u.board ==>
      (u.board[p] == Some(u.ships[i].name) <==> s.board[p] == Some(s.ships[i].name));
    assert ShipNames(u.ships) == ShipNames(s.ships);
  }

  /** The hits of every ship after a hit at `p` on ship `i`. */
  lemma HitsStep(s: State, p: Cell, i: nat, u: State)
    requires Shaped(s) && NamesDistinct(s.ships) && HitsOk(s)
    requires s.marks[p] == Unknown && i < |s.ships| && s.board[p] == Some(s.ships[i].name)
    requires CellId(p) in Elements(s.ships[i].cells)
    requires u.board == s.board && u.marks == s.marks[p := Hit]
    requires u.ships == s.ships[i := s.ships[i].(hits := s.ships[i].hits + {CellId(p)})]
    ensures HitsOk(u)
  {
    forall j, q | 0 <= j < |u.ships| && q in u.board && q in u.marks
      ensures CellId(q) in u.ships[j].hits <==> u.marks[q] == Hit && u.board[q] == Some(u.ships[j].name)
    {
      CellIdInjective(p, q);
    }
  }

  /** The sunk count and the `sunk-part` cells after a hit on ship `i`, which was not sunk before. */
  lemma SunkStep(s: State, p: Cell, i: nat, u: State)
    requires Shaped(s) && NamesDistinct(s.ships) && SunkOk(s)
    requires i < |s.ships| && s.board[p] == Some(s.ships[i].name)
    requires !IsSunk(s.ships[i])
    requires u.board == s.board && |u.ships| == |s.ships| && u.ships == s.ships[i := u.ships[i]]
    requires u.ships[i].name == s.ships[i].name
    requires u.shipsSunk == CountSunk(u.ships)
    requires u.sunkParts == if IsSunk(u.ships[i]) then s.sunkParts + NameCells(s.board, s.ships[i].name) else s.sunkParts
    ensures SunkOk(u)
  {
    forall j, q | 0 <= j < |u.ships| && q in u.board && u.board[q] == Some(u.ships[j].name)
      ensures q in u.sunkParts <==> IsSunk(u.ships[j])
    {
    }
  }

  /** Unfolds `HitEffect` for a found ship `i`, field by field; a proof helper, not a promise of its own. */
  lemma HitShape(s: State, p: Cell, name: string, i: nat)
    requires ShipIndex(s.ships, name) == Some(i)
    ensures i < |s.ships|
    ensures var u := HitEffect(s, p, name);
      var ship := s.ships[i].(hits := s.ships[i].hits + {CellId(p)});
      && u.board == s.board && u.marks == s.marks[p := Hit]
      && u.ships == s.ships[i := ship] && u.torpedoes == s.torpedoes && u.isGameOver == s.isGameOver
      && u.shipsSunk == (if IsSunk(ship) then s.shipsSunk + 1 else s.shipsSunk)
      && u.sunkParts == (if IsSunk(ship) then MarkSunk(s.sunkParts, ship.cells) else s.sunkParts)
  {
  }

  /** A state agreeing field by field with what a hit on a found ship does is that hit's result. */
  lemma HitFields(s: State, p: Cell, name: string, i: nat, u: State)
    requires ShipIndex(s.ships, name) == Some(i) && i < |s.ships|
    requires var ship := s.ships[i].(hits := s.ships[i].hits + {CellId(p)});
      && u.board == s.board && u.marks == s.marks[p := Hit]
      && u.ships == s.ships[i := ship] && u.torpedoes == s.torpedoes && u.isGameOver == s.isGameOver
      && u.shipsSunk == (if IsSunk(ship) then s.shipsSunk + 1 else s.shipsSunk)
      && u.sunkParts == (if IsSunk(ship) then MarkSunk(s.sunkParts, ship.cells) else s.sunkParts)
    ensures u == HitEffect(s, p, name)
  {
    HitShape(s, p, name, i);
  }

  /** The hit step keeps every part of the invariant except the end-of-game clause. */
  lemma HitStep(s: State, p: Cell)
    requires Inv(s) && !s.isGameOver && s.marks[p] == Unknown && s.board[p].Some?
    ensures var u := HitEffect(s.(torpedoes := s.torpedoes - 1), p, s.board[p].value);
      && Shaped(u) && FleetOk(u) && MarksOk(u) && HitsOk(u) && SunkOk(u)
      && u.board == s.board && u.torpedoes == s.torpedoes - 1 && !u.isGameOver
      && Fired(u.marks) == Fired(s.marks) + {p}
  {
    var t := s.(torpedoes := s.torpedoes - 1);
    var i := FindOwner(s, p);
    NotYetSunk(s, p, i);
    HitShape(t, p, s.board[p].value, i);
    FiredAdd(s.marks, p, Hit);
    HitStepOn(s, p, i, HitEffect(t, p, s.board[p].value));
  }

  /** `HitStep` for a state `u` given field by field. */
  lemma HitStepOn(s: State, p: Cell, i: nat, u: State)
    requires Inv(s) && s.marks[p] == Unknown && i < NumShips && s.board[p] == Some(s.ships[i].name)
    requires CellId(p) in Elements(s.ships[i].cells) && !IsSunk(s.ships[i])
    requires var ship := s.ships[i].(hits := s.ships[i].hits + {CellId(p)});
      && u.board == s.board && u.marks == s.marks[p := Hit] && u.ships == s.ships[i := ship]
      && u.shipsSunk == (if IsSunk(ship) then s.shipsSunk + 1 else s.shipsSunk)
      && u.sunkParts == (if IsSunk(ship) then MarkSunk(s.sunkParts, ship.cells) else s.sunkParts)
    ensures Shaped(u) && FleetOk(u) && MarksOk(u) && HitsOk(u) && SunkOk(u)
  {
    MarksStep(s, p, Hit, u);
    HitFleet(s, i, s.ships[i].hits + {CellId(p)}, u);
    HitsStep(s, p, i, u);
    HitSunk(s, p, i, u);
  }

  /** Recording a hit on ship `i` leaves the fleet's layout as it was. */
  lemma HitFleet(s: State, i: nat, hits: set<string>, u: State)
    requires FleetOk(s) && i < |s.ships|
    requires u.board == s.board && u.ships == s.ships[i := s.ships[i].(hits := hits)]
    ensures FleetOk(u)
  {
    FleetKept(s, u);
  }

  /** The sunk count and the `sunk-part` cells after a hit on ship `i`. */
  lemma HitSunk(s: State, p: Cell, i: nat, u: State)
    requires Shaped(s) && FleetOk(s) && SunkOk(s)
    requires i < NumShips && s.board[p] == Some(s.ships[i].name) && !IsSunk(s.ships[i])
    requires var ship := s.ships[i].(hits := s.ships[i].hits + {CellId(p)});
      && u.board == s.board && u.ships == s.ships[i := ship]
      && u.shipsSunk == (if IsSunk(ship) then s.shipsSunk + 1 else s.shipsSunk)
      && u.sunkParts == (if IsSunk(ship) then MarkSunk(s.sunkParts, ship.cells) else s.sunkParts)
    ensures SunkOk(u)
  {
    var ship := s.ships[i].(hits := s.ships[i].hits + {CellId(p)});
    CountSunkUpdate(s.ships, i, ship);
    if IsSunk(ship) {
      SunkPartsOfShip(s, i);
    }
    SunkStep(s, p, i, u);
  }

  /** Marking a cell `hit` where a ship is, or `miss` where none is, keeps the marks consistent. */
  lemma MarksStep(s: State, p: Cell, v: CellState, u: State)
    requires Shaped(s) && MarksOk(s) && v != Unknown
    requires v == (if s.board[p].Some? then Hit else Miss)
    requires u.board == s.board && u.marks == s.marks[p := v]
    ensures MarksOk(u)
  {
  }

  /** The miss step keeps every part of the invariant except the end-of-game clause. */
  lemma MissStep(s: State, p: Cell)
    requires Inv(s) && !s.isGameOver && s.marks[p] == Unknown && s.board[p] == None
    ensures var u := MissEffect(s.(torpedoes := s.torpedoes - 1), p);
      && Shaped(u) && FleetOk(u) && MarksOk(u) && HitsOk(u) && SunkOk(u)
      && u.board == s.board && u.torpedoes == s.torpedoes - 1 && !u.isGameOver
      && Fired(u.marks) == Fired(s.marks) + {p}
  {
    var u := MissEffect(s.(torpedoes := s.torpedoes - 1), p);
    FiredAdd(s.marks, p, Miss);
    FleetKept(s, u);
    MissHits(s, p, u);
  }

  lemma MissHits(s: State, p: Cell, u: State)
    requires Shaped(s) && HitsOk(s) && SunkOk(s) && MarksOk(s) && s.marks[p] == Unknown && s.board[p] == None
    requires u == s.(torpedoes := u.torpedoes, marks := s.marks[p := Miss])
    ensures Shaped(u) && HitsOk(u) && SunkOk(u) && MarksOk(u)
  {
  }

  /** The end-of-game check after an accepted shot restores the last clauses of the invariant. */
  lemma GameOverStep(s: State, u: State)
    requires Inv(s) && !s.isGameOver
    requires Shaped(u) && FleetOk(u) && MarksOk(u) && HitsOk(u) && SunkOk(u)
    requires u.torpedoes == s.torpedoes - 1 && !u.isGameOver
    requires |Fired(u.marks)| == |Fired(s.marks)| + 1
    ensures Inv(CheckGameOver(u))
  {
    assert AmmoOk(u);
    if Verdict(u.shipsSunk, u.torpedoes) != InProgress {
      FlagOnly(u, true);
    }
  }

  /** Setting `isGameOver` leaves every clause of the invariant that does not mention it. */
  lemma FlagOnly(u: State, over: bool)
    requires Shaped(u) && FleetOk(u) && MarksOk(u) && HitsOk(u) && SunkOk(u) && AmmoOk(u)
    ensures var v := u.(isGameOver := over);
      Shaped(v) && FleetOk(v) && MarksOk(v) && HitsOk(v) && SunkOk(v) && AmmoOk(v)
  {
    var v := u.(isGameOver := over);
    assert v.board == u.board && v.marks == u.marks && v.ships == u.ships;
    assert v.sunkParts == u.sunkParts && v.shipsSunk == u.shipsSunk && v.torpedoes == u.torpedoes;
  }

  /** Unfolds `Fire` into its three branches; a proof helper that keeps method proofs cheap, not a promise of its own. */
  lemma FireCases(s: State, p: Cell)
    requires Shaped(s)
    ensures s.isGameOver || s.marks[p] != Unknown ==> Fire(s, p) == s
    ensures !s.isGameOver && s.marks[p] == Unknown && s.board[p].Some? ==>
      Fire(s, p) == CheckGameOver(HitEffect(s.(torpedoes := s.torpedoes - 1), p, s.board[p].value))
    ensures !s.isGameOver && s.marks[p] == Unknown && s.board[p] == None ==>
      Fire(s, p) == CheckGameOver(MissEffect(s.(torpedoes := s.torpedoes - 1), p))
  {
  }

  /** Every shot keeps the invariant. */
  lemma FirePreservesInv(s: State, p: Cell)
    requires Inv(s)
    ensures Inv(Fire(s, p))
  {
    FireCases(s, p);
    if !s.isGameOver && s.marks[p] == Unknown {
      var t := s.(torpedoes := s.torpedoes - 1);
      FiredAdd(s.marks, p, if s.board[p].Some? then Hit else Miss);
      if s.board[p].Some? {
        var u := HitEffect(t, p, s.board[p].value);
        HitStep(s, p);
        GameOverStep(s, u);
        assert Inv(CheckGameOver(u));
      } else {
        var u := MissEffect(t, p);
        MissStep(s, p);
        GameOverStep(s, u);
        assert Inv(CheckGameOver(u));
      }
    }
  }

  /** `FirePreservesInv` as one implication, for callers that do not know whether `Inv(s)` holds. */
  lemma FireKeepsInv(s: State, p: Cell, r: State)
    requires Shaped(s) && r == Fire(s, p)
    ensures Inv(s) ==> Inv(r)
  {
    if Inv(s) {
      FirePreservesInv(s, p);
    }
  }

  // ---- what a shot does ----

  /** A shot after the game is over, or at a cell already hit or missed, changes nothing. */
  lemma FireIgnored(s: State, p: Cell)
    requires Shaped(s) && (s.isGameOver || s.marks[p] != Unknown)
    ensures Fire(s, p) == s
  {
  }

  /**
   * An accepted shot spends exactly one torpedo, marks the cell `hit` when
   * `shipBoard` holds a name there and `miss` otherwise, adds the cell's id
   * to the hits of the named ship and of no other, and changes neither the
   * board nor any ship's name, size or cells.
   */
  lemma FireAccepted(s: State, p: Cell)
    requires Shaped(s) && FleetOk(s) && !s.isGameOver && s.marks[p] == Unknown
    ensures var r := Fire(s, p);
      && r.torpedoes == s.torpedoes - 1
      && r.marks == s.marks[p := if s.board[p].Some? then Hit else Miss]
      && r.ships == if s.board[p].Some? then HitShips(s.ships, s.board[p].value, CellId(p)) else s.ships
  {
    FireCases(s, p);
    if s.board[p].Some? {
      var i := FindOwner(s, p);
      HitShape(s.(torpedoes := s.torpedoes - 1), p, s.board[p].value, i);
      HitShipsAt(s.ships, i, CellId(p));
    }
  }

  /** The fleet with a hit `id` added to every ship called `name` and to no other. */
  function HitShips(ships: seq<Ship>, name: string, id: string): seq<Ship>
  {
    seq(|ships|, j requires 0 <= j < |ships| =>
      if ships[j].name == name then ships[j].(hits := ships[j].hits + {id}) else ships[j])
  }

  /** In the roster, adding the hit to the ship `find` returns is adding it to the ship with that name. */
  lemma HitShipsAt(ships: seq<Ship>, i: nat, id: string)
    requires NamesDistinct(ships) && i < |ships|
    ensures ships[i := ships[i].(hits := ships[i].hits + {id})] == HitShips(ships, ships[i].name, id)
  {
  }

  /**
   * `shipsSunk` goes up by one exactly on the shot that brings the hit
   * ship's hits up to its size; a ship already sunk is never hit again, so
   * each ship is counted once.
   */
  lemma FireSinks(s: State, p: Cell, i: nat)
    requires Shaped(s) && FleetOk(s) && HitsOk(s) && !s.isGameOver && s.marks[p] == Unknown
    requires i < NumShips && s.board[p] == Some(s.ships[i].name)
    ensures var r := Fire(s, p);
      && !IsSunk(s.ships[i])
      && (r.shipsSunk == s.shipsSunk + 1 <==> IsSunk(r.ships[i]))
      && (r.shipsSunk == s.shipsSunk <==> !IsSunk(r.ships[i]))
      && (IsSunk(r.ships[i]) ==> NameCells(s.board, s.ships[i].name) <= r.sunkParts)
  {
    FireCases(s, p);
    var j := FindOwner(s, p);
    NotYetSunk(s, p, i);
    var ship := s.ships[i].(hits := s.ships[i].hits + {CellId(p)});
    HitShape(s.(torpedoes := s.torpedoes - 1), p, s.board[p].value, i);
    if IsSunk(ship) {
      SunkPartsOfShip(s, i);
    }
  }

  /** A miss sinks nothing. */
  lemma FireMisses(s: State, p: Cell)
    requires Inv(s) && !s.isGameOver && s.marks[p] == Unknown && s.board[p] == None
    ensures Fire(s, p).shipsSunk == s.shipsSunk && Fire(s, p).ships == s.ships
  {
  }

  /** The counters stay in range in a game in play, and each ship's hits are among its cells. */
  lemma Bounds(s: State)
    requires Inv(s)
    ensures 0 <= s.torpedoes <= InitialTorpedoes
    ensures 0 <= s.shipsSunk <= NumShips
    ensures forall i :: 0 <= i < |s.ships| ==> s.ships[i].hits <= Elements(s.ships[i].cells) && |s.ships[i].hits| <= s.ships[i].size
  {
    CountSunkBound(s.ships);
    forall i | 0 <= i < |s.ships|
      ensures |s.ships[i].hits| <= s.ships[i].size
    {
      SubsetCard(s.ships[i].hits, Elements(s.ships[i].cells));
      CardElements(s.ships[i].cells);
    }
  }

  // ---- what "sunk" means ----

  /**
   * Every ship's name is on exactly `size` cells of the board, as it is once
   * the whole roster is placed.
   */
  predicate FullFleet(s: State)
  {
    forall i :: 0 <= i < |s.ships| ==> |NameCells(s.board, s.ships[i].name)| == s.ships[i].size
  }

  /** The ids `${r}-${c}` of a set of cells. */
  function CellIds(ps: set<Cell>): set<string>
  {
    set p | p in ps :: CellId(p)
  }

  /** Distinct cells have distinct ids, so a set of cells has as many ids as cells. */
  lemma {:induction false} CardCellIds(ps: set<Cell>)
    ensures |CellIds(ps)| == |ps|
    decreases |ps|
  {
    if ps != {} {
      var e :| e in ps;
      CardCellIds(ps - {e});
      forall q | q in ps - {e}
        ensures CellId(q) != CellId(e)
      {
        CellIdInjective(q, e);
      }
      assert CellIds(ps) == CellIds(ps - {e}) + {CellId(e)};
    }
  }

  /**
   * `ship.hits.size === ship.size` (line 177) means what the game promises:
   * once the fleet is fully placed, a ship is sunk exactly when every cell
   * holding its name has been hit.
   */
  lemma SunkMeansAllHit(s: State, i: nat)
    requires Inv(s) && FullFleet(s) && i < NumShips
    ensures IsSunk(s.ships[i]) <==>
      forall p :: p in s.board && s.board[p] == Some(s.ships[i].name) ==> s.marks[p] == Hit
  {
    var ship := s.ships[i];
    var cells := Elements(ship.cells);
    CardElements(ship.cells);
    SubsetCard(ship.hits, cells);
    if IsSunk(ship) {
      assert ship.hits == cells;
      forall p | p in s.board && s.board[p] == Some(ship.name)
        ensures s.marks[p] == Hit
      {
        assert CellId(p) in ship.hits;
      }
    }
    if forall p :: p in s.board && s.board[p] == Some(ship.name) ==> s.marks[p] == Hit {
      var named := NameCells(s.board, ship.name);
      CardCellIds(named);
      assert CellIds(named) <= ship.hits;
      SubsetCard(CellIds(named), ship.hits);
    }
  }

  /** `CountSunk` reaches the number of ships exactly when every ship is sunk. */
  lemma {:induction false} AllSunk(ships: seq<Ship>)
    ensures CountSunk(ships) == |ships| <==> forall i :: 0 <= i < |ships| ==> IsSunk(ships[i])
  {
    if ships != [] {
      AllSunk(ships[1..]);
      CountSunkBound(ships[1..]);
      assert forall i :: 1 <= i < |ships| ==> ships[i] == ships[1..][i - 1];
    }
  }

  /**
   * Once the fleet is fully placed, `shipsSunk` reaches five, the count
   * `checkGameOver` calls a win, exactly when every cell holding a ship has
   * been hit: all 17 cells.
   */
  lemma WonMeansAllHit(s: State)
    requires Inv(s) && FullFleet(s)
    ensures s.shipsSunk == NumShips <==> forall p :: p in s.board && s.board[p].Some? ==> s.marks[p] == Hit
  {
    AllSunk(s.ships);
    forall i | 0 <= i < NumShips
      ensures IsSunk(s.ships[i]) <==>
        forall p :: p in s.board && s.board[p] == Some(s.ships[i].name) ==> s.marks[p] == Hit
    {
      SunkMeansAllHit(s, i);
    }
    if forall p :: p in s.board && s.board[p].Some? ==> s.marks[p] == Hit {
      assert forall i :: 0 <= i < NumShips ==> IsSunk(s.ships[i]);
    } else {
      var p :| p in s.board && s.board[p].Some? && s.marks[p] != Hit;
      var i := FindOwner(s, p);
      assert !IsSunk(s.ships[i]);
    }
  }

  /** A shot changes neither the board nor any ship's name or size, so a fully placed fleet stays so. */
  lemma FireKeepsFullFleet(s: State, p: Cell)
    requires Shaped(s) && FleetOk(s) && FullFleet(s)
    ensures FullFleet(Fire(s, p))
  {
    FireCases(s, p);
    if !s.isGameOver && s.marks[p] == Unknown {
      FireAccepted(s, p);
    }
  }

  /**
   * Sinking the last ship is a win even when the last torpedo was spent on
   * that shot; otherwise running out of torpedoes is a loss.
   */
  lemma VerdictRules(shipsSunk: int, torpedoes: int)
    ensures shipsSunk == NumShips ==> Verdict(shipsSunk, torpedoes) == Won
    ensures shipsSunk != NumShips ==> (Verdict(shipsSunk, torpedoes) == Lost <==> torpedoes <= 0)
    ensures Verdict(shipsSunk, torpedoes) == InProgress <==> shipsSunk != NumShips && torpedoes > 0
  {
  }

  /** With no torpedo left the game is over, so every further shot is ignored. */
  lemma OutOfTorpedoes(s: State, p: Cell)
    requires Inv(s) && s.torpedoes == 0
    ensures s.isGameOver && Fire(s, p) == s
  {
  }

  /** Firing twice at the same cell is the same as firing once. */
  lemma FireTwice(s: State, p: Cell)
    requires Inv(s)
    ensures Fire(Fire(s, p), p) == Fire(s, p)
  {
    FireCases(s, p);
    if !s.isGameOver && s.marks[p] == Unknown {
      FireAccepted(s, p);
    }
    FireCases(Fire(s, p), p);
  }

  /**
   * Any sequence of shots keeps the invariant, never raises the torpedo
   * count or lowers `shipsSunk`, never takes the torpedoes below zero, and
   * changes nothing once the game is over; a fully placed fleet stays so.
   */
  lemma {:induction false} ShotsInv(s: State, ps: seq<Cell>)
    requires Inv(s)
    ensures var r := Shots(s, ps);
      && Inv(r) && 0 <= r.torpedoes <= s.torpedoes && s.shipsSunk <= r.shipsSunk
      && (s.isGameOver ==> r == s) && (FullFleet(s) ==> FullFleet(r))
    decreases |ps|
  {
    if ps != [] {
      ShotStep(s, ps[0]);
      ShotsInv(Fire(s, ps[0]), ps[1..]);
    }
  }

  /** One shot keeps the invariant and moves the counters only one way. */
  lemma ShotStep(s: State, p: Cell)
    requires Inv(s)
    ensures var r := Fire(s, p);
      && Inv(r) && r.torpedoes <= s.torpedoes && s.shipsSunk <= r.shipsSunk && r.board == s.board
      && (s.isGameOver ==> r == s) && (FullFleet(s) ==> FullFleet(r))
  {
    FirePreservesInv(s, p);
    if FullFleet(s) {
      FireKeepsFullFleet(s, p);
    }
    FireCases(s, p);
    if !s.isGameOver && s.marks[p] == Unknown {
      FireAccepted(s, p);
      if s.board[p].Some? {
        var i := FindOwner(s, p);
        FireSinks(s, p, i);
      } else {
        FireMisses(s, p);
      }
    }
  }
}
