/**
 * The game as the page runs it (game.js): the module-level variables of
 * lines 4 and 41-42 become the fields of one `Game` object, and `initGame`,
 * `placeShips`, `fireTorpedo`, `handleHit`, `handleMiss`, `checkGameOver`
 * and `showGameOver` become its methods, each proved to do what the
 * value-level definitions of `Fleet` and `Battle` say.
 */
module Depthcharge {
  import opened Wrappers
  import opened Cells
  import opened Fleet
  import opened Battle

  /** A 10 by 10 grid. */
  predicate Square<T>(a: array2<T>)
  {
    a.Length0 == GridSize && a.Length1 == GridSize
  }

  /** The contents of a 10 by 10 grid as a map from cells. */
  ghost function Grid<T>(a: array2<T>): (m: map<Cell, T>)
    requires Square(a)
    reads a
    ensures Total(m)
  {
    var m := map p | p in AllCells :: a[p.0, p.1];
    TotalOver(m);
    m
  }

  /** Each cell of the board is a key of `Grid(a)`, holding what `a` holds there. */
  lemma GridAt<T>(a: array2<T>)
    requires Square(a)
    ensures forall p: Cell :: p in Grid(a) && Grid(a)[p] == a[p.0, p.1]
  {
    forall p: Cell
      ensures p in AllCells
    {
      AllCellsComplete(p);
    }
  }

  /** A new 10 by 10 grid holding `v` on every cell. */
  method NewGrid<T>(v: T) returns (a: array2<T>)
    ensures fresh(a) && Square(a)
    ensures forall p: Cell :: p in Grid(a) && Grid(a)[p] == v
  {
    a := new T[GridSize, GridSize]((r, c) => v);
    GridAt(a);
  }

  /** `a[r][c] = v`: one cell changes and no other. */
  method SetCell<T>(a: array2<T>, p: Cell, v: T)
    requires Square(a)
    modifies a
    ensures Grid(a) == old(Grid(a))[p := v]
  {
    GridAt(a);
    ghost var before := Grid(a);
    a[p.0, p.1] := v;
    GridAt(a);
    UpdateAt(before, Grid(a), p, v);
  }

  class Game {
    /** `shipBoard`: the name of the ship on each cell, or null. */
    var shipBoard: array2<Option<string>>
    /** Whether the element of each cell of `board` carries the class `hit`, `miss` or neither. */
    var marks: array2<CellState>
    /** The cells whose element carries the class `sunk-part`. */
    var sunkParts: set<Cell>
    /** The roster with each ship's `hits` and `cells`. */
    var ships: seq<Ship>
    var torpedoes: int
    var shipsSunk: int
    var isGameOver: bool

    /** Both grids are 10 by 10 and the roster keeps its names and sizes. */
    ghost predicate Valid()
      reads this
    {
      Square(shipBoard) && Square(marks) && RosterShape(ships)
    }

    /** The whole state as one value. */
    ghost function View(): (s: State)
      requires Valid()
      reads this, shipBoard, marks
      ensures Shaped(s)
    {
      State(Grid(shipBoard), Grid(marks), sunkParts, ships, torpedoes, shipsSunk, isGameOver)
    }

    /** The page loads: the roster is built (lines 7-13) and `initGame` runs (line 255). */
    constructor (attempts: seq<Attempt>)
      ensures Valid() && fresh(shipBoard) && fresh(marks)
      ensures torpedoes == InitialTorpedoes && shipsSunk == 0 && !isGameOver
      ensures var r := PlaceRun(EmptyBoard, NewFleet(), 0, attempts);
        Grid(shipBoard) == r.board && ships == r.ships
      ensures Grid(marks) == FreshMarks && sunkParts == {}
      ensures Inv(View())
    {
      var board := NewGrid(None);
      var cells := NewGrid(Unknown);
      ships, shipBoard, marks := NewFleet(), board, cells;
      sunkParts := {};
      torpedoes, shipsSunk, isGameOver := InitialTorpedoes, 0, false;
      new;
      assert ClearAll(NewFleet()) == NewFleet();
      var placed, used := InitGame(attempts);
    }

    /**
     * The part of `initGame` before placement (lines 52-69): the counters
     * and flag are reset, `shipBoard` and the board are made anew, and every
     * ship's hits and cells are cleared.
     */
    method Reset()
      requires Valid()
      modifies this
      ensures Valid() && fresh(shipBoard) && fresh(marks)
      ensures torpedoes == InitialTorpedoes && shipsSunk == 0 && !isGameOver
      ensures Grid(shipBoard) == EmptyBoard && Grid(marks) == FreshMarks && sunkParts == {}
      ensures ships == ClearAll(old(ships))
      ensures Cleared(ships)
    {
      torpedoes := InitialTorpedoes;
      shipsSunk := 0;
      isGameOver := false;
      shipBoard := NewGrid(None);
      ClearFleet();
      marks := NewGrid(Unknown);
      sunkParts := {};
      IsEmptyBoard(Grid(shipBoard));
      IsFreshMarks(Grid(marks));
    }

    /** `ships.forEach(ship => { ship.hits.clear(); ship.cells = []; })` (lines 58-61). */
    method ClearFleet()
      modifies this`ships
      ensures ships == ClearAll(old(ships))
    {
      var fleet := ships;
      for i := 0 to |fleet|
        invariant |fleet| == |ships|
        invariant forall j :: 0 <= j < i ==> fleet[j] == ships[j].(hits := {}, cells := [])
        invariant forall j :: i <= j < |fleet| ==> fleet[j] == ships[j]
      {
        fleet := fleet[i := fleet[i].(hits := {}, cells := [])];
      }
      ships := fleet;
    }

    /**
     * `initGame` (lines 51-76): reset, then place the fleet from the draws.
     * With the whole roster placed, 17 cells are occupied and each ship's
     * name is on `size` of them.
     */
    method InitGame(attempts: seq<Attempt>) returns (placed: nat, used: nat)
      requires Valid()
      modifies this
      ensures Valid() && fresh(shipBoard) && fresh(marks)
      ensures torpedoes == InitialTorpedoes && shipsSunk == 0 && !isGameOver
      ensures Grid(marks) == FreshMarks && sunkParts == {}
      ensures var r := PlaceRun(EmptyBoard, ClearAll(old(ships)), 0, attempts);
        Grid(shipBoard) == r.board && ships == r.ships && placed == r.placed && used == r.used
      ensures Inv(View())
      ensures placed == NumShips ==> |Occupied(Grid(shipBoard))| == FleetCells && FullFleet(View())
    {
      Reset();
      ghost var cleared := ships;
      placed, used := PlaceShips(attempts);
      NewGameInv(cleared, attempts, View());
    }

    /**
     * One pass of the `while (!placed)` body of `placeShips` for ship `k`
     * (lines 113-138), with the draw `a` in place of `Math.random`: the span
     * is rejected when it leaves the board or meets an occupied cell, and
     * otherwise the ship's name is written on it and the ids of its cells
     * are pushed onto the ship's `cells`.
     */
    method PlaceAttempt(k: nat, a: Attempt) returns (accepted: bool)
      requires Valid() && k < |ships|
      modifies this`ships, shipBoard
      ensures Valid()
      ensures accepted == Accepts(old(Grid(shipBoard)), old(ships)[k].size, a)
      ensures (Grid(shipBoard), ships) == Attempted(old(Grid(shipBoard)), old(ships), k, a)
    {
      var size := ships[k].size;
      if a.isHoriz && a.col + size > GridSize {
        return false;
      }
      if !a.isHoriz && a.row + size > GridSize {
        return false;
      }
      var positions := Scan(a, size);
      accepted := |positions| == size;
      if accepted {
        Commit(k, positions);
      }
    }

    /**
     * The inner loop of `placeShips` (lines 120-130): the positions of the
     * span in order, or none as soon as one of them is occupied.
     */
    method Scan(a: Attempt, size: nat) returns (positions: seq<Cell>)
      requires Square(shipBoard) && Fits(a, size)
      ensures Free(Grid(shipBoard), Span(a, size)) ==> positions == Span(a, size)
      ensures !Free(Grid(shipBoard), Span(a, size)) ==> positions == [] && size > 0
    {
      GridAt(shipBoard);
      ghost var b := Grid(shipBoard);
      ghost var span := Span(a, size);
      positions := [];
      var i := 0;
      while i < size
        invariant 0 <= i <= size
        invariant positions == span[..i]
        invariant Free(b, positions)
      {
        var p: Cell := if a.isHoriz then (a.row, a.col + i) else (a.row + i, a.col);
        assert span[i] == p;
        if shipBoard[p.0, p.1].Some? {
          assert !Free(b, span);
          positions := [];
          return;
        }
        positions := positions + [p];
        i := i + 1;
      }
      assert positions == span;
    }

    /**
     * Lines 133-136: the ship's name is written on each position in turn and
     * the position's id is pushed onto the ship's `cells`.
     */
    method Commit(k: nat, positions: seq<Cell>)
      requires Valid() && k < |ships|
      modifies this`ships, shipBoard
      ensures Valid()
      ensures Grid(shipBoard) == Place(old(Grid(shipBoard)), positions, old(ships)[k].name)
      ensures ships == WithCells(old(ships), k, positions)
    {
      ghost var b := Grid(shipBoard);
      ghost var fleet := ships;
      var name := ships[k].name;
      var j := 0;
      assert Ids(positions[..0]) == [] && fleet[k].cells + [] == fleet[k].cells;
      while j < |positions|
        invariant 0 <= j <= |positions|
        invariant Valid()
        invariant Grid(shipBoard) == Place(b, positions[..j], name)
        invariant ships == WithCells(fleet, k, positions[..j])
      {
        var p := positions[j];
        SetCell(shipBoard, p, Some(name));
        ships := ships[k := ships[k].(cells := ships[k].cells + [CellId(p)])];
        assert positions[..j + 1] == positions[..j] + [p];
        WithCellsPush(fleet, k, positions[..j], p);
        j := j + 1;
      }
      assert positions[..|positions|] == positions;
    }

    /**
     * `placeShips` (lines 109-141): each ship in turn takes draws until one
     * is accepted. The draws are the finite sequence `attempts`; when they
     * run out the remaining ships stay unplaced. Returns how many ships were
     * placed and how many draws were used.
     */
    method PlaceShips(attempts: seq<Attempt>) returns (placed: nat, used: nat)
      requires Valid()
      modifies this`ships, shipBoard
      ensures Valid()
      ensures var r := PlaceRun(old(Grid(shipBoard)), old(ships), 0, attempts);
        Grid(shipBoard) == r.board && ships == r.ships && placed == r.placed && used == r.used
    {
      ghost var goal := PlaceRun(Grid(shipBoard), ships, 0, attempts);
      placed, used := 0, 0;
      while placed < |ships|
        invariant Valid()
        invariant placed <= |ships| && used <= |attempts|
        invariant Heading(goal, Grid(shipBoard), ships, placed, attempts, used)
        decreases |ships| - placed
      {
        var done;
        done, used := PlaceShip(placed, attempts, used, goal);
        if !done {
          return;
        }
        placed := placed + 1;
      }
    }

    /**
     * The `while (!placed)` loop of `placeShips` for ship `k` (lines
     * 111-139), taking draws from `attempts` at `from` on: returns whether
     * the ship was placed and where the first unused draw is. It stops
     * without placing the ship only when the draws run out. Whatever run
     * the state was heading for, it still is.
     */
    method PlaceShip(k: nat, attempts: seq<Attempt>, from: nat, ghost goal: Placement) returns (done: bool, used: nat)
      requires Valid() && k < |ships| && from <= |attempts|
      requires Heading(goal, Grid(shipBoard), ships, k, attempts, from)
      modifies this`ships, shipBoard
      ensures Valid() && from <= used <= |attempts| && (done || used == |attempts|)
      ensures Heading(goal, Grid(shipBoard), ships, if done then k + 1 else k, attempts, used)
    {
      done, used := false, from;
      while !done && used < |attempts|
        invariant Valid() && from <= used <= |attempts|
        invariant Heading(goal, Grid(shipBoard), ships, if done then k + 1 else k, attempts, used)
        decreases |attempts| - used
      {
        ghost var b, fleet := Grid(shipBoard), ships;
        done := PlaceAttempt(k, attempts[used]);
        PlaceRunAdvance(goal, b, fleet, k, attempts, used, (Grid(shipBoard), ships), done);
        used := used + 1;
      }
    }

    /** `ships.find(s => s.name === name)` (line 174). */
    method FindShip(name: string) returns (r: Option<nat>)
      ensures r == ShipIndex(ships, name)
    {
      var i := 0;
      while i < |ships|
        invariant 0 <= i <= |ships|
        invariant forall j :: 0 <= j < i ==> ships[j].name != name
      {
        if ships[i].name == name {
          return Some(i);
        }
        i := i + 1;
      }
      return None;
    }

    /**
     * `fireTorpedo` on the cell at `row`, `col` (lines 143-168): nothing
     * happens once the game is over or when the cell already carries `hit`
     * or `miss`; otherwise a torpedo is spent, the shot is a hit or a miss,
     * and the end of the game is checked. The game invariant is kept.
     */
    method FireTorpedo(row: Index, col: Index)
      requires Valid()
      modifies this, marks
      ensures Valid() && shipBoard == old(shipBoard) && marks == old(marks)
      ensures View() == Fire(old(View()), (row, col))
      ensures Inv(old(View())) ==> Inv(View())
    {
      ghost var before := View();
      FireCases(before, (row, col));
      if !isGameOver && marks[row, col] == Unknown {
        torpedoes := torpedoes - 1;
        assert View() == before.(torpedoes := before.torpedoes - 1);
        var target := shipBoard[row, col];
        match target {
          case Some(name) => HandleHit(row, col, name);
          case None => HandleMiss(row, col);
        }
        CheckGameOver();
      }
      FireKeepsInv(before, (row, col), View());
    }

    /**
     * `handleHit` (lines 170-193): the cell gets `hit`, the ship with that
     * name records the cell's id among its hits, and when its hits reach its
     * size `shipsSunk` goes up and each of its listed cells gets `sunk-part`.
     */
    method HandleHit(row: Index, col: Index, name: string)
      requires Valid()
      modifies this`ships, this`shipsSunk, this`sunkParts, marks
      ensures Valid()
      ensures View() == HitEffect(old(View()), (row, col), name)
    {
      ghost var before := View();
      var id := CellId((row, col));
      SetCell(marks, (row, col), Hit);
      ghost var marked := View();
      assert marked == before.(marks := before.marks[(row, col) := Hit]);
      var found := FindShip(name);
      match found {
        case Some(i) =>
          ghost var board, cells := Grid(shipBoard), Grid(marks);
          var ship := RecordHit(i, id);
          assert Grid(shipBoard) == board && Grid(marks) == cells;
          HitFields(before, (row, col), name, i, View());
        case None =>
          assert View() == marked;
      }
    }

    /**
     * Lines 175-188 once the ship is found: the cell's id joins the ship's
     * hits, and a ship whose hits reach its size is counted and marked sunk.
     */
    method RecordHit(i: nat, id: string) returns (ship: Ship)
      requires i < |ships|
      modifies this`ships, this`shipsSunk, this`sunkParts
      ensures ship == old(ships[i]).(hits := old(ships[i]).hits + {id})
      ensures ships == old(ships)[i := ship]
      ensures shipsSunk == if IsSunk(ship) then old(shipsSunk) + 1 else old(shipsSunk)
      ensures sunkParts == if IsSunk(ship) then MarkSunk(old(sunkParts), ship.cells) else old(sunkParts)
    {
      ship := ships[i].(hits := ships[i].hits + {id});
      ships := ships[i := ship];
      if |ship.hits| == ship.size {
        shipsSunk := shipsSunk + 1;
        MarkSunkParts(ship.cells);
      }
    }

    /**
     * `ship.cells.forEach(...)` (lines 184-187): each id is split at `-`,
     * read back as a row and a column, and that cell gets `sunk-part`.
     */
    method MarkSunkParts(ids: seq<string>)
      modifies this`sunkParts
      ensures sunkParts == MarkSunk(old(sunkParts), ids)
    {
      var j := 0;
      while j < |ids|
        invariant 0 <= j <= |ids|
        invariant sunkParts == MarkSunk(old(sunkParts), ids[..j])
      {
        match CellOf(ids[j]) {
          case Some(p) => sunkParts := sunkParts + {p};
          case None =>
        }
        assert ids[..j + 1][..j] == ids[..j];
        j := j + 1;
      }
      assert ids[..|ids|] == ids;
    }

    /** `handleMiss` (lines 195-199): the cell gets `miss`. */
    method HandleMiss(row: Index, col: Index)
      requires Valid()
      modifies this, marks
      ensures Valid() && shipBoard == old(shipBoard) && marks == old(marks)
      ensures View() == MissEffect(old(View()), (row, col))
    {
      SetCell(marks, (row, col), Miss);
    }

    /**
     * `checkGameOver` (lines 212-220): all ships sunk is a win, checked
     * first; otherwise no torpedo left is a loss; either ends the game.
     */
    method CheckGameOver()
      requires Valid()
      modifies this
      ensures Valid() && shipBoard == old(shipBoard) && marks == old(marks)
      ensures View() == Battle.CheckGameOver(old(View()))
    {
      if shipsSunk == NumShips {
        ShowGameOver(true);
      } else if torpedoes <= 0 {
        ShowGameOver(false);
      }
    }

    /** `showGameOver` (lines 238-244): sets `isGameOver`; `won` only picks the sound and the heading. */
    method ShowGameOver(won: bool)
      requires Valid()
      modifies this`isGameOver
      ensures Valid() && isGameOver
    {
      isGameOver := true;
    }
  }
}
