# Depthcharge game state, in Dafny

Depthcharge is a browser battleship game. One player fires torpedoes at a
hidden 10×10 grid that holds five enemy ships. This project models the
game's state machine, apart from its page and sound wiring:

- **Placement.** The five-ship roster (Yamato 5, USS Arizona 4, HMS Hood 3,
  Bismarck 3, HMS Prince of Wales 2) is placed on `shipBoard`. Each draw
  gives an orientation and an anchor cell. A draw is rejected when its
  span leaves the grid or touches an occupied cell. An accepted draw writes
  the ship's name into the span and appends `"r-c"` ids to the ship's
  `cells`.
- **Shots.** `fireTorpedo` ignores a shot once the game is over or when the
  cell was already fired at. Otherwise it spends a torpedo and marks the
  cell hit or miss. A hit adds the cell's id to the named ship's `hits`.
  A ship whose hits reach its size is counted in `shipsSunk`, and its cells
  are marked `sunk-part`.
- **End of game.** `checkGameOver` ends the game as a win when all five
  ships are sunk, and otherwise as a loss when no torpedoes remain.
- **Reset.** `initGame` restores the counters, clears the board and the
  fleet, and places the ships again.
- **Slugs.** `slugify` turns runs of whitespace into `-`. It builds the
  list-item ids of the ship list.

The game itself is one closure over module-level state. The model splits
it into two layers of its own:

- **The imperative layer.** `game.dfy` holds the class `Depthcharge.Game`.
  - Its fields are `shipBoard` (an `array2` of optional names), `marks` (an
    `array2` of `Unknown | Hit | Miss`, standing for the cells' `hit`/`miss`
    classes), `sunkParts`, `ships`, `torpedoes`, `shipsSunk` and `isGameOver`.
  - Its methods update these in place, as the source's functions do.
  - Each state-changing method's `ensures` gives the new fields (or the
    ghost `View()` of the whole state) as a function of the old ones. The
    exception is `PlaceShip`, the retry loop for one ship: it only keeps the
    state heading for the result of the whole placement run, which
    `PlaceShips` then states as a function of the old state.
- **The value-level layer.** `fleet.dfy` (placement), `battle.dfy` (shots,
  the game invariant `Battle.Inv`, the verdict), `cells.dfy` (grid cells,
  `"r-c"` ids and their parsing), `slug.dfy` and `ship_list.dfy` (the ship
  list's ids) define those functions and state what the game promises, as
  lemmas about them.

Randomness is an input. Placement takes a sequence of `Attempt(isHoriz,
row, col)` draws in place of `Math.random`. A shot takes its row and
column as grid indices.

## Model

| member | source | states |
|---|---|---|
| Depthcharge.Game.constructor | game.js:251-255 | a new game has fresh grids, 30 torpedoes, nothing sunk, not over, no cell fired at; its board and fleet are what placing the roster from an empty board with the given draws yields, and the game invariant holds |
| Depthcharge.Game.Reset | game.js:52-69 | torpedoes 30, `shipsSunk` 0, not over, every `shipBoard` cell null, no cell fired at, no sunk parts, every ship's `hits` and `cells` empty with names and sizes kept |
| Depthcharge.Game.ClearFleet | game.js:58-61 | each ship's hits and cells are emptied; names and sizes stay |
| Depthcharge.Game.InitGame | game.js:51-76 | reset then placement: the board, fleet, ships placed and draws used are those of placing the cleared fleet on an empty board; the game invariant holds; when all five ships are placed exactly 17 cells are occupied and each ship's name is on `size` of them |
| Depthcharge.Game.PlaceAttempt | game.js:113-138 | a draw is accepted exactly when its span fits the grid and every cell of it is free; the new board and fleet are those `Fleet.Attempted` specifies (see `Fleet.AcceptedEffect`, `Fleet.RejectedUnchanged`) |
| Depthcharge.Game.Scan | game.js:120-130 | the scan returns the whole span when all its cells are free, and the empty list (for a ship of positive size) when one is occupied |
| Depthcharge.Game.Commit | game.js:132-137 | the ship's name is written into exactly the given cells and their ids are appended to that ship's `cells`; nothing else changes |
| Depthcharge.Game.PlaceShips | game.js:109-141 | the board, fleet, number of ships placed and number of draws used equal the placement run over the draws |
| Depthcharge.Game.PlaceShip | game.js:110-140 | the retry loop for one ship: draws are consumed until one is accepted or none remain, staying on course to the placement run's result |
| Depthcharge.Game.FindShip | game.js:174 | returns the index of the first ship with the name, or none when no ship carries it |
| Depthcharge.Game.FireTorpedo | game.js:143-168 | the new state is `Battle.Fire` of the old one at that cell, and the game invariant is preserved |
| Depthcharge.Game.HandleHit | game.js:170-193 | the new state is `Battle.HitEffect` of the old: the cell becomes `hit`; the named ship records the id; a ship whose hits reach its size is counted and its cells marked sunk |
| Depthcharge.Game.RecordHit | game.js:174-188 | only ship `i` gains the id in `hits`; `shipsSunk` rises by one and its cells join the sunk parts exactly when its hits reach its size |
| Depthcharge.Game.MarkSunkParts | game.js:184-187 | each id that parses as a cell adds that cell to the sunk parts |
| Depthcharge.Game.HandleMiss | game.js:195-199 | the new state is `Battle.MissEffect` of the old: the cell becomes `miss` and nothing else changes |
| Depthcharge.Game.CheckGameOver | game.js:212-220 | the new state is `Battle.CheckGameOver` of the old: the game is set over when all ships are sunk or no torpedoes remain, and otherwise nothing changes |
| Depthcharge.Game.ShowGameOver | game.js:238-239 | sets `isGameOver` |
| Fleet.NewFleet | game.js:7-13 | the roster has the five names and sizes in order, with no hits and no cells |
| Fleet.ClearAll | game.js:58-61 | clearing keeps each ship's name and size and empties its hits and cells |
| Fleet.ShipIndex | game.js:174 | `find`: the first index whose ship carries the name, or none when no ship carries it |
| Fleet.FindRosterShip | game.js:174 | in the roster, looking up ship `i`'s name finds ship `i` (the names are distinct) |
| Fleet.SpanShape | game.js:122-124 | a fitting span has exactly `size` distinct cells, and a cell is in it exactly when it lies on the ship's row (columns `col..col+size-1`) or column (rows `row..row+size-1`) |
| Fleet.Place | game.js:133-134 | writing a name into cells changes exactly those cells to that name |
| Fleet.AcceptedEffect | game.js:120-137 | an accepted draw writes the name into exactly `size` consecutive, in-grid, previously null cells, leaves every other cell alone, and appends exactly those cells' ids to that ship's `cells` only |
| Fleet.RejectedUnchanged | game.js:117-130 | a draw that leaves the grid or overlaps leaves the board and the fleet unchanged |
| Fleet.PlacedStep | game.js:132-138 | an accepted draw for ship `k` turns a placement of `k` ships into one of `k + 1` ships |
| Fleet.PlaceRunPlaced | game.js:110-140 | the placement run keeps the placement invariant, and stops short of five ships only when it ran out of draws |
| Fleet.PlaceShipsResult | game.js:109-141 | after a full placement from an empty board: 17 cells are occupied, each name covers exactly `size` cells, no cell holds two ships, and every stored id leads back to a cell of its ship |
| Fleet.PlacedFull | game.js:7-13 | with all five ships placed, the occupied cells number 5+4+3+3+2 = 17 and each ship has `size` cells |
| Fleet.PlacedLayout | game.js:133-134 | distinct ships occupy disjoint cells, and the occupied cells are exactly the union of the ships' cells |
| ShipList.RosterSlugsDistinct | game.js:100 | the five roster names slugify to five distinct list-item ids, so the id built at line 182 names one ship |
| Cells.CellId | game.js:135 | the id `${r}-${c}` of a cell is three characters: the row's digit, `-`, the column's digit (rows and columns are below 10) |
| Cells.ParseCellId | game.js:185 | an id `"r-c"` built at line 135 splits at `-` and reads back as the same row and column |
| Cells.ParseId | game.js:185 | `id.split("-").map(Number)` destructured into two: an id with no `-` gives no cell, and a row and column read are never negative |
| Cells.CellIdInjective | game.js:135 | two cells have the same id exactly when they are the same cell |
| Cells.DecimalRoundTrip | game.js:185 | reading back the decimal text of a number gives the number |
| Cells.Number | game.js:185 | `Number` gives a value exactly when the text is all digits |
| Cells.SplitTwo | game.js:185 | splitting `a-b` at `-`, when neither part holds `-`, gives exactly `[a, b]` |
| Slug.Slugify | game.js:105-107 | `name.replace(/\s+/g, '-')` over JavaScript's `\s` set: the slug is never longer than the name, is empty only for the empty name, starts with `-` exactly when the name starts with whitespace or `-`, and otherwise keeps the first character |
| Slug.SlugifyNoSpace | game.js:105-107 | a slug holds no whitespace |
| Slug.SlugifyIdentity | game.js:105-107 | text without whitespace is its own slug |
| Slug.SlugifyIdempotent | game.js:105-107 | slugifying twice is slugifying once |
| Slug.SlugifyConcat | game.js:105-107 | slugs of two pieces concatenate when the join is not inside a whitespace run |
| Battle.Fire | game.js:143-168 | a shot never changes the board or the number of ships |
| Battle.InitialInv | game.js:51-70 | the state left after placement (30 torpedoes, nothing fired, nothing sunk) satisfies the game invariant |
| Battle.NewGameInv | game.js:51-76 | a new game's state satisfies the invariant, and with all ships placed 17 cells are occupied and each ship's name is on `size` of them (`FullFleet`) |
| Battle.FirePreservesInv | game.js:143-220 | every shot preserves the invariant: hits are the fired cells of the ship, `hits` within `cells`, `shipsSunk` counts sunk ships, sunk parts are the cells of sunk ships, torpedoes plus cells fired is 30, and over means won or out of torpedoes |
| Battle.FireIgnored | game.js:144-155 | a shot after the game is over, or at a cell already hit or missed, changes nothing |
| Battle.FireAccepted | game.js:157-175 | an accepted shot spends exactly one torpedo, marks only that cell (hit when it holds a ship, miss otherwise) and adds its id to the hits of the named ship only |
| Battle.FireSinks | game.js:175-178 | `shipsSunk` rises by one exactly on the shot that brings the ship's hits up to its size; the ship was not sunk before, and once sunk all its cells are marked |
| Battle.SunkMeansAllHit | game.js:177 | with the fleet fully placed, the test `hits.size === size` holds of a ship exactly when every cell holding its name has been hit |
| Battle.WonMeansAllHit | game.js:212-213 | with the fleet fully placed, `shipsSunk` equals five, the win `checkGameOver` tests, exactly when every occupied cell has been hit |
| Battle.FireKeepsFullFleet | game.js:143-168 | a shot changes no ship's name or size and not the board, so a fully placed fleet stays fully placed |
| Battle.FireMisses | game.js:195-199 | a miss changes neither `shipsSunk` nor any ship |
| Battle.Bounds | game.js:175-178 | under the invariant torpedoes stay in 0..30, `shipsSunk` in 0..5, and each ship's hits are among its cells and at most its size |
| Battle.VerdictRules | game.js:212-220 | five ships sunk is a win even with no torpedoes left; otherwise the game is lost exactly when torpedoes are at most 0; it goes on exactly when neither holds |
| Battle.OutOfTorpedoes | game.js:144 | with no torpedoes left the game is over and every further shot changes nothing, so torpedoes never go below 0 |
| Battle.FireTwice | game.js:155 | firing at the same cell twice is the same as firing once |
| Battle.ShotStep | game.js:143-168 | one shot keeps the invariant, never raises torpedoes, never lowers `shipsSunk`, keeps the board, changes nothing once the game is over, and keeps a fully placed fleet fully placed |
| Battle.ShotsInv | game.js:143-168 | any sequence of shots keeps the invariant, keeps torpedoes in 0..start and `shipsSunk` non-decreasing, changes nothing once the game is over, and keeps a fully placed fleet fully placed |
| Battle.SunkPartsOfShip | game.js:184-187 | marking a ship's listed ids as sunk parts marks exactly the board cells that carry its name |

## Left out

- The page: `createBoard`, `populateShipList`, `updateTorpedoCount`, the message texts and the overlay. They only present the state. The `hit`/`miss`/`sunk-part` classes are kept, as the `marks` grid and the `sunkParts` set.
- Sound: `playSound`, the background music, `hasInteracted`, `toggleMute` and the `hasStarted` flag, which only starts the music.
- `showSunkPopup` and the `shipImages` lookup with its default image. They are timers, animation and a table feeding the page.
- `Math.random` is not modelled. Each draw is a caller-supplied `Attempt`.
- Depthcharge.Game.PlaceShips: the source's `while (!placed)` retries until a draw is accepted. The model consumes a finite sequence of draws and reports how many ships it placed when the draws run out. Termination of the unbounded retry is not modelled.
- `parseInt(cell.dataset.row)` is not modelled. A shot takes its row and column as grid indices.
- `if (shipBoard[r][c])` and `if (target)` test JavaScript truthiness. The model tests for a name being present. Every roster name is non-empty, so the two agree.
- Depthcharge.Game.HandleHit: when no ship carries the name, `ships.find` returns `undefined` and the source throws before `checkGameOver`. The model marks the cell `hit` and changes nothing else. Under `Battle.Inv` every name on the board belongs to a ship, so this case does not arise.
- Depthcharge.Game.MarkSunkParts: an id that does not split into two digit strings, or that reads back outside the grid, is skipped; the source would throw at `board[r][c]` (line 186). Under `Battle.Inv` only the ids of a sunk ship are read, and those are all ids of board cells, so this case does not arise.
- Depthcharge.Game.ShowGameOver: the `won` argument only chooses the sound and the overlay title, so the model sets the flag for both.
- Cells.Number: only digit strings are modelled (the empty string gives 0, anything else no value). The ids it reads are always digit strings.
- Numbers are unbounded integers. The source's doubles never leave the small range the game uses.
