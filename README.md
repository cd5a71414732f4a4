# Eris asset and spec loading, modelled in Dafny

This project models the loading routines of the Eris game window
(`Window` in `Eris/Loading.cpp`):

- the texture registry. `loadTexture` counts `textureID` up and stores a new
  texture under the decimal form of the new ID. `loadPlanetTexture`,
  `loadAsteroidTexture`, `loadFragmentTexture` and `loadStationTexture` append
  the returned texture to their lists.
- the sprite-sheet cutters. `loadTextureSquare` appends one texture cut from
  a rectangle of an image file. `loadMultiTexture` cuts a sheet into
  `rows` × `columns` squares.
- the three spec-file loaders. `loadShipSpecs`, `loadProjectileSpecs` and
  `loadWaves` skip a header line, then read each line with
  `std::getline(lineStream, cell, ',')`, convert cells with `std::stoi` and
  `std::stof`, and update the `specs` / `spec_Keys`, `p_specs` and `waves`
  tables and the shared `textures` map.

Modules:

- `Streams` (`streams.dfy`) models `std::getline` on a stream over a fixed
  text. This covers the eofbit/failbit behaviour, a call that fails and leaves
  its target unchanged, and the empty cell a trailing delimiter does not
  produce. It proves what the k-th call on a fresh stream yields (`NthGetline`)
  and that splitting and joining are inverse (`JoinSplit`, `SplitJoin`).
- `Numbers` (`numbers.dfy`) models `std::to_string(int)` and base-10
  `std::stoi`: white space, sign, digit prefix, and the 32-bit range with its
  `invalid_argument` and `out_of_range` exceptions. It proves that
  `std::to_string` is injective and that `std::stoi` reads back what
  `std::to_string` writes.
- `Rows` (`rows.dfy`) holds the record types and the per-line readers. Each
  reader is written as the source's imperative code over an `InputStream`
  object (`ReadShipRow`, `ReadProjectileRow`, `ReadWaveRow`, with their
  `while (getline…)` loops `ReadUntil` and `ReadCost`). Each one is proved
  equal to a function of the line (`ShipRow`, `ProjectileRow`, `WaveRow`), and
  the properties of a row are lemmas about those functions.
- `Loading` (`loading.dfy`) holds the `Window` class, whose fields the loaders
  update in place, and the `Texture` and `TextureList` objects. Each file
  loader is a method whose loop is proved against a left fold over the data
  lines (`ParsePrefix`). The loop variables that outlive a line (`name`,
  `texture`, `cost`) are threaded through as a carry. A line on which
  `std::stoi` or `std::stof` throws ends the load with everything before it
  kept (`Outcome.Aborted`).

The code keeps some loop variables across lines, and the model follows it:

- `name` and `texture` are declared outside the row loop, so a row too short
  to reach its texture cell keeps the texture of the row before.
- `cost` is never reset, so a ship row without cost cells keeps the previous
  ship's cost. Before the first cost is read it is modelled as `None`.
- The per-row `cell` variable repeats its last value when a row ends early.
- An empty cost cell reaches `std::stoi`, which throws, so the source's
  `else if (cell == "")` break can never run (`Rows.EmptyCostCellThrows`).
- `std::unordered_map::insert` does not overwrite. So a repeated ship or
  projectile name keeps its first record, while `spec_Keys` still receives
  every name. A spec texture path that equals a `loadTexture` key shares that
  key's entry.

## Model

| member | source | states |
|---|---|---|
| Streams.IndexOf | Eris/Loading.cpp:172 | the position std::getline stops at: a delimiter, or the end when there is none |
| Streams.IndexOfIsFirst | Eris/Loading.cpp:172 | no delimiter comes before the position IndexOf returns |
| Streams.IndexOfUnique | Eris/Loading.cpp:172 | IndexOf is the only position with no delimiter before it and a delimiter or the end at it |
| Streams.GetlineSpec | Eris/Loading.cpp:172-195 | one std::getline call succeeds exactly on a good stream with characters left; it returns a delimiter-free prefix and drops the delimiter, leaving the stream good, or takes the rest and sets eofbit (eofbit is set exactly when no delimiter is left); a failing call sets failbit, consumes nothing, and leaves the target unchanged or emptied |
| Streams.Split | Eris/Loading.cpp:197-207 | the cells successive calls deliver are empty exactly for an empty line |
| Streams.NthGetline | Eris/Loading.cpp:172-219 | the k-th call on a fresh stream succeeds exactly when the line has more than k cells, and yields the k-th cell; past the end it yields "" once after a trailing or empty line and otherwise keeps the old target |
| Streams.JoinSplit | Eris/Loading.cpp:197-207 | joining the cells with the delimiter gives the line back, except for one trailing delimiter |
| Streams.SplitJoin | Eris/Loading.cpp:197-207 | splitting joined delimiter-free cells whose last cell is not empty gives the cells back |
| Streams.TrailingDelimiterAddsNoCell | Eris/Loading.cpp:376-387 | a delimiter after the last cell adds no empty cell |
| Streams.InputStream.Read | Eris/Loading.cpp:163 | one std::getline on the stream: it succeeds while cells remain and leaves the next cell (Extracted) in the target |
| Numbers.ToStringInjective | Eris/Loading.cpp:58-60 | different texture IDs give different keys, so successive loadTexture calls use distinct keys |
| Numbers.StoI | Eris/Loading.cpp:298-299 | std::stoi returns only 32-bit values and throws invalid_argument on a cell without digits |
| Numbers.StoIToString | Eris/Loading.cpp:315-316 | std::stoi reads back every int that std::to_string writes |
| Rows.TakeUntil | Eris/Loading.cpp:197-207 | the missile list is a prefix of the cells, holds no "none", and stops at the first "none" |
| Rows.After | Eris/Loading.cpp:205-209 | the cost loop reads exactly the cells after the first "none" |
| Rows.TakeUntilAt | Eris/Loading.cpp:197-207 | a loop that stops at the first sentinel or at the end has read TakeUntil and leaves After |
| Rows.FirstCellIsName | Eris/Loading.cpp:172 | a row's name is its first cell, whatever the name variable held |
| Rows.ReadUntil | Eris/Loading.cpp:197-207 | the missile-type loop collects the cells up to the first "none" and consumes the "none" |
| Rows.ReadCost | Eris/Loading.cpp:209-219 | the cost loop equals CostScan of the remaining cells: it throws on a cell std::stoi rejects, otherwise it keeps the last converted value |
| Rows.ReadShipRow | Eris/Loading.cpp:165-219 | one ship line read cell by cell, with std::stof acceptance as a parameter, yields ShipRow of the line and the carried name, texture and cost |
| Rows.CostScanThrows | Eris/Loading.cpp:209-219 | the cost scan throws exactly when some cell other than "none" is rejected by std::stoi |
| Rows.CostScanAllNone | Eris/Loading.cpp:209-219 | cells that are all "none" leave the cost unchanged |
| Rows.CostScanKeepsLast | Eris/Loading.cpp:209-219 | after a scan that does not throw, the cost is the value of the last cell other than "none" |
| Rows.EmptyCostCellThrows | Eris/Loading.cpp:211-218 | an empty cost cell goes to std::stoi and throws, so the `cell == ""` break is unreachable |
| Rows.ShipRowOfFullRow | Eris/Loading.cpp:172-207 | a ship row with all nine leading cells yields them as name, float fields and texture, with missile types up to the first "none", never containing "none" |
| Rows.ShortShipRowKeepsTexture | Eris/Loading.cpp:157-195 | a row that ends before its texture cell keeps the previous row's texture |
| Rows.ShipRowCost | Eris/Loading.cpp:209-219 | a ship's cost is the std::stoi value of its last cost cell other than "none" |
| Rows.ShipRowCarriesCost | Eris/Loading.cpp:159-219 | a row whose cost cells are all "none", or that has none, keeps the previous ship's cost |
| Rows.ReadProjectileRow | Eris/Loading.cpp:291-316 | one projectile line read cell by cell yields ProjectileRow of the line and the carried name and texture |
| Rows.ProjectileRowOfFullRow | Eris/Loading.cpp:296-316 | a full projectile row yields its name, std::stoi of cells 1 and 7, float cells 2-5 and the texture cell 6 |
| Rows.ReadWaveRow | Eris/Loading.cpp:367-387 | one wave line read cell by cell yields WaveRow of the line |
| Rows.WaveRowIgnoresTrailingComma | Eris/Loading.cpp:376-387 | a comma after the last cell of a wave row does not change the wave |
| Rows.WaveRowFields | Eris/Loading.cpp:373-387 | the dispersion is std::stoi of the first cell; the units are the following cells in order, up to the first empty cell |
| Loading.InsertAllKeys | Eris/Loading.cpp:223-242 | after the inserts, the keys are the old keys and the inserted keys |
| Loading.InsertAllKeepsOld | Eris/Loading.cpp:318-333 | a key already present keeps its value, whatever is inserted |
| Loading.InsertAllFirstWins | Eris/Loading.cpp:318-333 | a new key gets the value of its first entry; later entries with that key are dropped |
| Loading.ExtendsStep | Eris/Loading.cpp:244-256 | registering one texture path extends the textures table by that key and keeps every entry |
| Loading.DataRowsAfterHeader | Eris/Loading.cpp:161-163 | the first line is skipped as a header; the data lines are exactly the remaining lines, in order, whether or not the file ends with a newline |
| Loading.ReadsDataRow | Eris/Loading.cpp:162-163 | after the header, the (i+1)-th file getline succeeds exactly when there is an i-th data line, and delivers it |
| Loading.ReadDataRow | Eris/Loading.cpp:289 | the loop-condition getline on the file delivers the next data line while there is one |
| Loading.ParsePrefixStops | Eris/Loading.cpp:163-268 | once a line throws, later lines change nothing |
| Loading.ParseRowsNext | Eris/Loading.cpp:163 | a line that yields a record extends the records so far by that record |
| Loading.ParseRowsStop | Eris/Loading.cpp:163 | a line that throws ends the load with the records before it |
| Loading.ParsePrefixRowByRow | Eris/Loading.cpp:163-268 | each data line is read once, in order, with the carry of the record before; the load is complete exactly when every line yields a record; otherwise the next line threw |
| Loading.ParseRowsRowByRow | Eris/Loading.cpp:289-350 | the row-by-row property holds for the whole file |
| Loading.ShipNames | Eris/Loading.cpp:222 | one name per record, in record order |
| Loading.ShipNamesAreFirstCells | Eris/Loading.cpp:163-222 | the i-th name added to spec_Keys is the first cell of the i-th data line, repeats included |
| Loading.ShipSpecsFirstWins | Eris/Loading.cpp:223-242 | a ship name seen for the first time is stored with its own record; later lines with that name leave specs unchanged |
| Loading.WaveParseRowByRow | Eris/Loading.cpp:365-390 | the i-th wave is what the i-th data line yields; the load is complete exactly when every line yields a wave |
| Loading.Strip | Eris/Loading.cpp:48-51 | the inner loop cuts one square per row |
| Loading.TileCount | Eris/Loading.cpp:46-52 | a sheet cut into columns × rows yields columns * rows rectangles |
| Loading.TileGrid | Eris/Loading.cpp:44-53 | tile i*rows + j is the square (j*size, i*size, size, size): the outer loop sets the y offset and the inner loop the x offset |
| Loading.Window.LoadTexture | Eris/Loading.cpp:55-71 | textureID grows by one; the key is the decimal form of the new ID; a new key maps to a fresh texture and an existing key keeps its texture; the returned texture is reloaded from the file with the window's smoothing |
| Loading.Window.LoadPlanetTexture | Eris/Loading.cpp:10-14 | appends loadTexture's result to planetTextures and smooths it |
| Loading.Window.LoadAsteroidTexture | Eris/Loading.cpp:16-19 | appends loadTexture's result to asteroidTextures |
| Loading.Window.LoadFragmentTexture | Eris/Loading.cpp:21-24 | appends loadTexture's result to fragTextures |
| Loading.Window.LoadStationTexture | Eris/Loading.cpp:26-30 | appends loadTexture's result to stationTextures and smooths it |
| Loading.Window.LoadTextureSquare | Eris/Loading.cpp:32-42 | appends one fresh texture loaded from the rectangle, with the window's smoothing |
| Loading.Window.LoadMultiTexture | Eris/Loading.cpp:44-53 | appends exactly one fresh texture per rectangle of TileRects, in order, and keeps the list's earlier entries |
| Loading.Window.LoadBand | Eris/Loading.cpp:48-51 | the inner loop appends one fresh texture per square of the strip, left to right |
| Loading.Window.LoadShipSpecs | Eris/Loading.cpp:143-270 | the load ends as ShipParse of the data lines: spec_Keys gains every name in order, specs gains each new name's first record, textures gains each new texture path with a fresh texture loaded from it; other tables unchanged |
| Loading.Window.LoadShipLine | Eris/Loading.cpp:163-256 | one pass of the row loop keeps the loop invariant, or throws and leaves the tables unchanged |
| Loading.Window.StoreShip | Eris/Loading.cpp:222-256 | the name is appended to spec_Keys, the record inserted into specs, and the texture path registered |
| Loading.Window.LoadProjectileSpecs | Eris/Loading.cpp:272-352 | the load ends as ProjectileParse of the data lines: p_specs gains each new name's first record, and textures gains each new texture path; other tables unchanged |
| Loading.Window.LoadProjectileLine | Eris/Loading.cpp:289-347 | one pass of the row loop keeps the loop invariant, or throws and leaves the tables unchanged |
| Loading.Window.StoreProjectile | Eris/Loading.cpp:318-347 | the entry is inserted into p_specs and its texture path registered |
| Loading.Window.RegisterTexture | Eris/Loading.cpp:244-256 | a path already in textures changes nothing; a new path gets a fresh texture loaded from it, without smoothing |
| Loading.Window.LoadWaves | Eris/Loading.cpp:354-392 | waves gains the waves of WaveParse of the data lines, in order; no other table changes |

## Left out

- Image decoding, GPU upload and the success of `sf::Texture::loadFromFile` are not modelled. A texture records the file, rectangle and smoothing it was given. The "Error Loading Texture" branch only logs, so it changes no state.
- All console output (`std::cout`) is left out. It changes no table.
- Opening the file is replaced by its text `content`. A file that cannot be opened behaves like an empty one (no data lines).
- `std::stof`: whether it accepts a cell is the parameter `stofOk`, and float fields keep the cell text. Float values and rounding are not modelled.
- `textureID` and the tile offsets `j*size` and `i*size` are unbounded integers. 32-bit overflow is not modelled.
- Loading.Window.LoadShipSpecs: `cost` is uninitialised until a ship row has a cost cell. The model writes it as `None` rather than as an indeterminate value.
- Memory ownership (`new` without `delete`) is left out. Texture objects are Dafny objects, so a texture shared between tables is modelled.
- Loading.Window.LoadMultiTexture, Loading.Window.LoadTextureSquare: the target vector is a separate `TextureList` object, while the window's own lists (`planetTextures` and the others) are `seq` fields. So a call that passes one of the window's own lists as `storeLocation` cannot be written in the model, and aliasing between `storeLocation` and those lists is not modelled.
- The `Window` constructor, `Window.hpp` and the sprite-setup loaders (`loadBackground`, `loadStart`, `loadFuel`, `loadHealth`, `loadGUI`, `loadAmmo`, `loadInfo`, `loadHide`, `loadShow`, `loadInv`, `loadPlayer`) are not part of this model. They are SFML layout code outside the loading core.
