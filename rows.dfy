/// The records of the ship, projectile and wave spec files and how one line of
/// each file becomes a record. Each format is read with std::getline(lineStream,
/// cell, ',') calls on a std::stringstream over the line; integer cells go through
/// std::stoi, and float cells through std::stof, whose exceptions are not caught.
module Rows {
  import opened Streams
  import opened Numbers

  datatype Option<T> = None | Some(value: T)

  /** The text of a cell that was handed to std::stof. Whether std::stof accepts a
      cell is left to a parameter `stofOk` of the readers; the float it returns
      is not modelled. */
  type FloatText = string

  /** One ship type. `cost` is None while the loader's `cost` variable has never
      been assigned (the source then copies an uninitialised int). */
  datatype ShipSpecs = ShipSpecs(
    name: string,
    shootDelayModifier: FloatText,
    engineForce: FloatText,
    mass: FloatText,
    maxVelocity: FloatText,
    maxAngularVelocity: FloatText,
    structuralIntegrity: FloatText,
    repair: FloatText,
    texture: string,
    missleTypes: seq<string>,
    cost: Option<int>)

  /** One projectile type; its name is the key it is stored under, not a field. */
  datatype ProjectileSpecs = ProjectileSpecs(
    lifetime: int,
    hitRadius: FloatText,
    damage: FloatText,
    maxVelocity: FloatText,
    acceleration: FloatText,
    texture: string,
    baseRate: int)

  /** One enemy wave: how far apart its units spawn and the ship type of each. */
  datatype Wave = Wave(dispersion: int, units: seq<string>)

  /** What reading one line gives: the record, or an exception thrown by std::stoi
      or std::stof, which ends the whole load. */
  datatype Row<T> = Parsed(value: T) | Thrown

  const Comma: char := ','

  /** The cell that ends a ship's missile-type list. */
  const Sentinel: string := "none"

  function Cells(line: string): seq<string>
  {
    Split(line, Comma)
  }

  /** The value a target string holds after the k-th std::getline call on the row
      when it held `prev` before. */
  function Cell(line: string, k: nat, prev: string): string
  {
    Extracted(line, k, prev, Comma)
  }

  /** The cells from the k-th on. */
  function CellsFrom(line: string, k: nat): seq<string>
  {
    var cells := Cells(line);
    if k < |cells| then cells[k..] else []
  }

  /** The name a row is stored under: its first cell, or "" for an empty line. */
  function RowName(line: string): string
  {
    if line == [] then "" else Cells(line)[0]
  }

  /** The cells before the first `stop`. */
  function TakeUntil(cells: seq<string>, stop: string): (r: seq<string>)
    ensures |r| <= |cells| && r == cells[..|r|]
    ensures stop !in r
    ensures |r| < |cells| ==> cells[|r|] == stop
  {
    if cells == [] || cells[0] == stop then [] else [cells[0]] + TakeUntil(cells[1..], stop)
  }

  /** The cells after the first `stop`; none when there is no `stop`. */
  function After(cells: seq<string>, stop: string): (r: seq<string>)
    ensures stop in cells ==> cells == TakeUntil(cells, stop) + [stop] + r
    ensures stop !in cells ==> r == []
  {
    if cells == [] then []
    else if cells[0] == stop then cells[1..]
    else
      var r := After(cells[1..], stop);
      assert stop in cells ==> cells == [cells[0]] + cells[1..];
      r
  }

  /** A loop that stops at the first `stop` or at the end has read TakeUntil and
      leaves After to whatever reads on. */
  lemma {:induction false} TakeUntilAt(cells: seq<string>, stop: string, prefix: seq<string>)
    requires |prefix| <= |cells|
    requires forall i :: 0 <= i < |prefix| ==> cells[i] == prefix[i] != stop
    requires |prefix| == |cells| || cells[|prefix|] == stop
    ensures TakeUntil(cells, stop) == prefix
    ensures After(cells, stop) == if |prefix| < |cells| then cells[|prefix| + 1..] else []
  {
    if prefix != [] {
      var tail := cells[1..];
      assert forall i :: 0 <= i < |prefix| - 1 ==> tail[i] == cells[i + 1] && prefix[1..][i] == prefix[i + 1];
      TakeUntilAt(tail, stop, prefix[1..]);
      assert prefix == [cells[0]] + prefix[1..];
      if |prefix| < |cells| {
        assert tail[|prefix| - 1 + 1..] == cells[|prefix| + 1..];
      }
    }
  }

  /** The first cell of every row is its name, whatever the name variable held. */
  lemma FirstCellIsName(line: string, prev: string)
    ensures Cell(line, 0, prev) == RowName(line)
  {
  }

  // ---------------------------------------------------------------- ships

  /** A ship row's cost cells, scanned left to right: every cell other than
      "none" is passed to std::stoi and overwrites the cost; "none" is skipped. */
  function CostScan(cells: seq<string>, cost: Option<int>): Row<Option<int>>
  {
    if cells == [] then Parsed(cost)
    else if cells[0] != Sentinel then
      match StoI(cells[0])
      case Value(n) => CostScan(cells[1..], Some(n))
      case _ => Thrown
    else CostScan(cells[1..], cost)
  }

  /** The record a ship row yields. `name0`, `texture0` and `cost0` are what the
      loader's name, texture and cost variables held before the row: the name is
      always overwritten, but a row too short to reach its texture cell keeps the
      previous texture, and a row without cost cells keeps the previous cost. The
      float cells are read into one per-row `cell` variable, so a row that ends
      early repeats its last cell (or "" after a trailing comma). */
  function ShipRow(line: string, name0: string, texture0: string, cost0: Option<int>, stofOk: string -> bool)
    : Row<ShipSpecs>
  {
    var c1 := Cell(line, 1, "");
    var c2 := Cell(line, 2, c1);
    var c3 := Cell(line, 3, c2);
    var c4 := Cell(line, 4, c3);
    var c5 := Cell(line, 5, c4);
    var c6 := Cell(line, 6, c5);
    var c7 := Cell(line, 7, c6);
    var rest := CellsFrom(line, 9);
    if !(stofOk(c1) && stofOk(c2) && stofOk(c3) && stofOk(c4) && stofOk(c5) && stofOk(c6) && stofOk(c7)) then
      Thrown
    else
      match CostScan(CostCells(line), cost0)
      case Thrown => Thrown
      case Parsed(cost) =>
        Parsed(ShipSpecs(Cell(line, 0, name0), c1, c2, c3, c4, c5, c6, c7, Cell(line, 8, texture0),
                         TakeUntil(rest, Sentinel), cost))
  }

  /** Reads cells until one equals `stop` or std::getline fails, and returns the
      cells before; the `stop` cell itself is consumed. */
  method ReadUntil(lineStream: InputStream, stop: string) returns (items: seq<string>)
    requires lineStream.delim == Comma
    modifies lineStream
    ensures items == TakeUntil(CellsFrom(lineStream.source, old(lineStream.calls)), stop)
    ensures CellsFrom(lineStream.source, lineStream.calls)
            == After(CellsFrom(lineStream.source, old(lineStream.calls)), stop)
  {
    items := [];
    ghost var start := lineStream.calls;
    ghost var rest := CellsFrom(lineStream.source, start);
    var cell: string := "";
    var ok: bool;
    ok, cell := lineStream.Read(cell);
    while ok
      invariant lineStream.delim == Comma
      invariant lineStream.calls == start + 1 + |items|
      invariant |items| <= |rest|
      invariant forall i :: 0 <= i < |items| ==> rest[i] == items[i] != stop
      invariant ok == (|items| < |rest|)
      invariant ok ==> cell == rest[|items|]
      decreases |rest| - |items|
    {
      if cell != stop {
        items := items + [cell];
      } else {
        break;
      }
      ok, cell := lineStream.Read(cell);
    }
    TakeUntilAt(rest, stop, items);
  }

  /** The cost loop of a ship row: every cell read from here on other than "none"
      goes through std::stoi and replaces the cost. */
  method ReadCost(lineStream: InputStream, cost0: Option<int>) returns (cost: Row<Option<int>>)
    requires lineStream.delim == Comma
    modifies lineStream
    ensures cost == CostScan(CellsFrom(lineStream.source, old(lineStream.calls)), cost0)
  {
    ghost var start := lineStream.calls;
    ghost var costCells := CellsFrom(lineStream.source, start);
    ghost var j := 0;
    var current := cost0;
    var cell: string := "";
    var ok: bool;
    ok, cell := lineStream.Read(cell);
    while ok
      invariant lineStream.delim == Comma
      invariant j <= |costCells| && lineStream.calls == start + 1 + j
      invariant ok == (j < |costCells|)
      invariant ok ==> cell == costCells[j]
      invariant CostScan(costCells[j..], current) == CostScan(costCells, cost0)
      decreases |costCells| - j
    {
      assert costCells[j..][1..] == costCells[j + 1..];
      if cell != Sentinel {
        var converted := StoI(cell);
        if !converted.Value? { return Thrown; }
        current := Some(converted.n);
      } else if cell == "" {
        assert false;
        break;
      }
      j := j + 1;
      ok, cell := lineStream.Read(cell);
    }
    cost := Parsed(current);
  }

  /** One pass of the body of Window::loadShipSpecs's row loop, up to the table
      updates. */
  method ReadShipRow(line: string, name0: string, texture0: string, cost0: Option<int>, stofOk: string -> bool)
    returns (row: Row<ShipSpecs>)
    ensures row == ShipRow(line, name0, texture0, cost0, stofOk)
  {
    var missleTypes: seq<string> := [];
    var lineStream := new InputStream(line, Comma);
    var cell: string := "";
    var ok: bool;
    var name, texture, cost := name0, texture0, cost0;

    ok, name := lineStream.Read(name);
    ok, cell := lineStream.Read(cell);
    if !stofOk(cell) { return Thrown; }
    var shootDelayModifier := cell;
    ok, cell := lineStream.Read(cell);
    if !stofOk(cell) { return Thrown; }
    var engineForce := cell;
    ok, cell := lineStream.Read(cell);
    if !stofOk(cell) { return Thrown; }
    var mass := cell;
    ok, cell := lineStream.Read(cell);
    if !stofOk(cell) { return Thrown; }
    var maxVelocity := cell;
    ok, cell := lineStream.Read(cell);
    if !stofOk(cell) { return Thrown; }
    var maxAngularVelocity := cell;
    ok, cell := lineStream.Read(cell);
    if !stofOk(cell) { return Thrown; }
    var structuralIntegrity := cell;
    ok, cell := lineStream.Read(cell);
    if !stofOk(cell) { return Thrown; }
    var repair := cell;
    ok, texture := lineStream.Read(texture);

    missleTypes := ReadUntil(lineStream, Sentinel);
    var scanned := ReadCost(lineStream, cost);
    if scanned.Thrown? { return Thrown; }
    cost := scanned.value;

    row := Parsed(ShipSpecs(name, shootDelayModifier, engineForce, mass, maxVelocity, maxAngularVelocity,
                            structuralIntegrity, repair, texture, missleTypes, cost));
  }

  /** Whether the scan throws: exactly when some cell other than "none" is not
      an integer std::stoi accepts. */
  lemma {:induction false} CostScanThrows(cells: seq<string>, cost: Option<int>)
    ensures CostScan(cells, cost) == Thrown
            <==> exists i :: 0 <= i < |cells| && cells[i] != Sentinel && !StoI(cells[i]).Value?
  {
    if cells != [] {
      if cells[0] != Sentinel && StoI(cells[0]).Value? {
        CostScanThrows(cells[1..], Some(StoI(cells[0]).n));
      } else if cells[0] == Sentinel {
        CostScanThrows(cells[1..], cost);
      }
      assert forall i :: 0 < i < |cells| ==> cells[i] == cells[1..][i - 1];
    }
  }

  /** When every cell is "none" the scan keeps the cost it started with. */
  lemma {:induction false} CostScanAllNone(cells: seq<string>, cost: Option<int>)
    requires forall j :: 0 <= j < |cells| ==> cells[j] == Sentinel
    ensures CostScan(cells, cost) == Parsed(cost)
  {
    if cells != [] {
      var tail := cells[1..];
      assert forall j :: 0 <= j < |tail| ==> tail[j] == cells[j + 1];
      CostScanAllNone(tail, cost);
    }
  }

  /** The cost after a scan that does not throw is the value of the last cell
      other than "none". */
  lemma {:induction false} CostScanKeepsLast(cells: seq<string>, cost: Option<int>, c: Option<int>, i: nat)
    requires CostScan(cells, cost) == Parsed(c)
    requires i < |cells| && cells[i] != Sentinel
    requires forall j :: i < j < |cells| ==> cells[j] == Sentinel
    ensures c.Some? && StoI(cells[i]) == Value(c.value)
  {
    var tail := cells[1..];
    assert forall j :: 0 <= j < |tail| ==> tail[j] == cells[j + 1];
    if i == 0 {
      CostScanAllNone(tail, Some(StoI(cells[0]).n));
    } else if cells[0] != Sentinel {
      CostScanKeepsLast(tail, Some(StoI(cells[0]).n), c, i - 1);
    } else {
      CostScanKeepsLast(tail, cost, c, i - 1);
    }
  }

  /** An empty cost cell reaches std::stoi (it is not "none"), which throws: so
      the source's `else if (cell == "")` break can never run. */
  lemma EmptyCostCellThrows(cells: seq<string>, cost: Option<int>)
    requires "" in cells
    ensures CostScan(cells, cost) == Thrown
  {
    var i :| 0 <= i < |cells| && cells[i] == "";
    assert StoI(cells[i]) == InvalidArgument;
    CostScanThrows(cells, cost);
  }

  /** A row with all nine leading cells yields them as its fields, and its
      missile types are the cells after the texture up to the first "none". */
  lemma ShipRowOfFullRow(line: string, name0: string, texture0: string, cost0: Option<int>,
                         stofOk: string -> bool, spec: ShipSpecs)
    requires |Cells(line)| >= 9
    requires ShipRow(line, name0, texture0, cost0, stofOk) == Parsed(spec)
    ensures var cells := Cells(line);
      && spec.name == cells[0]
      && [spec.shootDelayModifier, spec.engineForce, spec.mass, spec.maxVelocity,
          spec.maxAngularVelocity, spec.structuralIntegrity, spec.repair] == cells[1..8]
      && spec.texture == cells[8]
      && spec.missleTypes == TakeUntil(cells[9..], Sentinel)
      && Sentinel !in spec.missleTypes
  {
    var cells := Cells(line);
    assert CellsFrom(line, 9) == cells[9..];
  }

  /** A row that ends before its texture cell keeps the texture of the row before. */
  lemma ShortShipRowKeepsTexture(line: string, name0: string, texture0: string, cost0: Option<int>,
                                 stofOk: string -> bool, spec: ShipSpecs)
    requires |Cells(line)| < 8 || (|Cells(line)| == 8 && !Terminated(line, Comma))
    requires ShipRow(line, name0, texture0, cost0, stofOk) == Parsed(spec)
    ensures spec.texture == texture0
  {
  }

  /** The cells a ship row's cost is read from: those after the first "none"
      that follows the texture. */
  function CostCells(line: string): seq<string>
  {
    After(CellsFrom(line, 9), Sentinel)
  }

  /** The cost of a ship is the value of the last cost cell that is not "none". */
  lemma ShipRowCost(line: string, name0: string, texture0: string, cost0: Option<int>,
                    stofOk: string -> bool, spec: ShipSpecs, i: nat)
    requires ShipRow(line, name0, texture0, cost0, stofOk) == Parsed(spec)
    requires i < |CostCells(line)| && CostCells(line)[i] != Sentinel
    requires forall j :: i < j < |CostCells(line)| ==> CostCells(line)[j] == Sentinel
    ensures spec.cost.Some? && StoI(CostCells(line)[i]) == Value(spec.cost.value)
  {
    CostScanKeepsLast(CostCells(line), cost0, spec.cost, i);
  }

  /** A ship row whose cost cells are all "none" (or that has none) keeps the
      cost of the row before. */
  lemma ShipRowCarriesCost(line: string, name0: string, texture0: string, cost0: Option<int>,
                           stofOk: string -> bool, spec: ShipSpecs)
    requires ShipRow(line, name0, texture0, cost0, stofOk) == Parsed(spec)
    requires forall j :: 0 <= j < |CostCells(line)| ==> CostCells(line)[j] == Sentinel
    ensures spec.cost == cost0
  {
    CostScanAllNone(CostCells(line), cost0);
  }

  // ---------------------------------------------------------------- projectiles

  /** The (name, record) pair a projectile row yields; `name0` and `texture0` as
      for ShipRow. The integer cells are the 2nd and the 8th. */
  function ProjectileRow(line: string, name0: string, texture0: string, stofOk: string -> bool)
    : Row<(string, ProjectileSpecs)>
  {
    var c1 := Cell(line, 1, "");
    var c2 := Cell(line, 2, c1);
    var c3 := Cell(line, 3, c2);
    var c4 := Cell(line, 4, c3);
    var c5 := Cell(line, 5, c4);
    var c7 := Cell(line, 7, c5);
    match (StoI(c1), StoI(c7))
    case (Value(lifetime), Value(baseRate)) =>
      if stofOk(c2) && stofOk(c3) && stofOk(c4) && stofOk(c5) then
        Parsed((Cell(line, 0, name0), ProjectileSpecs(lifetime, c2, c3, c4, c5, Cell(line, 6, texture0), baseRate)))
      else Thrown
    case _ => Thrown
  }

  /** One pass of the body of Window::loadProjectileSpecs's row loop, up to the
      table updates. */
  method ReadProjectileRow(line: string, name0: string, texture0: string, stofOk: string -> bool)
    returns (row: Row<(string, ProjectileSpecs)>)
    ensures row == ProjectileRow(line, name0, texture0, stofOk)
  {
    var lineStream := new InputStream(line, Comma);
    var cell: string := "";
    var ok: bool;
    var name, texture := name0, texture0;

    ok, name := lineStream.Read(name);
    ok, cell := lineStream.Read(cell);
    var converted := StoI(cell);
    if !converted.Value? { return Thrown; }
    var lifetime := converted.n;
    ok, cell := lineStream.Read(cell);
    if !stofOk(cell) { return Thrown; }
    var hitRadius := cell;
    ok, cell := lineStream.Read(cell);
    if !stofOk(cell) { return Thrown; }
    var damage := cell;
    ok, cell := lineStream.Read(cell);
    if !stofOk(cell) { return Thrown; }
    var maxVelocity := cell;
    ok, cell := lineStream.Read(cell);
    if !stofOk(cell) { return Thrown; }
    var acceleration := cell;
    ok, texture := lineStream.Read(texture);
    ok, cell := lineStream.Read(cell);
    converted := StoI(cell);
    if !converted.Value? { return Thrown; }
    var baseRate := converted.n;

    row := Parsed((name, ProjectileSpecs(lifetime, hitRadius, damage, maxVelocity, acceleration, texture, baseRate)));
  }

  /** A row with all eight cells yields them as its fields. */
  lemma ProjectileRowOfFullRow(line: string, name0: string, texture0: string, stofOk: string -> bool,
                               entry: (string, ProjectileSpecs))
    requires |Cells(line)| >= 8
    requires ProjectileRow(line, name0, texture0, stofOk) == Parsed(entry)
    ensures var cells := Cells(line);
      && entry.0 == cells[0]
      && StoI(cells[1]) == Value(entry.1.lifetime)
      && [entry.1.hitRadius, entry.1.damage, entry.1.maxVelocity, entry.1.acceleration] == cells[2..6]
      && entry.1.texture == cells[6]
      && StoI(cells[7]) == Value(entry.1.baseRate)
  {
  }

  // ---------------------------------------------------------------- waves

  /** The wave a wave row yields: std::stoi of the first cell, then the unit
      names up to the first empty cell. */
  function WaveRow(line: string): Row<Wave>
  {
    match StoI(Cell(line, 0, ""))
    case Value(dispersion) => Parsed(Wave(dispersion, TakeUntil(CellsFrom(line, 1), "")))
    case _ => Thrown
  }

  /** One pass of the body of Window::loadWaves's row loop, up to the push_back. */
  method ReadWaveRow(line: string) returns (row: Row<Wave>)
    ensures row == WaveRow(line)
  {
    var units: seq<string> := [];
    var lineStream := new InputStream(line, Comma);
    var cell: string := "";
    var ok: bool;

    ok, cell := lineStream.Read(cell);
    var converted := StoI(cell);
    if !converted.Value? { return Thrown; }
    var dispersion := converted.n;

    units := ReadUntil(lineStream, "");
    row := Parsed(Wave(dispersion, units));
  }

  /** A comma after the last cell of a wave row changes nothing: std::getline
      fails at the end of the stream instead of yielding an empty cell. */
  lemma WaveRowIgnoresTrailingComma(line: string)
    requires line != [] && !Terminated(line, Comma)
    ensures WaveRow(line + [Comma]) == WaveRow(line)
  {
    TrailingDelimiterAddsNoCell(line, Comma);
  }

  /** The units of a wave are the cells after the first, in order, up to the
      first empty cell; the dispersion is the first cell read by std::stoi. */
  lemma WaveRowFields(line: string, wave: Wave)
    requires WaveRow(line) == Parsed(wave)
    ensures line != [] && StoI(Cells(line)[0]) == Value(wave.dispersion)
    ensures |wave.units| <= |Cells(line)| - 1
    ensures forall i :: 0 <= i < |wave.units| ==> wave.units[i] == Cells(line)[i + 1] != ""
    ensures |wave.units| + 1 < |Cells(line)| ==> Cells(line)[|wave.units| + 1] == ""
  {
    assert StoI("") == InvalidArgument;
  }
}
