/// The loading routines of the game window: textures for sprites and sprite
/// sheets, and the ship, projectile and wave tables read from comma-separated
/// spec files whose first line is a header.
module Loading {
  import opened Streams
  import opened Numbers
  import opened Rows

  const Newline: char := '\n'

  /** A rectangle of a sprite sheet, in pixels. */
  datatype IntRect = IntRect(left: int, top: int, width: int, height: int)

  /** An sf::Texture as far as the loaders see it: the image file it was last
      loaded from (with the sub-rectangle, if one was given) and its smoothing
      flag. Decoding the image and uploading it to the GPU are not modelled. */
  class Texture {
    var file: string
    var area: Option<IntRect>
    var smooth: bool

    /** A texture that holds no image yet. */
    constructor ()
      ensures file == [] && area == None && !smooth
    {
      file, area, smooth := [], None, false;
    }

    method LoadFromFile(path: string, area: Option<IntRect>)
      modifies this
      ensures file == path && this.area == area && smooth == old(smooth)
    {
      file, this.area := path, area;
    }

    method SetSmooth(smooth: bool)
      modifies this
      ensures this.smooth == smooth && file == old(file) && area == old(area)
    {
      this.smooth := smooth;
    }
  }

  /** A std::vector<sf::Texture*> that a caller hands to the sprite-sheet loaders. */
  class TextureList {
    var items: seq<Texture>

    constructor ()
      ensures items == []
    {
      items := [];
    }
  }

  /** How a spec-file load ends: every line was read, or std::stoi or std::stof
      threw on the given line of the file (the header is line 0). */
  datatype Outcome = Completed | Aborted(line: nat)

  /** The records a load produces from the data lines in order, and whether
      it got through all of them. */
  datatype Parse<T> = Parse(records: seq<T>, complete: bool)

  // ---------------------------------------------------------------- tables

  /** std::unordered_map::insert: an existing key keeps its value. */
  function Insert<V>(m: map<string, V>, k: string, v: V): map<string, V>
  {
    if k in m then m else m[k := v]
  }

  /** The entries inserted one after the other, from the first to the last. */
  function InsertAll<V>(m: map<string, V>, entries: seq<(string, V)>): map<string, V>
  {
    if entries == [] then m
    else
      var last := entries[|entries| - 1];
      Insert(InsertAll(m, entries[..|entries| - 1]), last.0, last.1)
  }

  /** The keys present after the inserts are the old ones and the inserted ones. */
  lemma {:induction false} InsertAllKeys<V>(m: map<string, V>, entries: seq<(string, V)>, k: string)
    ensures k in InsertAll(m, entries) <==> k in m || exists i :: 0 <= i < |entries| && entries[i].0 == k
  {
    if entries != [] {
      var front := entries[..|entries| - 1];
      InsertAllKeys(m, front, k);
      if exists i :: 0 <= i < |entries| && entries[i].0 == k {
        var i :| 0 <= i < |entries| && entries[i].0 == k;
        if i < |front| {
          assert front[i].0 == k;
        }
      }
      if exists i :: 0 <= i < |front| && front[i].0 == k {
        var i :| 0 <= i < |front| && front[i].0 == k;
        assert entries[i].0 == k;
      }
    }
  }

  /** A key that was present keeps its value whatever is inserted. */
  lemma {:induction false} InsertAllKeepsOld<V>(m: map<string, V>, entries: seq<(string, V)>, k: string)
    requires k in m
    ensures k in InsertAll(m, entries) && InsertAll(m, entries)[k] == m[k]
  {
    if entries != [] {
      InsertAllKeepsOld(m, entries[..|entries| - 1], k);
    }
  }

  /** A new key gets the value of its first entry: later entries with the same
      key are dropped. */
  lemma {:induction false} InsertAllFirstWins<V>(m: map<string, V>, entries: seq<(string, V)>, i: nat)
    requires i < |entries| && entries[i].0 !in m
    requires forall j :: 0 <= j < i ==> entries[j].0 != entries[i].0
    ensures entries[i].0 in InsertAll(m, entries) && InsertAll(m, entries)[entries[i].0] == entries[i].1
  {
    var front := entries[..|entries| - 1];
    if i < |front| {
      assert front[i] == entries[i];
      InsertAllFirstWins(m, front, i);
    } else {
      var k := entries[i].0;
      InsertAllKeys(m, front, k);
      assert !exists j :: 0 <= j < |front| && front[j].0 == k by {
        forall j | 0 <= j < |front|
          ensures front[j].0 != k
        {
          assert front[j] == entries[j];
        }
      }
    }
  }

  /** `after` holds every entry of `before` and has the keys of `before` and
      `added`. */
  predicate Extends(before: map<string, Texture>, after: map<string, Texture>, added: set<string>)
  {
    && after.Keys == before.Keys + added
    && forall k :: k in before ==> after[k] == before[k]
  }

  /** Registering one more texture file extends the table by one more key. */
  lemma ExtendsStep(m0: map<string, Texture>, m1: map<string, Texture>, m2: map<string, Texture>, added: set<string>, key: string)
    requires Extends(m0, m1, added)
    requires key in m1 ==> m2 == m1
    requires key !in m1 ==> key in m2 && m2 == m1[key := m2[key]]
    ensures Extends(m0, m2, added + {key})
  {
  }

  // ---------------------------------------------------------------- spec files

  /** The lines std::getline(indata, line) delivers after the header line. An
      unreadable file reads as an empty one. */
  function DataRows(content: string): seq<string>
  {
    var lines := Split(content, Newline);
    if |lines| <= 1 then [] else lines[1..]
  }

  /** The header is skipped: a file made of a header line and data lines,
      none holding a newline and the last not empty, has exactly those data
      lines, in order, whether or not the file ends with a newline. */
  lemma DataRowsAfterHeader(header: string, rows: seq<string>)
    requires Newline !in header && forall i :: 0 <= i < |rows| ==> Newline !in rows[i]
    requires if rows == [] then header != [] else rows[|rows| - 1] != []
    ensures DataRows(Join([header] + rows, Newline)) == rows
    ensures DataRows(Join([header] + rows, Newline) + [Newline]) == rows
  {
    var lines := [header] + rows;
    assert forall i :: 0 <= i < |lines| ==> Newline !in lines[i] by {
      forall i | 0 <= i < |lines|
        ensures Newline !in lines[i]
      {
        if i > 0 {
          assert lines[i] == rows[i - 1];
        }
      }
    }
    SplitJoin(lines, Newline);
    assert lines[1..] == rows;
    assert lines[|lines| - 1] != [];
    FinalNewlineAddsNoRow(lines);
  }

  /** A newline after the last line of a file whose last line is not empty
      adds no data line. */
  lemma FinalNewlineAddsNoRow(lines: seq<string>)
    requires lines != [] && lines[|lines| - 1] != [] && Newline !in lines[|lines| - 1]
    ensures DataRows(Join(lines, Newline) + [Newline]) == DataRows(Join(lines, Newline))
  {
    JoinEndsWithLastCell(lines, Newline);
    var last := lines[|lines| - 1];
    assert last[|last| - 1] in last;
    TrailingDelimiterAddsNoCell(Join(lines, Newline), Newline);
  }

  /** The (i+1)-th std::getline call on the file succeeds exactly when there is
      an i-th data line, and then delivers it. */
  lemma ReadsDataRow(content: string, i: nat, prev: string)
    ensures (i + 1 < |Split(content, Newline)|) == (i < |DataRows(content)|)
    ensures i < |DataRows(content)| ==> Extracted(content, i + 1, prev, Newline) == DataRows(content)[i]
  {
  }

  /** std::getline(indata, line) on a spec file whose header has been read:
      the call after i data lines delivers the next one, if there is one. */
  method ReadDataRow(indata: InputStream, line: string, ghost i: nat) returns (ok: bool, line': string)
    requires indata.delim == Newline && indata.calls == i + 1
    modifies indata
    ensures indata.calls == i + 2
    ensures ok == (i < |DataRows(indata.source)|)
    ensures ok ==> line' == DataRows(indata.source)[i]
  {
    ReadsDataRow(indata.source, i, line);
    ok, line' := indata.Read(line);
  }

  /** How a load ends once the loop has produced `p`: the line after the last
      record is the one that threw (the header is line 0). */
  function OutcomeOf<T>(p: Parse<T>): Outcome
  {
    if p.complete then Completed else Aborted(|p.records| + 1)
  }

  /** What a spec loader's row loop makes of the first n data lines of `rows`.
      Each line is read by `read` with the carry (the loop variables that
      outlive a line) left by the line before, `c0` before the first line; a
      record sets the carry to `carry` of it, and the first line that throws
      ends the load. */
  function ParsePrefix<C, T>(rows: seq<string>, n: nat, c0: C, read: (string, C) -> Row<T>, carry: T -> C): Parse<T>
    requires n <= |rows|
  {
    if n == 0 then Parse([], true)
    else
      var p := ParsePrefix(rows, n - 1, c0, read, carry);
      if !p.complete then p
      else
        match read(rows[n - 1], CarryAt(p.records, |p.records|, c0, carry))
        case Thrown => Parse(p.records, false)
        case Parsed(r) => Parse(p.records + [r], true)
  }

  /** What the row loop makes of all the data lines. */
  function ParseRows<C, T>(rows: seq<string>, c0: C, read: (string, C) -> Row<T>, carry: T -> C): Parse<T>
  {
    ParsePrefix(rows, |rows|, c0, read, carry)
  }

  /** The carry before the i-th line, once `records` have been read. */
  function CarryAt<C, T>(records: seq<T>, i: nat, c0: C, carry: T -> C): C
    requires i <= |records|
  {
    if i == 0 then c0 else carry(records[i - 1])
  }

  /** The loop invariant of a spec loader: the records `done` are what the
      first |done| data lines yield. */
  ghost predicate RowsRead<C, T>(rows: seq<string>, done: seq<T>, c0: C, read: (string, C) -> Row<T>, carry: T -> C)
  {
    |done| <= |rows| && ParsePrefix(rows, |done|, c0, read, carry) == Parse(done, true)
  }

  /** Once a line has thrown, later lines change nothing. */
  lemma {:induction false} ParsePrefixStops<C, T>(rows: seq<string>, n: nat, m: nat, c0: C, read: (string, C) -> Row<T>,
                                                  carry: T -> C)
    requires n <= m <= |rows|
    requires !ParsePrefix(rows, n, c0, read, carry).complete
    ensures ParsePrefix(rows, m, c0, read, carry) == ParsePrefix(rows, n, c0, read, carry)
    decreases m
  {
    if n < m {
      ParsePrefixStops(rows, n, m - 1, c0, read, carry);
    }
  }

  /** The loop step: a line that yields a record extends what the lines before
      it produced by that record. */
  lemma ParseRowsNext<C, T>(rows: seq<string>, done: seq<T>, r: T, c0: C, read: (string, C) -> Row<T>, carry: T -> C)
    requires |done| < |rows| && RowsRead(rows, done, c0, read, carry)
    requires read(rows[|done|], CarryAt(done, |done|, c0, carry)) == Parsed(r)
    ensures RowsRead(rows, done + [r], c0, read, carry)
  {
  }

  /** The loop exit on a line that throws: the load is what the lines before it
      produced, incomplete. */
  lemma ParseRowsStop<C, T>(rows: seq<string>, done: seq<T>, c0: C, read: (string, C) -> Row<T>, carry: T -> C)
    requires |done| < |rows| && RowsRead(rows, done, c0, read, carry)
    requires read(rows[|done|], CarryAt(done, |done|, c0, carry)) == Thrown
    ensures ParseRows(rows, c0, read, carry) == Parse(done, false)
  {
    ParsePrefixStops(rows, |done| + 1, |rows|, c0, read, carry);
  }

  /** The i-th record is what the i-th line yields, read with the carry the
      record before it left. */
  ghost predicate YieldsAt<C, T>(rows: seq<string>, records: seq<T>, i: nat, c0: C, read: (string, C) -> Row<T>,
                                 carry: T -> C)
  {
    i < |records| && i < |rows| && read(rows[i], CarryAt(records, i, c0, carry)) == Parsed(records[i])
  }

  /** A loader reads the data lines once each, in file order: the i-th record
      is what the i-th line yields with the carry of the record before it, the
      load is complete exactly when each of the n lines yields a record, and
      otherwise the line after the last record is the one that threw. */
  lemma {:induction false} ParsePrefixRowByRow<C, T>(rows: seq<string>, n: nat, c0: C, read: (string, C) -> Row<T>,
                                                     carry: T -> C)
    requires n <= |rows|
    ensures var p := ParsePrefix(rows, n, c0, read, carry);
      && |p.records| <= n
      && (p.complete <==> |p.records| == n)
      && (forall i: nat :: i < |p.records| ==> YieldsAt(rows, p.records, i, c0, read, carry))
      && (!p.complete ==> read(rows[|p.records|], CarryAt(p.records, |p.records|, c0, carry)) == Thrown)
  {
    if n > 0 {
      ParsePrefixRowByRow(rows, n - 1, c0, read, carry);
      var p := ParsePrefix(rows, n - 1, c0, read, carry);
      if p.complete {
        var row := read(rows[n - 1], CarryAt(p.records, |p.records|, c0, carry));
        if row.Parsed? {
          var next := p.records + [row.value];
          assert ParsePrefix(rows, n, c0, read, carry) == Parse(next, true);
          forall i: nat | i < |next|
            ensures YieldsAt(rows, next, i, c0, read, carry)
          {
            CarryAtSnoc(p.records, row.value, i, c0, carry);
            if i < |p.records| {
              assert YieldsAt(rows, p.records, i, c0, read, carry);
            }
          }
        }
      }
    }
  }

  lemma CarryAtSnoc<C, T>(records: seq<T>, r: T, i: nat, c0: C, carry: T -> C)
    requires i <= |records|
    ensures CarryAt(records + [r], i, c0, carry) == CarryAt(records, i, c0, carry)
  {
    if i > 0 {
      assert (records + [r])[i - 1] == records[i - 1];
    }
  }

  /** ParsePrefixRowByRow for the whole file. */
  lemma ParseRowsRowByRow<C, T>(rows: seq<string>, c0: C, read: (string, C) -> Row<T>, carry: T -> C)
    ensures var p := ParseRows(rows, c0, read, carry);
      && |p.records| <= |rows|
      && (p.complete <==> |p.records| == |rows|)
      && (forall i: nat :: i < |p.records| ==> YieldsAt(rows, p.records, i, c0, read, carry))
      && (!p.complete ==> read(rows[|p.records|], CarryAt(p.records, |p.records|, c0, carry)) == Thrown)
  {
    ParsePrefixRowByRow(rows, |rows|, c0, read, carry);
  }

  // ---------------------------------------------------------------- ship specs

  /** The variables of loadShipSpecs's loop that outlive a line. */
  datatype ShipVars = ShipVars(name: string, texture: string, cost: Option<int>)

  const ShipStart: ShipVars := ShipVars([], [], None)

  function ReadShip(stofOk: string -> bool): (string, ShipVars) -> Row<ShipSpecs>
  {
    (line: string, v: ShipVars) => ShipRow(line, v.name, v.texture, v.cost, stofOk)
  }

  function ShipLeft(s: ShipSpecs): ShipVars
  {
    ShipVars(s.name, s.texture, s.cost)
  }

  /** The ship records of the data lines `rows`. */
  function ShipParse(rows: seq<string>, stofOk: string -> bool): Parse<ShipSpecs>
  {
    ParseRows(rows, ShipStart, ReadShip(stofOk), ShipLeft)
  }

  ghost predicate ShipsRead(rows: seq<string>, done: seq<ShipSpecs>, stofOk: string -> bool)
  {
    RowsRead(rows, done, ShipStart, ReadShip(stofOk), ShipLeft)
  }

  /** The set of texture files named by the records. */
  function ShipTextures(records: seq<ShipSpecs>): set<string>
  {
    set s | s in records :: s.texture
  }

  function ShipNames(records: seq<ShipSpecs>): (names: seq<string>)
    ensures |names| == |records|
    ensures forall i :: 0 <= i < |records| ==> names[i] == records[i].name
  {
    if records == [] then [] else ShipNames(records[..|records| - 1]) + [records[|records| - 1].name]
  }

  /** The records as (key, record) pairs for the specs table. */
  function Keyed(records: seq<ShipSpecs>): (entries: seq<(string, ShipSpecs)>)
    ensures |entries| == |records|
  {
    if records == [] then [] else Keyed(records[..|records| - 1]) + [(records[|records| - 1].name, records[|records| - 1])]
  }

  lemma ShipNamesSnoc(keys0: seq<string>, before: seq<string>, after: seq<string>, done: seq<ShipSpecs>, s: ShipSpecs)
    requires before == keys0 + ShipNames(done) && after == before + [s.name]
    ensures after == keys0 + ShipNames(done + [s])
  {
    assert (done + [s])[..|done|] == done;
    assert ShipNames(done + [s]) == ShipNames(done) + [s.name];
  }

  lemma InsertShipsSnoc(m: map<string, ShipSpecs>, before: map<string, ShipSpecs>, after: map<string, ShipSpecs>,
                         done: seq<ShipSpecs>, s: ShipSpecs)
    requires before == InsertAll(m, Keyed(done)) && after == Insert(before, s.name, s)
    ensures after == InsertAll(m, Keyed(done + [s]))
  {
    assert (done + [s])[..|done|] == done;
    assert Keyed(done + [s])[..|done|] == Keyed(done);
  }

  lemma ShipTexturesSnoc(done: seq<ShipSpecs>, s: ShipSpecs)
    ensures ShipTextures(done + [s]) == ShipTextures(done) + {s.texture}
  {
    assert forall r :: r in done + [s] <==> r in done || r == s;
  }

  /** The ship names in the order they were read: the i-th is the first cell
      of the i-th data line. */
  lemma ShipNamesAreFirstCells(rows: seq<string>, stofOk: string -> bool, i: nat)
    requires i < |ShipParse(rows, stofOk).records|
    ensures i < |rows|
    ensures ShipNames(ShipParse(rows, stofOk).records)[i] == RowName(rows[i])
  {
    var p := ShipParse(rows, stofOk);
    ParseRowsRowByRow(rows, ShipStart, ReadShip(stofOk), ShipLeft);
    assert YieldsAt(rows, p.records, i, ShipStart, ReadShip(stofOk), ShipLeft);
    var v := CarryAt(p.records, i, ShipStart, ShipLeft);
    assert ShipRow(rows[i], v.name, v.texture, v.cost, stofOk) == Parsed(p.records[i]);
    FirstCellIsName(rows[i], v.name);
  }

  /** A ship name read for the first time, and not in the table before, is
      stored with its own record: a later line with the same name changes
      nothing in specs. */
  lemma ShipSpecsFirstWins(specs0: map<string, ShipSpecs>, records: seq<ShipSpecs>, i: nat)
    requires i < |records| && records[i].name !in specs0
    requires forall j :: 0 <= j < i ==> records[j].name != records[i].name
    ensures records[i].name in InsertAll(specs0, Keyed(records))
    ensures InsertAll(specs0, Keyed(records))[records[i].name] == records[i]
  {
    var entries := Keyed(records);
    forall j | 0 <= j <= i
      ensures entries[j] == (records[j].name, records[j])
    {
      KeyedAt(records, j);
    }
    InsertAllFirstWins(specs0, entries, i);
  }

  /** The i-th entry is the i-th record under its name. */
  lemma {:induction false} KeyedAt(records: seq<ShipSpecs>, i: nat)
    requires i < |records|
    ensures Keyed(records)[i] == (records[i].name, records[i])
  {
    var front := records[..|records| - 1];
    if i < |front| {
      KeyedAt(front, i);
    }
  }

  // ---------------------------------------------------------------- projectile specs

  /** The variables of loadProjectileSpecs's loop that outlive a line. */
  datatype ProjectileVars = ProjectileVars(name: string, texture: string)

  const ProjectileStart: ProjectileVars := ProjectileVars([], [])

  function ReadProjectile(stofOk: string -> bool): (string, ProjectileVars) -> Row<(string, ProjectileSpecs)>
  {
    (line: string, v: ProjectileVars) => ProjectileRow(line, v.name, v.texture, stofOk)
  }

  function ProjectileLeft(e: (string, ProjectileSpecs)): ProjectileVars
  {
    ProjectileVars(e.0, e.1.texture)
  }

  /** The (name, record) entries of the data lines `rows`. */
  function ProjectileParse(rows: seq<string>, stofOk: string -> bool): Parse<(string, ProjectileSpecs)>
  {
    ParseRows(rows, ProjectileStart, ReadProjectile(stofOk), ProjectileLeft)
  }

  ghost predicate ProjectilesRead(rows: seq<string>, done: seq<(string, ProjectileSpecs)>, stofOk: string -> bool)
  {
    RowsRead(rows, done, ProjectileStart, ReadProjectile(stofOk), ProjectileLeft)
  }

  function ProjectileTextures(records: seq<(string, ProjectileSpecs)>): set<string>
  {
    set e | e in records :: e.1.texture
  }

  lemma InsertProjectilesSnoc(m: map<string, ProjectileSpecs>, before: map<string, ProjectileSpecs>,
                              after: map<string, ProjectileSpecs>, done: seq<(string, ProjectileSpecs)>,
                              e: (string, ProjectileSpecs))
    requires before == InsertAll(m, done) && after == Insert(before, e.0, e.1)
    ensures after == InsertAll(m, done + [e])
  {
    assert (done + [e])[..|done|] == done;
  }

  lemma ProjectileTexturesSnoc(done: seq<(string, ProjectileSpecs)>, e: (string, ProjectileSpecs))
    ensures ProjectileTextures(done + [e]) == ProjectileTextures(done) + {e.1.texture}
  {
    assert forall r :: r in done + [e] <==> r in done || r == e;
  }

  // ---------------------------------------------------------------- waves

  /** No variable of loadWaves's loop outlives a line. */
  function ReadWave(): (string, ()) -> Row<Wave>
  {
    (line: string, u: ()) => WaveRow(line)
  }

  function WaveLeft(w: Wave): ()
  {
    ()
  }

  /** The waves of the data lines `rows`. */
  function WaveParse(rows: seq<string>): Parse<Wave>
  {
    ParseRows(rows, (), ReadWave(), WaveLeft)
  }

  /** The wave loader reads every data line once, in file order, each on its
      own: the i-th wave is what the i-th line yields. */
  lemma WaveParseRowByRow(rows: seq<string>)
    ensures var p := WaveParse(rows);
      && |p.records| <= |rows|
      && (p.complete <==> |p.records| == |rows|)
      && (forall i :: 0 <= i < |p.records| ==> WaveRow(rows[i]) == Parsed(p.records[i]))
      && (!p.complete ==> WaveRow(rows[|p.records|]) == Thrown)
  {
    var p := WaveParse(rows);
    ParseRowsRowByRow(rows, (), ReadWave(), WaveLeft);
    forall i | 0 <= i < |p.records|
      ensures WaveRow(rows[i]) == Parsed(p.records[i])
    {
      assert YieldsAt(rows, p.records, i, (), ReadWave(), WaveLeft);
    }
  }

  // ---------------------------------------------------------------- sprite sheets

  function Count(n: int): nat
  {
    if n < 0 then 0 else n
  }

  /** The rectangles of column i of a sheet, one per row. */
  function Strip(size: int, rows: int, i: int): (rects: seq<IntRect>)
    ensures |rects| == Count(rows)
  {
    seq(Count(rows), j requires 0 <= j < Count(rows) => IntRect(j * size, i * size, size, size))
  }

  /** The rectangles loadMultiTexture cuts, in the order it cuts them. */
  function TileRects(size: int, rows: int, columns: int): seq<IntRect>
    decreases columns
  {
    if columns <= 0 then [] else TileRects(size, rows, columns - 1) + Strip(size, rows, columns - 1)
  }

  /** A sheet of `columns` by `rows` tiles yields that many textures, and the
      tile at row j of column i is the j-th square across and the i-th down
      (size-by-size squares that tile the sheet without gaps). */
  lemma {:induction false} TileGrid(size: int, rows: int, columns: int, i: int, j: int)
    requires 0 <= i < columns && 0 <= j < rows
    ensures |TileRects(size, rows, columns)| == columns * rows
    ensures TileRects(size, rows, columns)[i * rows + j] == IntRect(j * size, i * size, size, size)
    decreases columns
  {
    TileCount(size, rows, columns);
    TileCount(size, rows, i);
    TileCount(size, rows, i + 1);
    var before, upTo := TileRects(size, rows, i), TileRects(size, rows, i + 1);
    var k := i * rows + j;
    assert (i + 1) * rows == i * rows + rows;
    assert |before| <= k < |upTo|;
    TileRectsPrefix(size, rows, i + 1, columns);
    assert upTo == before + Strip(size, rows, i);
    assert upTo[k] == Strip(size, rows, i)[j];
    assert TileRects(size, rows, columns)[k] == upTo[k];
  }

  lemma {:induction false} TileCount(size: int, rows: int, columns: int)
    requires columns >= 0 && rows >= 0
    ensures |TileRects(size, rows, columns)| == columns * rows
    decreases columns
  {
    if columns > 0 {
      TileCount(size, rows, columns - 1);
      assert (columns - 1) * rows + rows == columns * rows;
    }
  }

  lemma {:induction false} TileRectsPrefix(size: int, rows: int, a: int, b: int)
    requires 0 <= a <= b
    ensures |TileRects(size, rows, a)| <= |TileRects(size, rows, b)|
    ensures TileRects(size, rows, b)[..|TileRects(size, rows, a)|] == TileRects(size, rows, a)
    decreases b
  {
    if a < b {
      TileRectsPrefix(size, rows, a, b - 1);
    }
  }

  /** A texture loaded from `file` (cut to `area`) with smoothing `smooth`. */
  predicate Holds(t: Texture, file: string, area: Option<IntRect>, smooth: bool)
    reads t
  {
    t.file == file && t.area == area && t.smooth == smooth
  }

  /** Every texture stored in `table` under a key that `table0` lacks was
      loaded from the file it is keyed by, with smoothing left off. */
  predicate LoadedSince(table: map<string, Texture>, table0: map<string, Texture>)
    reads table.Values
  {
    forall k :: k in table && k !in table0 ==> Holds(table[k], k, None, false)
  }

  // ---------------------------------------------------------------- the window

  /** The part of the game window the loaders update. */
  class Window {
    var smoothTextures: bool
    var textureID: int
    var textures: map<string, Texture>
    var planetTextures: seq<Texture>
    var asteroidTextures: seq<Texture>
    var fragTextures: seq<Texture>
    var stationTextures: seq<Texture>
    var specs: map<string, ShipSpecs>
    var specKeys: seq<string>
    var pSpecs: map<string, ProjectileSpecs>
    var waves: seq<Wave>

    /** The texture already stored under `key`, which loadTexture would reload. */
    function Slot(key: string): set<Texture>
      reads this
    {
      if key in textures then {textures[key]} else {}
    }

    /** loadTexture's effect on the textures table: `t` is what `key` maps to
        afterwards; a new key maps to a new texture, and an existing key keeps
        the texture it had (std::unordered_map::insert does not overwrite). */
    twostate predicate Stored(key: string, new t: Texture)
      reads this
    {
      && key in textures && textures[key] == t
      && if key in old(textures) then textures == old(textures) && t == old(textures)[key]
         else textures == old(textures)[key := t] && fresh(t)
    }

    /** The textures table only grows: every key keeps its texture, and a
        texture stored under a new key is a new object. */
    twostate predicate TexturesGrow()
      reads this
    {
      && (forall k :: k in old(textures) ==> k in textures && textures[k] == old(textures)[k])
      && forall k :: k in textures && k !in old(textures) ==> fresh(textures[k])
    }

    /** The spec loaders leave the texture counter, the smoothing setting and
        the texture lists alone. */
    twostate predicate KeepsTextureState()
      reads this
    {
      textureID == old(textureID) && smoothTextures == old(smoothTextures) && SameTextureLists()
    }

    twostate predicate SameTextureLists()
      reads this
    {
      && planetTextures == old(planetTextures) && asteroidTextures == old(asteroidTextures)
      && fragTextures == old(fragTextures) && stationTextures == old(stationTextures)
    }

    twostate predicate SameSpecTables()
      reads this
    {
      specs == old(specs) && specKeys == old(specKeys) && pSpecs == old(pSpecs) && waves == old(waves)
    }

    /** Window::loadTexture: counts textureID up, stores a new texture under its
        decimal form unless that key is taken, (re)loads the stored texture
        from the file with the window's smoothing, and returns it. */
    method LoadTexture(textureLocation: string) returns (t: Texture)
      modifies this, Slot(ToString(textureID + 1))
      ensures textureID == old(textureID) + 1
      ensures Stored(ToString(textureID), t)
      ensures Holds(t, textureLocation, None, smoothTextures)
      ensures smoothTextures == old(smoothTextures) && SameTextureLists() && SameSpecTables()
    {
      textureID := textureID + 1;
      var key := ToString(textureID);
      var created := new Texture();
      textures := Insert(textures, key, created);
      t := textures[key];
      t.LoadFromFile(textureLocation, None);
      t.SetSmooth(smoothTextures);
    }

    /** Window::loadPlanetTexture: loadTexture, appended to the planet textures
        and smoothed whatever the window's setting. */
    method LoadPlanetTexture(textureLocation: string)
      modifies this, Slot(ToString(textureID + 1))
      ensures textureID == old(textureID) + 1
      ensures |planetTextures| == |old(planetTextures)| + 1 && planetTextures[..|old(planetTextures)|] == old(planetTextures)
      ensures Stored(ToString(textureID), planetTextures[|planetTextures| - 1])
      ensures Holds(planetTextures[|planetTextures| - 1], textureLocation, None, true)
      ensures asteroidTextures == old(asteroidTextures) && fragTextures == old(fragTextures)
      ensures stationTextures == old(stationTextures)
      ensures smoothTextures == old(smoothTextures) && SameSpecTables()
    {
      var t := LoadTexture(textureLocation);
      planetTextures := planetTextures + [t];
      t.SetSmooth(true);
    }

    /** Window::loadAsteroidTexture: loadTexture, appended to the asteroid textures. */
    method LoadAsteroidTexture(textureLocation: string)
      modifies this, Slot(ToString(textureID + 1))
      ensures textureID == old(textureID) + 1
      ensures |asteroidTextures| == |old(asteroidTextures)| + 1 && asteroidTextures[..|old(asteroidTextures)|] == old(asteroidTextures)
      ensures Stored(ToString(textureID), asteroidTextures[|asteroidTextures| - 1])
      ensures Holds(asteroidTextures[|asteroidTextures| - 1], textureLocation, None, smoothTextures)
      ensures planetTextures == old(planetTextures) && fragTextures == old(fragTextures)
      ensures stationTextures == old(stationTextures)
      ensures smoothTextures == old(smoothTextures) && SameSpecTables()
    {
      var t := LoadTexture(textureLocation);
      asteroidTextures := asteroidTextures + [t];
    }

    /** Window::loadFragmentTexture: loadTexture, appended to the fragment textures. */
    method LoadFragmentTexture(textureLocation: string)
      modifies this, Slot(ToString(textureID + 1))
      ensures textureID == old(textureID) + 1
      ensures |fragTextures| == |old(fragTextures)| + 1 && fragTextures[..|old(fragTextures)|] == old(fragTextures)
      ensures Stored(ToString(textureID), fragTextures[|fragTextures| - 1])
      ensures Holds(fragTextures[|fragTextures| - 1], textureLocation, None, smoothTextures)
      ensures planetTextures == old(planetTextures) && asteroidTextures == old(asteroidTextures)
      ensures stationTextures == old(stationTextures)
      ensures smoothTextures == old(smoothTextures) && SameSpecTables()
    {
      var t := LoadTexture(textureLocation);
      fragTextures := fragTextures + [t];
    }

    /** Window::loadStationTexture: loadTexture, appended to the station textures
        and smoothed whatever the window's setting. */
    method LoadStationTexture(textureLocation: string)
      modifies this, Slot(ToString(textureID + 1))
      ensures textureID == old(textureID) + 1
      ensures |stationTextures| == |old(stationTextures)| + 1 && stationTextures[..|old(stationTextures)|] == old(stationTextures)
      ensures Stored(ToString(textureID), stationTextures[|stationTextures| - 1])
      ensures Holds(stationTextures[|stationTextures| - 1], textureLocation, None, true)
      ensures planetTextures == old(planetTextures) && asteroidTextures == old(asteroidTextures)
      ensures fragTextures == old(fragTextures)
      ensures smoothTextures == old(smoothTextures) && SameSpecTables()
    {
      var t := LoadTexture(textureLocation);
      stationTextures := stationTextures + [t];
      t.SetSmooth(true);
    }

    /** Window::loadTextureSquare: appends a new texture loaded from the
        rectangle `rect` of the file, with the window's smoothing. */
    method LoadTextureSquare(textureLocation: string, rect: IntRect, storeLocation: TextureList)
      modifies storeLocation
      ensures |storeLocation.items| == |old(storeLocation.items)| + 1
      ensures storeLocation.items[..|old(storeLocation.items)|] == old(storeLocation.items)
      ensures fresh(storeLocation.items[|storeLocation.items| - 1])
      ensures Holds(storeLocation.items[|storeLocation.items| - 1], textureLocation, Some(rect), smoothTextures)
    {
      var created := new Texture();
      storeLocation.items := storeLocation.items + [created];
      var back := storeLocation.items[|storeLocation.items| - 1];
      back.LoadFromFile(textureLocation, Some(rect));
      back.SetSmooth(smoothTextures);
    }

    /** Window::loadMultiTexture: cuts a sheet into size-by-size squares, `rows`
        across each of `columns` bands, band after band, and appends a new
        texture for each, in the order of TileRects. */
    method LoadMultiTexture(location: string, storeLocation: TextureList, size: int := 64, rows: int := 1, columns: int := 1)
      modifies storeLocation
      ensures var n0, tiles := |old(storeLocation.items)|, TileRects(size, rows, columns);
        && |storeLocation.items| == n0 + |tiles|
        && storeLocation.items[..n0] == old(storeLocation.items)
        && (forall k :: n0 <= k < |storeLocation.items| ==> fresh(storeLocation.items[k]))
        && forall k :: 0 <= k < |tiles| ==>
             Holds(storeLocation.items[n0 + k], location, Some(tiles[k]), smoothTextures)
    {
      ghost var n0 := |storeLocation.items|;
      var i := 0;
      while i < columns
        invariant 0 <= i <= Count(columns)
        invariant |storeLocation.items| == n0 + |TileRects(size, rows, i)|
        invariant storeLocation.items[..n0] == old(storeLocation.items)
        invariant forall k :: n0 <= k < |storeLocation.items| ==> fresh(storeLocation.items[k])
        invariant forall k :: 0 <= k < |TileRects(size, rows, i)| ==>
                    Holds(storeLocation.items[n0 + k], location, Some(TileRects(size, rows, i)[k]), smoothTextures)
      {
        ghost var done := TileRects(size, rows, i);
        LoadBand(location, storeLocation, size, rows, i);
        assert TileRects(size, rows, i + 1) == done + Strip(size, rows, i);
        i := i + 1;
      }
    }

    /** The inner loop of Window::loadMultiTexture for band i: one square
        per row, left to right. */
    method LoadBand(location: string, storeLocation: TextureList, size: int, rows: int, i: int)
      modifies storeLocation
      ensures var n0, strip := |old(storeLocation.items)|, Strip(size, rows, i);
        && |storeLocation.items| == n0 + |strip|
        && storeLocation.items[..n0] == old(storeLocation.items)
        && (forall k :: n0 <= k < |storeLocation.items| ==> fresh(storeLocation.items[k]))
        && forall k :: 0 <= k < |strip| ==>
             Holds(storeLocation.items[n0 + k], location, Some(strip[k]), smoothTextures)
    {
      ghost var n0 := |storeLocation.items|;
      ghost var strip := Strip(size, rows, i);
      var j := 0;
      while j < rows
        invariant 0 <= j <= Count(rows)
        invariant |storeLocation.items| == n0 + j
        invariant storeLocation.items[..n0] == old(storeLocation.items)
        invariant forall k :: n0 <= k < |storeLocation.items| ==> fresh(storeLocation.items[k])
        invariant forall k :: 0 <= k < j ==>
                    Holds(storeLocation.items[n0 + k], location, Some(strip[k]), smoothTextures)
      {
        LoadTextureSquare(location, IntRect(j * size, i * size, size, size), storeLocation);
        j := j + 1;
      }
    }

    /** Window::loadShipSpecs on a file with text `content`, up to the logging:
        after the header, each line becomes a ship record (ShipParse); its name
        is appended to specKeys, it is inserted into specs unless its name is
        already a key, and its texture file is registered unless it is already
        a key of the textures table. A line on which std::stoi or std::stof
        throws ends the load with everything before it in place. */
    method LoadShipSpecs(content: string, stofOk: string -> bool) returns (outcome: Outcome)
      modifies this
      ensures var p := ShipParse(DataRows(content), stofOk);
        && outcome == OutcomeOf(p)
        && ShipsStored(old(specKeys), old(specs), old(textures), p.records)
      ensures LoadedSince(textures, old(textures)) && TexturesGrow()
      ensures pSpecs == old(pSpecs) && waves == old(waves) && KeepsTextureState()
    {
      var indata := new InputStream(content, Newline);
      var name: string := [];
      var texture: string := [];
      var cost: Option<int> := None;
      var line: string := [];
      var ok: bool;
      ok, line := indata.Read(line);
      ok, line := ReadDataRow(indata, line, 0);
      ghost var rows := DataRows(content);
      ghost var done: seq<ShipSpecs> := [];
      var count := 0;
      while ok
        invariant count == |done|
        invariant indata.source == content && indata.delim == Newline
        invariant indata.calls == |done| + 2 && |done| <= |rows|
        invariant ok == (|done| < |rows|) && (ok ==> line == rows[|done|])
        invariant ShipsRead(rows, done, stofOk) && ShipVars(name, texture, cost) == CarryAt(done, |done|, ShipStart, ShipLeft)
        invariant ShipsStored(old(specKeys), old(specs), old(textures), done) && LoadedSince(textures, old(textures))
        invariant TexturesGrow()
        invariant pSpecs == old(pSpecs) && waves == old(waves) && KeepsTextureState()
        decreases |rows| - |done|
      {
        var row := LoadShipLine(line, name, texture, cost, stofOk, rows, done, old(specKeys), old(specs), old(textures));
        if row.Thrown? {
          return Aborted(count + 1);
        }
        var spec := row.value;
        name, texture, cost := spec.name, spec.texture, spec.cost;
        done, count := done + [spec], count + 1;
        ok, line := ReadDataRow(indata, line, count);
      }
      assert rows[..|done|] == rows;
      outcome := Completed;
    }

    /** The tables after the records `done` were stored, starting from
        `keys0`, `specs0` and `textures0`. */
    predicate ShipsStored(keys0: seq<string>, specs0: map<string, ShipSpecs>, textures0: map<string, Texture>,
                          done: seq<ShipSpecs>)
      reads this
    {
      && specKeys == keys0 + ShipNames(done)
      && specs == InsertAll(specs0, Keyed(done))
      && Extends(textures0, textures, ShipTextures(done))
    }

    /** One pass of Window::loadShipSpecs's row loop on the data line at index
        |done|, up to the logging: it reads the line, and if no exception is
        thrown it stores the record. */
    method LoadShipLine(line: string, name: string, texture: string, cost: Option<int>, stofOk: string -> bool,
                        ghost rows: seq<string>, ghost done: seq<ShipSpecs>,
                        ghost keys0: seq<string>, ghost specs0: map<string, ShipSpecs>, ghost textures0: map<string, Texture>)
      returns (row: Row<ShipSpecs>)
      requires |done| < |rows| && line == rows[|done|]
      requires ShipsRead(rows, done, stofOk) && ShipVars(name, texture, cost) == CarryAt(done, |done|, ShipStart, ShipLeft)
      requires ShipsStored(keys0, specs0, textures0, done) && LoadedSince(textures, textures0)
      modifies this
      ensures row.Thrown? ==>
        && ShipParse(rows, stofOk) == Parse(done, false)
        && specKeys == old(specKeys) && specs == old(specs) && textures == old(textures)
      ensures row.Parsed? ==>
        && ShipsRead(rows, done + [row.value], stofOk)
        && ShipsStored(keys0, specs0, textures0, done + [row.value])
      ensures LoadedSince(textures, textures0) && TexturesGrow()
      ensures pSpecs == old(pSpecs) && waves == old(waves) && KeepsTextureState()
    {
      row := ReadShipRow(line, name, texture, cost, stofOk);
      if row.Thrown? {
        ParseRowsStop(rows, done, ShipStart, ReadShip(stofOk), ShipLeft);
        return;
      }
      ParseRowsNext(rows, done, row.value, ShipStart, ReadShip(stofOk), ShipLeft);
      StoreShip(row.value, done, keys0, specs0, textures0);
    }

    /** The table updates of one pass of Window::loadShipSpecs's row loop: the
        name is appended to specKeys, the record inserted into specs and the
        texture file registered. */
    method StoreShip(spec: ShipSpecs, ghost done: seq<ShipSpecs>,
                     ghost keys0: seq<string>, ghost specs0: map<string, ShipSpecs>, ghost textures0: map<string, Texture>)
      requires ShipsStored(keys0, specs0, textures0, done) && LoadedSince(textures, textures0)
      modifies this
      ensures ShipsStored(keys0, specs0, textures0, done + [spec]) && LoadedSince(textures, textures0) && TexturesGrow()
      ensures pSpecs == old(pSpecs) && waves == old(waves) && KeepsTextureState()
    {
      specKeys := specKeys + [spec.name];
      specs := Insert(specs, spec.name, spec);
      RegisterTexture(spec.texture, textures0, ShipTextures(done));
      ShipNamesSnoc(keys0, old(specKeys), specKeys, done, spec);
      InsertShipsSnoc(specs0, old(specs), specs, done, spec);
      ShipTexturesSnoc(done, spec);
    }

    /** Window::loadProjectileSpecs on a file with text `content`: after the
        header, each line becomes a (name, record) entry (ProjectileParse),
        inserted into pSpecs unless the name is already a key; its texture file
        is registered unless it is already a key of the textures table. A line
        on which std::stoi or std::stof throws ends the load. */
    method LoadProjectileSpecs(content: string, stofOk: string -> bool) returns (outcome: Outcome)
      modifies this
      ensures var p := ProjectileParse(DataRows(content), stofOk);
        && outcome == OutcomeOf(p)
        && ProjectilesStored(old(pSpecs), old(textures), p.records)
      ensures LoadedSince(textures, old(textures)) && TexturesGrow()
      ensures specs == old(specs) && specKeys == old(specKeys) && waves == old(waves) && KeepsTextureState()
    {
      var indata := new InputStream(content, Newline);
      var name: string := [];
      var texture: string := [];
      var line: string := [];
      var ok: bool;
      ok, line := indata.Read(line);
      ok, line := ReadDataRow(indata, line, 0);
      ghost var rows := DataRows(content);
      ghost var done: seq<(string, ProjectileSpecs)> := [];
      var count := 0;
      while ok
        invariant count == |done|
        invariant indata.source == content && indata.delim == Newline
        invariant indata.calls == |done| + 2 && |done| <= |rows|
        invariant ok == (|done| < |rows|) && (ok ==> line == rows[|done|])
        invariant ProjectilesRead(rows, done, stofOk)
        invariant ProjectileVars(name, texture) == CarryAt(done, |done|, ProjectileStart, ProjectileLeft)
        invariant ProjectilesStored(old(pSpecs), old(textures), done) && LoadedSince(textures, old(textures))
        invariant TexturesGrow()
        invariant specs == old(specs) && specKeys == old(specKeys) && waves == old(waves) && KeepsTextureState()
        decreases |rows| - |done|
      {
        var row := LoadProjectileLine(line, name, texture, stofOk, rows, done, old(pSpecs), old(textures));
        if row.Thrown? {
          return Aborted(count + 1);
        }
        var entry := row.value;
        name, texture := entry.0, entry.1.texture;
        done, count := done + [entry], count + 1;
        ok, line := ReadDataRow(indata, line, count);
      }
      assert rows[..|done|] == rows;
      outcome := Completed;
    }

    /** The tables after the entries `done` were stored, starting from
        `pSpecs0` and `textures0`. */
    predicate ProjectilesStored(pSpecs0: map<string, ProjectileSpecs>, textures0: map<string, Texture>,
                                done: seq<(string, ProjectileSpecs)>)
      reads this
    {
      pSpecs == InsertAll(pSpecs0, done) && Extends(textures0, textures, ProjectileTextures(done))
    }

    /** One pass of Window::loadProjectileSpecs's row loop on the data line at
        index |done|, up to the logging. */
    method LoadProjectileLine(line: string, name: string, texture: string, stofOk: string -> bool,
                              ghost rows: seq<string>, ghost done: seq<(string, ProjectileSpecs)>,
                              ghost pSpecs0: map<string, ProjectileSpecs>, ghost textures0: map<string, Texture>)
      returns (row: Row<(string, ProjectileSpecs)>)
      requires |done| < |rows| && line == rows[|done|]
      requires ProjectilesRead(rows, done, stofOk)
      requires ProjectileVars(name, texture) == CarryAt(done, |done|, ProjectileStart, ProjectileLeft)
      requires ProjectilesStored(pSpecs0, textures0, done) && LoadedSince(textures, textures0)
      modifies this
      ensures row.Thrown? ==>
        && ProjectileParse(rows, stofOk) == Parse(done, false)
        && pSpecs == old(pSpecs) && textures == old(textures)
      ensures row.Parsed? ==>
        && ProjectilesRead(rows, done + [row.value], stofOk)
        && ProjectilesStored(pSpecs0, textures0, done + [row.value])
      ensures LoadedSince(textures, textures0) && TexturesGrow()
      ensures specs == old(specs) && specKeys == old(specKeys) && waves == old(waves) && KeepsTextureState()
    {
      row := ReadProjectileRow(line, name, texture, stofOk);
      if row.Thrown? {
        ParseRowsStop(rows, done, ProjectileStart, ReadProjectile(stofOk), ProjectileLeft);
        return;
      }
      ParseRowsNext(rows, done, row.value, ProjectileStart, ReadProjectile(stofOk), ProjectileLeft);
      StoreProjectile(row.value, done, pSpecs0, textures0);
    }

    /** The table updates of one pass of Window::loadProjectileSpecs's row loop. */
    method StoreProjectile(entry: (string, ProjectileSpecs), ghost done: seq<(string, ProjectileSpecs)>,
                           ghost pSpecs0: map<string, ProjectileSpecs>, ghost textures0: map<string, Texture>)
      requires ProjectilesStored(pSpecs0, textures0, done) && LoadedSince(textures, textures0)
      modifies this
      ensures ProjectilesStored(pSpecs0, textures0, done + [entry]) && LoadedSince(textures, textures0) && TexturesGrow()
      ensures specs == old(specs) && specKeys == old(specKeys) && waves == old(waves) && KeepsTextureState()
    {
      pSpecs := Insert(pSpecs, entry.0, entry.1);
      RegisterTexture(entry.1.texture, textures0, ProjectileTextures(done));
      InsertProjectilesSnoc(pSpecs0, old(pSpecs), pSpecs, done, entry);
      ProjectileTexturesSnoc(done, entry);
    }

    /** The textures.find / textures.insert step of the spec loaders: a texture
        file that is not a key yet gets a new texture loaded from it. */
    method RegisterTexture(texture: string, ghost textures0: map<string, Texture>, ghost added: set<string>)
      requires Extends(textures0, textures, added) && LoadedSince(textures, textures0)
      modifies this
      ensures texture in old(textures) ==> textures == old(textures)
      ensures texture !in old(textures) ==>
        && texture in textures && textures == old(textures)[texture := textures[texture]]
        && fresh(textures[texture]) && Holds(textures[texture], texture, None, false)
      ensures Extends(textures0, textures, added + {texture}) && LoadedSince(textures, textures0) && TexturesGrow()
      ensures specs == old(specs) && specKeys == old(specKeys) && pSpecs == old(pSpecs) && waves == old(waves)
      ensures KeepsTextureState()
    {
      if texture !in textures {
        var created := new Texture();
        textures := textures[texture := created];
        created.LoadFromFile(texture, None);
      }
      ExtendsStep(textures0, old(textures), textures, added, texture);
    }

    /** Window::loadWaves on a file with text `content`: after the header,
        each line becomes a wave (WaveParse) appended to waves. A line on which
        std::stoi throws ends the load. */
    method LoadWaves(content: string) returns (outcome: Outcome)
      modifies this
      ensures var p := WaveParse(DataRows(content));
        outcome == OutcomeOf(p) && waves == old(waves) + p.records
      ensures textures == old(textures) && specs == old(specs) && specKeys == old(specKeys) && pSpecs == old(pSpecs)
      ensures KeepsTextureState()
    {
      var indata := new InputStream(content, Newline);
      var line: string := [];
      var ok: bool;
      ok, line := indata.Read(line);
      ok, line := ReadDataRow(indata, line, 0);
      ghost var rows := DataRows(content);
      ghost var done: seq<Wave> := [];
      var count := 0;
      while ok
        invariant count == |done|
        invariant indata.source == content && indata.delim == Newline
        invariant indata.calls == |done| + 2 && |done| <= |rows|
        invariant ok == (|done| < |rows|) && (ok ==> line == rows[|done|])
        invariant RowsRead(rows, done, (), ReadWave(), WaveLeft)
        invariant waves == old(waves) + done
        invariant textures == old(textures) && specs == old(specs) && specKeys == old(specKeys) && pSpecs == old(pSpecs)
        invariant KeepsTextureState()
        decreases |rows| - |done|
      {
        var row := ReadWaveRow(line);
        if row.Thrown? {
          ParseRowsStop(rows, done, (), ReadWave(), WaveLeft);
          return Aborted(count + 1);
        }
        ParseRowsNext(rows, done, row.value, (), ReadWave(), WaveLeft);
        waves := waves + [row.value];
        done, count := done + [row.value], count + 1;
        assert waves == old(waves) + done;
        ok, line := ReadDataRow(indata, line, count);
      }
      assert rows[..|done|] == rows;
      outcome := Completed;
    }
  }
}
