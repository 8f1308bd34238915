/**
 * The configuration reader (`src/mazegen/utils/config.py`): `KEY=VALUE` lines
 * into a dictionary, then the checks and conversions of `validate_config`.
 * Opening the file is left to the caller: the input is the file's lines.
 * A raised `ValueError` is a `Failure` carrying its message.
 */
module Config {
  import opened Wrappers
  import opened Walls
  import opened Grids
  import opened Text

  /*
   * `parse_config`.
   */

  const MISSING_EQUALS: string := "Invalid format (missing '='): "

  /** A line that is blank or a comment once stripped. */
  predicate Skipped(line: string) {
    var clean := Strip(line);
    clean == [] || clean[0] == '#'
  }

  /** A line that is neither skipped nor holds an `=`. */
  predicate Malformed(line: string) {
    !Skipped(line) && '=' !in Strip(line)
  }

  /**
   * The key and value a line defines: the stripped text before its first `=`
   * and the stripped text after it. Skipped and malformed lines define none.
   */
  function Definition(line: string): (r: Option<(string, string)>)
    ensures r.Some? <==> !Skipped(line) && !Malformed(line)
  {
    var clean := Strip(line);
    if clean == [] || clean[0] == '#' then None
    else
      match Find(clean, '=')
      case None => None
      case Some(i) => Some((Strip(clean[..i]), Strip(clean[i + 1..])))
  }

  /** The split is at the first `=`: the key never holds one, the value may. */
  lemma DefinitionAtFirstEquals(line: string, i: nat)
    requires !Skipped(line) && i < |Strip(line)| && Strip(line)[i] == '=' && '=' !in Strip(line)[..i]
    ensures Definition(line) == Some((Strip(Strip(line)[..i]), Strip(Strip(line)[i + 1..])))
  {
  }

  /** The effect of one line on the settings read so far. */
  function ParseLine(settings: map<string, string>, line: string): Result<map<string, string>, string> {
    if Skipped(line) then Success(settings)
    else if Malformed(line) then Failure(MISSING_EQUALS + Strip(line))
    else
      var (key, value) := Definition(line).value;
      Success(settings[key := value])
  }

  /** The lines read in order; the first malformed line stops the reading. */
  function Parse(lines: seq<string>): Result<map<string, string>, string>
    decreases |lines|
  {
    if lines == [] then Success(map[])
    else
      match Parse(lines[..|lines| - 1])
      case Failure(e) => Failure(e)
      case Success(settings) => ParseLine(settings, lines[|lines| - 1])
  }

  /** `parse_config`, over the lines of the file. */
  method ParseConfig(lines: seq<string>) returns (r: Result<map<string, string>, string>)
    ensures r == Parse(lines)
  {
    var settings: map<string, string> := map[];
    for n := 0 to |lines|
      invariant Parse(lines[..n]) == Success(settings)
    {
      assert lines[..n + 1][..n] == lines[..n];
      var clean := Strip(lines[n]);
      if clean == [] || clean[0] == '#' {
        continue;
      }
      if '=' !in clean {
        FailureSticks(lines, n + 1);
        return Failure(MISSING_EQUALS + clean);
      }
      var i := Find(clean, '=').value;
      var key := Strip(clean[..i]);
      var value := Strip(clean[i + 1..]);
      settings := settings[key := value];
    }
    assert lines[..|lines|] == lines;
    r := Success(settings);
  }

  /** An error in the first `n` lines is the error of the whole file. */
  lemma {:induction false} FailureSticks(lines: seq<string>, n: nat)
    requires n <= |lines| && Parse(lines[..n]).Failure?
    ensures Parse(lines) == Parse(lines[..n])
    decreases |lines| - n
  {
    if n < |lines| {
      assert lines[..n + 1][..n] == lines[..n];
      FailureSticks(lines, n + 1);
    } else {
      assert lines[..n] == lines;
    }
  }

  /** The value the last line defining `key` gives it, if any line does. */
  function LastDefinition(lines: seq<string>, key: string): Option<string>
    decreases |lines|
  {
    if lines == [] then None
    else
      var d := Definition(lines[|lines| - 1]);
      if d.Some? && d.value.0 == key then Some(d.value.1)
      else LastDefinition(lines[..|lines| - 1], key)
  }

  /**
   * Reading fails exactly when some line is malformed, and then with the
   * message naming the first one.
   */
  lemma {:induction false} ParseFails(lines: seq<string>)
    ensures Parse(lines).Failure? <==> exists i {:trigger lines[i]} :: 0 <= i < |lines| && Malformed(lines[i])
    ensures forall i {:trigger lines[i]} ::
      (0 <= i < |lines| && Malformed(lines[i]) && forall j {:trigger lines[j]} :: 0 <= j < i ==> !Malformed(lines[j]))
      ==> Parse(lines) == Failure(MISSING_EQUALS + Strip(lines[i]))
    decreases |lines|
  {
    if lines != [] {
      var init, last := lines[..|lines| - 1], lines[|lines| - 1];
      ParseFails(init);
      assert forall i :: 0 <= i < |init| ==> init[i] == lines[i];
      if Parse(init).Success? {
        assert Parse(lines) == ParseLine(Parse(init).value, last);
        assert forall i :: 0 <= i < |init| ==> !Malformed(lines[i]);
        assert Parse(lines).Failure? <==> Malformed(last);
      } else {
        assert Parse(lines) == Parse(init);
        var i :| 0 <= i < |init| && Malformed(init[i]);
      }
    }
  }

  /**
   * A file read without error holds exactly the keys some line defines, each
   * with the value of the LAST line defining it.
   */
  lemma {:induction false} ParseLastWins(lines: seq<string>, key: string)
    requires Parse(lines).Success?
    ensures key in Parse(lines).value <==> LastDefinition(lines, key).Some?
    ensures key in Parse(lines).value ==> Parse(lines).value[key] == LastDefinition(lines, key).value
    decreases |lines|
  {
    if lines != [] {
      ParseLastWins(lines[..|lines| - 1], key);
    }
  }

  /** A `KEY=VALUE` line written from a clean key and value reads back as that pair. */
  lemma ParseWritten(key: string, value: string)
    requires key != [] && Trimmed(key) && key[0] != '#' && '=' !in key
    requires Trimmed(value)
    ensures Parse([key + "=" + value]) == Success(map[key := value])
  {
    var line := key + "=" + value;
    assert Trimmed(line);
    StripTrimmed(line);
    assert line[..|key|] == key && line[|key|] == '=' && line[|key| + 1..] == value;
    assert Find(line, '=') == Some(|key|);
    StripTrimmed(key);
    StripTrimmed(value);
    assert [key + "=" + value][..0] == [];
  }

  /*
   * `validate_config`.
   */

  /** The converted settings: integers, coordinate pairs, a flag and a file name. */
  datatype Value = Int(n: int) | Pair(x: int, y: int) | Flag(b: bool) | Str(s: string)

  const MANDATORY: seq<string> := ["WIDTH", "HEIGHT", "ENTRY", "EXIT"]
  const DIMENSIONS_ERROR: string := "Error: WIDTH and HEIGHT must be valid numbers!"
  const COORDINATES_ERROR: string := "Error: ENTRY and EXIT must be in format X,Y (e.g., 0,0)"

  function MissingError(key: string): string {
    "Error: Missing mandatory setting '" + key + "'"
  }

  /** The first mandatory key, in the order WIDTH, HEIGHT, ENTRY, EXIT, that is absent. */
  function FirstMissing(raw: map<string, string>, from: nat): (r: Option<string>)
    requires from <= |MANDATORY|
    ensures r.None? <==> forall j :: from <= j < |MANDATORY| ==> MANDATORY[j] in raw
    ensures r.Some? ==>
      exists j :: from <= j < |MANDATORY| && MANDATORY[j] == r.value && r.value !in raw
        && forall j' :: from <= j' < j ==> MANDATORY[j'] in raw
    decreases |MANDATORY| - from
  {
    if from == |MANDATORY| then None
    else if MANDATORY[from] !in raw then Some(MANDATORY[from])
    else FirstMissing(raw, from + 1)
  }

  predicate HasMandatory(raw: map<string, string>) {
    "WIDTH" in raw && "HEIGHT" in raw && "ENTRY" in raw && "EXIT" in raw
  }

  /** Width and height when both read as integers of at least 3. */
  function Dimensions(raw: map<string, string>): (r: Option<(int, int)>)
    requires HasMandatory(raw)
    ensures r.Some? <==>
      (ParseInt(raw["WIDTH"]).Some? && ParseInt(raw["HEIGHT"]).Some?
       && ParseInt(raw["WIDTH"]).value >= 3 && ParseInt(raw["HEIGHT"]).value >= 3)
    ensures r.Some? ==> r.value == (ParseInt(raw["WIDTH"]).value, ParseInt(raw["HEIGHT"]).value)
  {
    match (ParseInt(raw["WIDTH"]), ParseInt(raw["HEIGHT"]))
    case (Some(w), Some(h)) => if w < 3 || h < 3 then None else Some((w, h))
    case _ => None
  }

  /** An `X,Y` pair: exactly two comma-separated integers. */
  function Coordinate(s: string): (r: Option<Cell>)
    ensures r.Some? <==> |Split(s, ',')| == 2 && ParseInt(Split(s, ',')[0]).Some? && ParseInt(Split(s, ',')[1]).Some?
    ensures r.Some? ==> r.value == (ParseInt(Split(s, ',')[0]).value, ParseInt(Split(s, ',')[1]).value)
  {
    var parts := Split(s, ',');
    if |parts| != 2 then None
    else
      match (ParseInt(parts[0]), ParseInt(parts[1]))
      case (Some(x), Some(y)) => Some((x, y))
      case _ => None
  }

  /** Entry and exit when both are pairs inside a `w` x `h` maze and they differ. */
  function Coordinates(raw: map<string, string>, w: int, h: int): (r: Option<(Cell, Cell)>)
    requires HasMandatory(raw)
    ensures r.Some? <==>
      (Coordinate(raw["ENTRY"]).Some? && Coordinate(raw["EXIT"]).Some?
       && InGrid(Coordinate(raw["ENTRY"]).value, w, h) && InGrid(Coordinate(raw["EXIT"]).value, w, h)
       && Coordinate(raw["ENTRY"]).value != Coordinate(raw["EXIT"]).value)
    ensures r.Some? ==> r.value == (Coordinate(raw["ENTRY"]).value, Coordinate(raw["EXIT"]).value)
  {
    match (Coordinate(raw["ENTRY"]), Coordinate(raw["EXIT"]))
    case (Some(entry), Some(exit)) =>
      if !InGrid(entry, w, h) || !InGrid(exit, w, h) || entry == exit then None else Some((entry, exit))
    case _ => None
  }

  function Get(raw: map<string, string>, key: string, default: string): string {
    if key in raw then raw[key] else default
  }

  /** The settings `validate_config` returns once every check passed. */
  function Clean(raw: map<string, string>, w: int, h: int, entry: Cell, exit: Cell): (r: map<string, Value>)
    ensures r.Keys == {"WIDTH", "HEIGHT", "ENTRY", "EXIT", "PERFECT", "OUTPUT_FILE"}
    ensures "SEED" !in r
  {
    map["WIDTH" := Int(w), "HEIGHT" := Int(h), "ENTRY" := Pair(entry.0, entry.1), "EXIT" := Pair(exit.0, exit.1),
        "PERFECT" := Flag(Lower(Get(raw, "PERFECT", "True")) == "true"),
        "OUTPUT_FILE" := Str(Get(raw, "OUTPUT_FILE", "maze.txt"))]
  }

  /**
   * `validate_config`: the first missing mandatory key is reported; then bad
   * dimensions (not integers, or below 3) with one message; then bad coordinates
   * (not two comma parts, not integers, outside the maze, or equal) with
   * another; otherwise the converted settings.
   */
  method ValidateConfig(raw: map<string, string>) returns (r: Result<map<string, Value>, string>)
    ensures FirstMissing(raw, 0).Some? ==> r == Failure(MissingError(FirstMissing(raw, 0).value))
    ensures FirstMissing(raw, 0).None? ==>
      HasMandatory(raw) &&
      if Dimensions(raw).None? then r == Failure(DIMENSIONS_ERROR)
      else
        var (w, h) := Dimensions(raw).value;
        if Coordinates(raw, w, h).None? then r == Failure(COORDINATES_ERROR)
        else r == Success(Clean(raw, w, h, Coordinates(raw, w, h).value.0, Coordinates(raw, w, h).value.1))
  {
    for j := 0 to |MANDATORY|
      invariant FirstMissing(raw, 0) == FirstMissing(raw, j)
    {
      if MANDATORY[j] !in raw {
        return Failure(MissingError(MANDATORY[j]));
      }
    }
    assert HasMandatory(raw) by {
      assert MANDATORY[0] in raw && MANDATORY[1] in raw && MANDATORY[2] in raw && MANDATORY[3] in raw;
    }
    var dims := CheckDimensions(raw);
    if dims.None? {
      return Failure(DIMENSIONS_ERROR);
    }
    var (w, h) := dims.value;
    var coords := CheckCoordinates(raw, w, h);
    if coords.None? {
      return Failure(COORDINATES_ERROR);
    }
    var (entry, exit) := coords.value;
    var clean: map<string, Value> := map[];
    clean := clean["WIDTH" := Int(w)];
    clean := clean["HEIGHT" := Int(h)];
    clean := clean["ENTRY" := Pair(entry.0, entry.1)];
    clean := clean["EXIT" := Pair(exit.0, exit.1)];
    var perfect := if "PERFECT" in raw then raw["PERFECT"] else "True";
    clean := clean["PERFECT" := Flag(Lower(perfect) == "true")];
    clean := clean["OUTPUT_FILE" := Str(if "OUTPUT_FILE" in raw then raw["OUTPUT_FILE"] else "maze.txt")];
    return Success(clean);
  }

  /**
   * The first `try` block of `validate_config`, in its early-exit form: each
   * `raise` inside the block becomes a `return None`, which the caller turns into
   * the single message the `except` raises. It computes `Dimensions`: both sizes
   * as integers, each at least 3.
   */
  method CheckDimensions(raw: map<string, string>) returns (d: Option<(int, int)>)
    requires HasMandatory(raw)
    ensures d == Dimensions(raw)
  {
    var width := ParseInt(raw["WIDTH"]);
    if width.None? {
      return None;
    }
    var height := ParseInt(raw["HEIGHT"]);
    if height.None? {
      return None;
    }
    var w, h := width.value, height.value;
    if w < 3 || h < 3 {
      return None;
    }
    return Some((w, h));
  }

  /**
   * The second `try` block, in the same early-exit form: any failure inside it
   * returns `None`, for which the caller raises the block's one message. It
   * computes `Coordinates`: two `X,Y` pairs inside the maze, and different.
   */
  method CheckCoordinates(raw: map<string, string>, w: int, h: int) returns (c: Option<(Cell, Cell)>)
    requires HasMandatory(raw)
    ensures c == Coordinates(raw, w, h)
  {
    var entry := ReadCoordinate(raw["ENTRY"]);
    var exit := ReadCoordinate(raw["EXIT"]);
    if entry.None? || exit.None? {
      return None;
    }
    if !(0 <= entry.value.0 < w && 0 <= entry.value.1 < h) {
      return None;
    }
    if !(0 <= exit.value.0 < w && 0 <= exit.value.1 < h) {
      return None;
    }
    if entry.value == exit.value {
      return None;
    }
    return Some((entry.value, exit.value));
  }

  /**
   * The part of the second `try` block that reads one point, in early-exit form:
   * the value split at its commas, both halves read as integers; a wrong number of
   * parts or a failed `int` returns `None`. It computes `Coordinate`.
   */
  method ReadCoordinate(s: string) returns (c: Option<Cell>)
    ensures c == Coordinate(s)
  {
    var parts := Split(s, ',');
    if |parts| != 2 {
      return None;
    }
    var x := ParseInt(parts[0]);
    var y := ParseInt(parts[1]);
    if x.None? || y.None? {
      return None;
    }
    return Some((x.value, y.value));
  }

  /** `x,y` as a configuration file writes it. */
  function WriteCoordinate(c: Cell): string {
    IntToString(c.0) + "," + IntToString(c.1)
  }

  lemma CoordinateRoundTrip(c: Cell)
    ensures Coordinate(WriteCoordinate(c)) == Some(c)
  {
    var a, b := IntToString(c.0), IntToString(c.1);
    var s := WriteCoordinate(c);
    assert ',' !in a && ',' !in b;
    assert s[..|a|] == a && s[|a|] == ',' && s[|a| + 1..] == b;
    SplitOnce(s, ',', |a|);
    ParseIntToString(c.0);
    ParseIntToString(c.1);
  }

  /** The four mandatory settings as a configuration file would hold them for a maze. */
  function Written(w: int, h: int, entry: Cell, exit: Cell): map<string, string> {
    map["WIDTH" := IntToString(w), "HEIGHT" := IntToString(h),
        "ENTRY" := WriteCoordinate(entry), "EXIT" := WriteCoordinate(exit)]
  }

  /** Settings written out from a valid maze description validate back to that description. */
  lemma ValidateWritten(w: int, h: int, entry: Cell, exit: Cell)
    requires w >= 3 && h >= 3 && InGrid(entry, w, h) && InGrid(exit, w, h) && entry != exit
    ensures FirstMissing(Written(w, h, entry, exit), 0).None?
    ensures Dimensions(Written(w, h, entry, exit)) == Some((w, h))
    ensures Coordinates(Written(w, h, entry, exit), w, h) == Some((entry, exit))
  {
    var raw := Written(w, h, entry, exit);
    assert raw["WIDTH"] == IntToString(w) && raw["HEIGHT"] == IntToString(h);
    assert raw["ENTRY"] == WriteCoordinate(entry) && raw["EXIT"] == WriteCoordinate(exit);
    ParseIntToString(w);
    ParseIntToString(h);
    assert ParseInt(raw["WIDTH"]) == Some(w) && ParseInt(raw["HEIGHT"]) == Some(h);
    CoordinateRoundTrip(entry);
    CoordinateRoundTrip(exit);
    assert Coordinate(raw["ENTRY"]) == Some(entry) && Coordinate(raw["EXIT"]) == Some(exit);
  }

  /** Without PERFECT and OUTPUT_FILE the maze is perfect and goes to `maze.txt`. */
  lemma CleanDefaults(raw: map<string, string>, w: int, h: int, entry: Cell, exit: Cell)
    requires "PERFECT" !in raw && "OUTPUT_FILE" !in raw
    ensures Clean(raw, w, h, entry, exit)["PERFECT"] == Flag(true)
    ensures Clean(raw, w, h, entry, exit)["OUTPUT_FILE"] == Str("maze.txt")
  {
    LowerTrue();
  }

  /** PERFECT is on exactly when its value lowers to `true`. */
  lemma CleanPerfect(raw: map<string, string>, w: int, h: int, entry: Cell, exit: Cell)
    requires "PERFECT" in raw
    ensures Clean(raw, w, h, entry, exit)["PERFECT"] == Flag(Lower(raw["PERFECT"]) == "true")
  {
  }
}
