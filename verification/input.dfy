/**
 * Validated keyboard input. The console is replaced by the sequence of values the
 * program would read: for a number prompt, the outcome of each extraction `cin >> value`
 * in turn; for the name prompt, the lines `getline` returns in turn. When the sequence
 * runs out before a value is accepted the result is None (the program itself would keep
 * prompting).
 */
module SeaInput {
  import opened Seas

  /** The outcome of one extraction of a double from the console. */
  datatype Reading = NotANumber | Number(value: real)

  /** The test SafeInputDouble applies before it returns a value. */
  predicate Accepts(rd: Reading, lo: real, hi: real) {
    rd.Number? && !(rd.value < lo || rd.value > hi)
  }

  /** The value the prompt loop settles on: the first reading it accepts. */
  function FirstAccepted(readings: seq<Reading>, lo: real, hi: real): (r: Option<real>)
    ensures r.Some? ==> lo <= r.value <= hi
    ensures r.Some? ==> exists k :: 0 <= k < |readings| && readings[k] == Number(r.value)
                                    && forall j :: 0 <= j < k ==> !Accepts(readings[j], lo, hi)
    ensures r.None? <==> forall k :: 0 <= k < |readings| ==> !Accepts(readings[k], lo, hi)
  {
    if readings == [] then None
    else if Accepts(readings[0], lo, hi) then Some(readings[0].value)
    else
      var rest := FirstAccepted(readings[1..], lo, hi);
      if rest.Some? then
        var k :| 0 <= k < |readings[1..]| && readings[1..][k] == Number(rest.value)
                 && forall j :: 0 <= j < k ==> !Accepts(readings[1..][j], lo, hi);
        assert readings[k + 1] == Number(rest.value);
        assert forall j :: 0 <= j < k + 1 ==> !Accepts(readings[j], lo, hi) by {
          forall j | 0 < j < k + 1 ensures !Accepts(readings[j], lo, hi) {
            assert readings[j] == readings[1..][j - 1];
          }
        }
        rest
      else
        assert forall k :: 0 < k < |readings| ==> readings[k] == readings[1..][k - 1];
        rest
  }

  /** The prompt loop: reads until a number in [lo, hi] arrives. */
  method SafeInputDouble(readings: seq<Reading>, lo: real, hi: real) returns (r: Option<real>)
    ensures r == FirstAccepted(readings, lo, hi)
    ensures r.Some? ==> lo <= r.value <= hi
  {
    var i := 0;
    while i < |readings|
      invariant i <= |readings|
      invariant FirstAccepted(readings, lo, hi) == FirstAccepted(readings[i..], lo, hi)
    {
      var rd := readings[i];
      if rd.NotANumber? {
        // the stream is cleared and the rest of the line discarded; prompt again
      } else if rd.value < lo || rd.value > hi {
        // out of range; prompt again
      } else {
        return Some(rd.value);
      }
      assert readings[i..][1..] == readings[i + 1..];
      i := i + 1;
    }
    return None;
  }

  /** The first non-empty line: the name loop keeps reading while the line is empty. */
  function FirstNonEmpty(lines: seq<string>): (r: Option<string>)
    ensures r.Some? ==> r.value != []
    ensures r.Some? ==> exists k :: 0 <= k < |lines| && lines[k] == r.value
                                    && forall j :: 0 <= j < k ==> lines[j] == []
    ensures r.None? <==> forall k :: 0 <= k < |lines| ==> lines[k] == []
  {
    if lines == [] then None
    else if lines[0] != [] then Some(lines[0])
    else
      assert forall k :: 0 < k < |lines| ==> lines[k] == lines[1..][k - 1];
      FirstNonEmpty(lines[1..])
  }

  /**
   * Reads one record: a non-empty name, then a depth in [0, 12000], then a salinity in
   * [0, 45]. Each prompt reads from its own sequence of inputs.
   */
  method InputSeaData(nameLines: seq<string>, depthReadings: seq<Reading>, salinityReadings: seq<Reading>)
    returns (r: Option<Sea>)
    ensures r.Some? ==> ValidSea(r.value)
    ensures r.Some? <==> FirstNonEmpty(nameLines).Some?
                         && FirstAccepted(depthReadings, MinDepth, MaxDepth).Some?
                         && FirstAccepted(salinityReadings, MinSalinity, MaxSalinity).Some?
    ensures r.Some? ==> r.value == Sea(FirstNonEmpty(nameLines).value,
                                       FirstAccepted(depthReadings, MinDepth, MaxDepth).value,
                                       FirstAccepted(salinityReadings, MinSalinity, MaxSalinity).value)
  {
    var i := 0;
    while i < |nameLines| && nameLines[i] == []
      invariant i <= |nameLines|
      invariant forall k :: 0 <= k < i ==> nameLines[k] == []
      invariant FirstNonEmpty(nameLines) == FirstNonEmpty(nameLines[i..])
    {
      assert nameLines[i..][1..] == nameLines[i + 1..];
      i := i + 1;
    }
    if i == |nameLines| {
      return None;
    }
    var name := nameLines[i];
    var depth := SafeInputDouble(depthReadings, MinDepth, MaxDepth);
    var salinity := SafeInputDouble(salinityReadings, MinSalinity, MaxSalinity);
    if depth.None? || salinity.None? {
      return None;
    }
    r := Some(Sea(name, depth.value, salinity.value));
  }
}
