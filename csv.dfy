/**
 * How `LinearRegression::loadCoefficients` reads the model file: after one
 * header line, every line is cut at its first comma; the text before it
 * names a feature and `std::stoi` reads the weight from the text after it.
 * Rows are inserted in order into the existing coefficient map, so a later
 * row replaces an earlier one with the same name, and a row that `std::stoi`
 * rejects ends the load with an exception after the rows before it have
 * been stored.
 */
module Csv {
  import opened Wrappers
  import opened Cpp
  import opened Numerals

  /** One parsed line: a feature name and its weight as stored (`uint64_t`). */
  datatype Row = Row(name: string, weight: UInt64)

  /** The state after reading some rows: the coefficient map, and the exception that stopped the load if any. */
  datatype LoadState = LoadState(coefficients: map<string, UInt64>, error: Option<CppException>)

  /** Index of the first comma in `line`, or `|line|` when there is none. */
  function FirstComma(line: string): (i: nat)
    ensures i <= |line|
    ensures ',' !in line[..i]
    ensures i < |line| ==> line[i] == ','
  {
    if line == [] then 0
    else if line[0] == ',' then 0
    else
      var i := 1 + FirstComma(line[1..]);
      assert line[..i] == [line[0]] + line[1..][..i - 1];
      i
  }

  /**
   * One data row: the name is the text before the first comma
   * (`getline(ss, featureName, ',')`), the weight is what `std::stoi` reads
   * from the rest of the line (`getline(ss, coefficientStr)`), cast to
   * `uint64_t`. A line without a comma leaves the weight text empty.
   */
  function ParseRow(line: string): (r: Result<Row, CppException>)
    ensures r.Success? ==> r.value.name + [','] <= line && ',' !in r.value.name
    ensures ',' !in line ==> r == Failure(InvalidArgument)
  {
    var i := FirstComma(line);
    var name := line[..i];
    var weightText := if i < |line| then line[i + 1..] else "";
    assert i < |line| ==> name + [','] == line[..i + 1];
    assert i == |line| ==> Stoi(weightText, 10) == Failure(InvalidArgument);
    match Stoi(weightText, 10)
    case Failure(e) => Failure(e)
    case Success(n) => Success(Row(name, ToUInt64(n)))
  }

  /** A line with a comma-free name before its first comma parses as that name and what `std::stoi` reads after it. */
  lemma ParseRowAfterName(name: string, text: string)
    requires ',' !in name
    ensures ParseRow(name + "," + text) ==
      match Stoi(text, 10)
      case Failure(e) => Failure(e)
      case Success(n) => Success(Row(name, ToUInt64(n)))
  {
    var line := name + "," + text;
    FirstCommaAfter(name, text);
    assert line[..|name|] == name;
    assert line[|name| + 1..] == text;
  }

  /** A row written as a name, a comma and the decimal text of an `int` reads back as that name and weight. */
  lemma ParseRowOfDecimal(name: string, weight: Int32, rest: string)
    requires ',' !in name
    requires weight >= 0
    requires rest == [] || !IsDigitIn(rest[0], 10)
    ensures ParseRow(name + "," + DecimalString(weight) + rest) == Success(Row(name, weight))
  {
    assert name + "," + DecimalString(weight) + rest == name + "," + (Numeral(weight, 10) + rest);
    ParseRowAfterName(name, Numeral(weight, 10) + rest);
    StoiIgnoresSuffix(weight, rest);
  }

  /** A row of a negative `int` weight is stored as its `uint64_t` image, weight + 2^64. */
  lemma ParseRowOfNegative(name: string, weight: Int32)
    requires ',' !in name
    requires weight < 0
    ensures ParseRow(name + "," + DecimalString(weight)) == Success(Row(name, weight + TwoTo64))
  {
    ParseRowAfterName(name, DecimalString(weight));
    StoiDecimal(weight);
    ToUInt64OfNegative(weight);
  }

  /**
   * A weight whose text, after white space and one optional sign, does not
   * start with a decimal digit makes `std::stoi` throw
   * `std::invalid_argument`: the row is rejected.
   */
  lemma ParseRowRejectsNonNumeric(name: string, text: string)
    requires ',' !in name
    requires var t := SkipSpace(text);
      var unsigned := if t != [] && (t[0] == '-' || t[0] == '+') then t[1..] else t;
      unsigned == [] || !IsDigitIn(unsigned[0], 10)
    ensures ParseRow(name + "," + text) == Failure(InvalidArgument)
  {
    ParseRowAfterName(name, text);
  }

  /** A weight too large for an `int` makes `std::stoi` throw `std::out_of_range`: the row is rejected. */
  lemma ParseRowRejectsTooLarge(name: string, weight: nat)
    requires ',' !in name
    requires weight > Int32Max
    ensures ParseRow(name + "," + Numeral(weight, 10)) == Failure(OutOfRange)
  {
    ParseRowAfterName(name, Numeral(weight, 10));
    StoiTooLarge(weight);
  }

  lemma {:induction false} FirstCommaAfter(name: string, rest: string)
    requires ',' !in name
    ensures FirstComma(name + [','] + rest) == |name|
    ensures FirstComma(name + "," + rest) == |name|
    decreases |name|
  {
    assert name + "," + rest == name + [','] + rest;
    if name != [] {
      assert (name + [','] + rest)[1..] == name[1..] + [','] + rest;
      FirstCommaAfter(name[1..], rest);
    }
  }

  /** The data rows of a file: every line after the header. */
  function DataRows(lines: seq<string>): (rows: seq<string>)
    ensures lines != [] ==> rows == lines[1..]
    ensures |rows| == if lines == [] then 0 else |lines| - 1
  {
    if lines == [] then [] else lines[1..]
  }

  /** Every line as `ParseRow` reads it. */
  function ParseRows(lines: seq<string>): (parsed: seq<Result<Row, CppException>>)
    ensures |parsed| == |lines|
    ensures forall i :: 0 <= i < |lines| ==> parsed[i] == ParseRow(lines[i])
  {
    seq(|lines|, i requires 0 <= i < |lines| => ParseRow(lines[i]))
  }

  /**
   * Storing parsed rows in order into the map `m`: each accepted row sets
   * its name to its weight, and the first rejected row stops the load with
   * its exception, keeping what was stored before it.
   */
  function Store(m: map<string, UInt64>, parsed: seq<Result<Row, CppException>>): LoadState
    decreases |parsed|
  {
    if parsed == [] then LoadState(m, None)
    else match parsed[0]
      case Failure(e) => LoadState(m, Some(e))
      case Success(row) => Store(m[row.name := row.weight], parsed[1..])
  }

  /** Reading the data rows `rows` of a file into the map `m`. */
  function LoadRows(m: map<string, UInt64>, rows: seq<string>): LoadState {
    Store(m, ParseRows(rows))
  }

  /** The load succeeds exactly when every row is accepted. */
  lemma {:induction false} StoreSucceeds(m: map<string, UInt64>, parsed: seq<Result<Row, CppException>>)
    ensures Store(m, parsed).error.None? <==> forall i :: 0 <= i < |parsed| ==> parsed[i].Success?
    decreases |parsed|
  {
    if parsed != [] && parsed[0].Success? {
      var row := parsed[0].value;
      StoreSucceeds(m[row.name := row.weight], parsed[1..]);
      assert forall i :: 1 <= i < |parsed| ==> parsed[i] == parsed[1..][i - 1];
    }
  }

  /** Index of the first rejected row, or `|parsed|` when every row is accepted. */
  function FirstRejected(parsed: seq<Result<Row, CppException>>): (i: nat)
    ensures i <= |parsed|
    ensures forall j :: 0 <= j < i ==> parsed[j].Success?
    ensures i < |parsed| ==> parsed[i].Failure?
  {
    if parsed == [] || parsed[0].Failure? then 0
    else
      var i := 1 + FirstRejected(parsed[1..]);
      assert forall j :: 1 <= j <= i && j < |parsed| ==> parsed[j] == parsed[1..][j - 1];
      i
  }

  /**
   * A load fails exactly when some row is rejected; it then reports the
   * exception of the first rejected row and keeps every row before it.
   */
  lemma {:induction false} StoreStopsAtFirstError(m: map<string, UInt64>, parsed: seq<Result<Row, CppException>>)
    ensures Store(m, parsed).error.Some? <==> FirstRejected(parsed) < |parsed|
    ensures Store(m, parsed).error.Some? ==>
      var i := FirstRejected(parsed);
      && parsed[i] == Failure(Store(m, parsed).error.value)
      && Store(m, parsed[..i]) == LoadState(Store(m, parsed).coefficients, None)
    decreases |parsed|
  {
    if parsed == [] {
    } else {
      match parsed[0]
      case Failure(e) => {
        assert parsed[..0] == [];
      }
      case Success(row) => {
        var m' := m[row.name := row.weight];
        StoreStopsAtFirstError(m', parsed[1..]);
        var i := FirstRejected(parsed[1..]);
        assert FirstRejected(parsed) == i + 1;
        if i < |parsed[1..]| {
          assert parsed[..i + 1][1..] == parsed[1..][..i];
          assert parsed[i + 1] == parsed[1..][i];
        }
      }
    }
  }

  /** A name that no accepted row carries keeps whatever the map held before. */
  lemma {:induction false} StoreKeepsUnnamed(m: map<string, UInt64>, parsed: seq<Result<Row, CppException>>, name: string)
    requires forall i :: 0 <= i < |parsed| && parsed[i].Success? ==> parsed[i].value.name != name
    ensures name in Store(m, parsed).coefficients <==> name in m
    ensures name in m ==> Store(m, parsed).coefficients[name] == m[name]
    decreases |parsed|
  {
    if parsed != [] && parsed[0].Success? {
      var row := parsed[0].value;
      assert forall i :: 1 <= i < |parsed| ==> parsed[i] == parsed[1..][i - 1];
      StoreKeepsUnnamed(m[row.name := row.weight], parsed[1..], name);
    }
  }

  /** After a complete load, each name holds the weight of the last row that carries it. */
  lemma {:induction false} StoreLastWins(m: map<string, UInt64>, parsed: seq<Result<Row, CppException>>, i: nat)
    requires Store(m, parsed).error.None?
    requires i < |parsed| && parsed[i].Success?
    requires forall j :: i < j < |parsed| && parsed[j].Success? ==> parsed[j].value.name != parsed[i].value.name
    ensures parsed[i].value.name in Store(m, parsed).coefficients
    ensures Store(m, parsed).coefficients[parsed[i].value.name] == parsed[i].value.weight
    decreases |parsed|
  {
    var first := parsed[0].value;
    var m' := m[first.name := first.weight];
    assert forall j :: 1 <= j < |parsed| ==> parsed[j] == parsed[1..][j - 1];
    if i == 0 {
      StoreKeepsUnnamed(m', parsed[1..], first.name);
    } else {
      StoreLastWins(m', parsed[1..], i - 1);
    }
  }

  /** The names after a complete load: the names already present and those of the rows. */
  lemma {:induction false} StoreNames(m: map<string, UInt64>, parsed: seq<Result<Row, CppException>>)
    requires Store(m, parsed).error.None?
    ensures forall name :: name in Store(m, parsed).coefficients <==>
      name in m || exists i :: 0 <= i < |parsed| && parsed[i].Success? && parsed[i].value.name == name
    decreases |parsed|
  {
    if parsed != [] {
      var first := parsed[0].value;
      var m' := m[first.name := first.weight];
      StoreNames(m', parsed[1..]);
      assert forall j :: 1 <= j < |parsed| ==> parsed[j] == parsed[1..][j - 1];
      forall name | name in Store(m, parsed).coefficients
        ensures name in m || exists i :: 0 <= i < |parsed| && parsed[i].Success? && parsed[i].value.name == name
      {
        if name !in m' {
          var i :| 0 <= i < |parsed[1..]| && parsed[1..][i].Success? && parsed[1..][i].value.name == name;
          assert parsed[i + 1] == parsed[1..][i];
        }
      }
      forall name | exists i :: 0 <= i < |parsed| && parsed[i].Success? && parsed[i].value.name == name
        ensures name in Store(m, parsed).coefficients
      {
        var i :| 0 <= i < |parsed| && parsed[i].Success? && parsed[i].value.name == name;
        if i > 0 {
          assert parsed[1..][i - 1] == parsed[i];
        }
      }
    }
  }
}
