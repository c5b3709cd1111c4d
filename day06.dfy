// src/day06.rs: a worksheet of arithmetic problems. Rows of numbers sit
// above one line of operators. Part 1 reads each whitespace-separated column
// as one problem; part 2 reads the digits column by column, each column of
// characters top to bottom giving one number.

module Day06 {
  import opened Base
  import opened Text

  // ---- Operators ----

  datatype Op = Add | Mul
  {
    /** `<usize as Add>::add` or `<usize as Mul>::mul`. */
    function Apply(a: nat, b: nat): nat {
      match this
      case Add => a + b
      case Mul => a * b
    }
  }

  /** The operator token of part 1: `+` or `*`; any other token panics
      ("unknown op"). */
  function ParseOp(token: string): (r: Outcome<Op>)
    ensures r.Ok? <==> token == "+" || token == "*"
    ensures r == Ok(Add) <==> token == "+"
  {
    if token == "+" then Ok(Add) else if token == "*" then Ok(Mul) else Panic
  }

  /** `Iterator::reduce(op)` on a non-empty list: a left fold starting from
      the first element. */
  function Reduce(op: Op, xs: seq<nat>): nat
    requires xs != []
  {
    if |xs| == 1 then xs[0] else op.Apply(Reduce(op, xs[..|xs| - 1]), xs[|xs| - 1])
  }

  /** Reducing with `+` is the sum and with `*` the product. */
  lemma {:induction false} ReduceMeaning(op: Op, xs: seq<nat>)
    requires xs != []
    ensures op == Add ==> Reduce(op, xs) == Sum(xs)
    ensures op == Mul ==> Reduce(op, xs) == Product(xs)
  {
    if |xs| > 1 {
      ReduceMeaning(op, xs[..|xs| - 1]);
    } else {
      assert xs[..0] == [];
    }
  }

  // ---- Splitting the worksheet ----

  /** `line.starts_with(&['*', '+'])`. */
  predicate IsOpLine(line: string) {
    |line| >= 1 && (line[0] == '*' || line[0] == '+')
  }

  /** How many lines `take_while_ref` takes as number rows: those before the
      first line starting with an operator. */
  function NumberRows(lines: seq<string>): (k: nat)
    ensures k <= |lines|
    ensures forall i :: 0 <= i < k ==> !IsOpLine(lines[i])
    ensures k < |lines| ==> IsOpLine(lines[k])
  {
    if lines == [] || IsOpLine(lines[0]) then 0 else 1 + NumberRows(lines[1..])
  }

  /** `parse::<usize>().unwrap()`. */
  function Number(word: string): (r: Outcome<nat>)
    ensures r.Ok? <==> ParseNat(word).Some?
    ensures r.Ok? ==> r.value == ParseNat(word).value
  {
    match ParseNat(word)
    case Some(n) => Ok(n)
    case None => Panic
  }

  /** A number row: `split_ascii_whitespace`, every word parsed. */
  function ParseRow(line: string): Outcome<seq<nat>> {
    AllOk(Words(line, IsAsciiWhitespace), Number)
  }

  // ---- Part 1 ----

  /** Every row has an entry at `col`. */
  predicate Reaches(rows: seq<seq<nat>>, col: nat) {
    forall k :: 0 <= k < |rows| ==> col < |rows[k]|
  }

  /** `numbers.iter().map(|row| row[col])`. */
  function Column(rows: seq<seq<nat>>, col: nat): (r: seq<nat>)
    requires Reaches(rows, col)
    ensures |r| == |rows| && forall k :: 0 <= k < |rows| ==> r[k] == rows[k][col]
  {
    seq(|rows|, k requires 0 <= k < |rows| => rows[k][col])
  }

  /** The problem of column `col`: its numbers reduced with its operator;
      indexing a short row panics, and so does `reduce(..).unwrap()` with
      no rows. */
  function ColumnValue(rows: seq<seq<nat>>, col: nat, op: Op): (r: Outcome<nat>)
    ensures r.Ok? <==> rows != [] && Reaches(rows, col)
    ensures r.Ok? && op == Add ==> r.value == Sum(Column(rows, col))
    ensures r.Ok? && op == Mul ==> r.value == Product(Column(rows, col))
  {
    if rows == [] || !Reaches(rows, col) then Panic
    else
      ReduceMeaning(op, Column(rows, col));
      Ok(Reduce(op, Column(rows, col)))
  }

  /** `ops.enumerate()`: each operator with its column. */
  function Enumerate<T>(xs: seq<T>): (r: seq<(nat, T)>)
    ensures |r| == |xs| && forall k :: 0 <= k < |xs| ==> r[k] == (k, xs[k])
  {
    seq(|xs|, k requires 0 <= k < |xs| => (k, xs[k]))
  }

  /** The value of every column that has an operator. */
  function ColumnValues(rows: seq<seq<nat>>, ops: seq<Op>): (r: Outcome<seq<nat>>)
    ensures r.Ok? ==> |r.value| == |ops| && forall c :: 0 <= c < |ops| ==>
      ColumnValue(rows, c, ops[c]).Ok? && r.value[c] == ColumnValue(rows, c, ops[c]).value
  {
    var f := (p: (nat, Op)) => ColumnValue(rows, p.0, p.1);
    var e := Enumerate(ops);
    var r := AllOk(e, f);
    if r.Ok? then
      assert forall c :: 0 <= c < |ops| ==> f(e[c]) == ColumnValue(rows, c, ops[c]);
      r
    else r
  }

  /** The columns panic exactly when there is an operator and either no
      number row or a row with fewer numbers than operators. */
  lemma ColumnValuesPanic(rows: seq<seq<nat>>, ops: seq<Op>)
    ensures ColumnValues(rows, ops).Panic? <==> ops != [] && (rows == [] || !Reaches(rows, |ops| - 1))
  {
    var f := (p: (nat, Op)) => ColumnValue(rows, p.0, p.1);
    var e := Enumerate(ops);
    if ops != [] && (rows == [] || !Reaches(rows, |ops| - 1)) {
      assert f(e[|ops| - 1]).Panic?;
    }
    if ColumnValues(rows, ops).Panic? {
      var k :| 0 <= k < |e| && f(e[k]).Panic?;
    }
  }

  /** `part1`: the number rows, the operator line after them
      (`next().unwrap()` panics without one), and the sum of the column
      values, each column's numbers reduced with its operator. */
  function Part1(input: string): (r: Outcome<nat>)
    ensures var lines := Lines(input); var k := NumberRows(lines);
      r.Ok? <==> (k < |lines| && AllOk(lines[..k], ParseRow).Ok?
        && AllOk(Words(lines[k], IsAsciiWhitespace), ParseOp).Ok?
        && ColumnValues(AllOk(lines[..k], ParseRow).value, AllOk(Words(lines[k], IsAsciiWhitespace), ParseOp).value).Ok?)
    ensures var lines := Lines(input); var k := NumberRows(lines);
      r.Ok? ==> (var rows := AllOk(lines[..k], ParseRow).value;
        var ops := AllOk(Words(lines[k], IsAsciiWhitespace), ParseOp).value;
        var values := ColumnValues(rows, ops).value;
        |values| == |ops| && r.value == Sum(values)
        && forall c :: 0 <= c < |ops| ==> values[c] == ColumnValue(rows, c, ops[c]).value)
  {
    var lines := Lines(input);
    var k := NumberRows(lines);
    if k == |lines| then Panic
    else
      match (AllOk(lines[..k], ParseRow), AllOk(Words(lines[k], IsAsciiWhitespace), ParseOp))
      case (Ok(rows), Ok(ops)) =>
        (match ColumnValues(rows, ops)
         case Ok(values) => Ok(Sum(values))
         case Panic => Panic)
      case _ => Panic
  }

  // ---- Part 2 ----

  /** The operator characters of the operator line with their positions
      (`chars().enumerate().filter_map(..)`), left to right. */
  function OpPositions(line: string): (r: seq<(nat, Op)>)
    ensures forall k :: 0 <= k < |r| ==> r[k].0 < |line| && line[r[k].0] == (if r[k].1 == Add then '+' else '*')
    ensures forall i, j :: 0 <= i < j < |r| ==> r[i].0 < r[j].0
    ensures forall p :: 0 <= p < |line| && (line[p] == '+' || line[p] == '*') ==> exists k :: 0 <= k < |r| && r[k].0 == p
  {
    if line == [] then []
    else
      var n := |line| - 1;
      var front := OpPositions(line[..n]);
      var c := line[n];
      var r := if c == '+' then front + [(n, Add)] else if c == '*' then front + [(n, Mul)] else front;
      assert forall k :: 0 <= k < |front| ==> r[k] == front[k];
      assert forall p :: 0 <= p < n ==> line[..n][p] == line[p];
      assert c == '+' || c == '*' ==> r[|front|].0 == n;
      r
  }

  /** The characters of column `col` top to bottom as one string
      (`String::from_utf8` over `row[col]`); a row too short panics. */
  function ColumnText(rows: seq<string>, col: nat): (r: Outcome<string>)
    ensures r.Ok? <==> forall k :: 0 <= k < |rows| ==> col < |rows[k]|
    ensures r.Ok? ==> |r.value| == |rows| && forall k :: 0 <= k < |rows| ==> r.value[k] == rows[k][col]
  {
    if forall k :: 0 <= k < |rows| ==> col < |rows[k]| then Ok(seq(|rows|, k requires 0 <= k < |rows| => rows[k][col]))
    else Panic
  }

  /** A column of nothing but whitespace. */
  predicate Blank(text: string) {
    forall k :: 0 <= k < |text| ==> IsWhitespace(text[k])
  }

  /** `trim().is_empty()` holds exactly for a blank column. */
  lemma TrimEmpty(text: string)
    ensures Trim(text) == [] <==> Blank(text)
  {
  }

  /** `(col..width).map(ColumnText).take_while(|c| !c.trim().is_empty())`:
      the columns from `col` rightwards up to the first blank one or the
      width. A column is only read when the previous ones were not blank. */
  function TakeColumns(rows: seq<string>, col: nat, width: nat): Outcome<seq<string>>
    decreases width - col
  {
    if col >= width then Ok([])
    else
      match ColumnText(rows, col)
      case Panic => Panic
      case Ok(text) =>
        if Blank(text) then Ok([])
        else
          match TakeColumns(rows, col + 1, width)
          case Panic => Panic
          case Ok(rest) => Ok([text] + rest)
  }

  /** The columns read are the consecutive non-blank columns from `col`, no
      further than the width. */
  lemma {:induction false} TakeColumnsMeaning(rows: seq<string>, col: nat, width: nat)
    requires TakeColumns(rows, col, width).Ok?
    ensures var r := TakeColumns(rows, col, width).value;
      col + |r| <= Max(col, width)
      && (forall i :: 0 <= i < |r| ==> ColumnText(rows, col + i) == Ok(r[i]) && !Blank(r[i]))
    decreases width - col
  {
    var r := TakeColumns(rows, col, width).value;
    if col < width {
      var text := ColumnText(rows, col).value;
      if !Blank(text) {
        TakeColumnsMeaning(rows, col + 1, width);
        var rest := TakeColumns(rows, col + 1, width).value;
        assert r == [text] + rest;
        forall i | 1 <= i < |r| ensures ColumnText(rows, col + i) == Ok(r[i]) && !Blank(r[i]) {
          assert r[i] == rest[i - 1];
          assert col + i == (col + 1) + (i - 1);
        }
      }
    }
  }

  /** Reading stops before the width only at a blank column. */
  lemma {:induction false} TakeColumnsStop(rows: seq<string>, col: nat, width: nat)
    requires TakeColumns(rows, col, width).Ok?
    ensures var n := col + |TakeColumns(rows, col, width).value|;
      n < width ==> ColumnText(rows, n).Ok? && Blank(ColumnText(rows, n).value)
    decreases width - col
  {
    if col < width {
      var text := ColumnText(rows, col).value;
      if !Blank(text) {
        TakeColumnsStop(rows, col + 1, width);
        var rest := TakeColumns(rows, col + 1, width).value;
        assert TakeColumns(rows, col, width).value == [text] + rest;
      }
    }
  }

  /** With every row as wide as `width`, reading columns never panics. */
  lemma {:induction false} TakeColumnsWide(rows: seq<string>, col: nat, width: nat)
    requires forall k :: 0 <= k < |rows| ==> width <= |rows[k]|
    ensures TakeColumns(rows, col, width).Ok?
    decreases width - col
  {
    if col < width {
      TakeColumnsWide(rows, col + 1, width);
    }
  }

  /** Trim every string. */
  function TrimAll(texts: seq<string>): (r: seq<string>)
    ensures |r| == |texts| && forall k :: 0 <= k < |texts| ==> r[k] == Trim(texts[k])
  {
    seq(|texts|, k requires 0 <= k < |texts| => Trim(texts[k]))
  }

  /** One problem of part 2: the columns from the operator's position, each
      trimmed and parsed as a number, reduced with the operator; a column
      that is not a number after trimming panics, and so does a problem with
      no column at all. */
  function Problem(rows: seq<string>, col: nat, op: Op, width: nat): (r: Outcome<nat>)
    ensures r.Ok? ==> TakeColumns(rows, col, width).Ok? && |TakeColumns(rows, col, width).value| > 0
    ensures r.Ok? ==> var numbers := AllOk(TrimAll(TakeColumns(rows, col, width).value), Number);
      numbers.Ok? && r.value == Reduce(op, numbers.value)
  {
    match TakeColumns(rows, col, width)
    case Panic => Panic
    case Ok(columns) =>
      match AllOk(TrimAll(columns), Number)
      case Panic => Panic
      case Ok(numbers) => if numbers == [] then Panic else Ok(Reduce(op, numbers))
  }

  /** The value of every problem, one per operator character. */
  function ProblemValues(rows: seq<string>, ops: seq<(nat, Op)>, width: nat): (r: Outcome<seq<nat>>)
    ensures r.Ok? ==> |r.value| == |ops| && forall i :: 0 <= i < |ops| ==>
      Problem(rows, ops[i].0, ops[i].1, width).Ok? && r.value[i] == Problem(rows, ops[i].0, ops[i].1, width).value
  {
    var f := (p: (nat, Op)) => Problem(rows, p.0, p.1, width);
    var r := AllOk(ops, f);
    if r.Ok? then
      assert forall i :: 0 <= i < |ops| ==> f(ops[i]) == Problem(rows, ops[i].0, ops[i].1, width);
      r
    else r
  }

  /** `part2`: the number rows are kept as text, the width is the first
      row's (`first().unwrap()` panics without rows), each operator
      character starts one problem, and the answer is the sum of the
      problems' values. */
  function Part2(input: string): (r: Outcome<nat>)
    ensures var lines := Lines(input); var k := NumberRows(lines);
      r.Ok? <==> 0 < k < |lines| && ProblemValues(lines[..k], OpPositions(lines[k]), |lines[0]|).Ok?
    ensures var lines := Lines(input); var k := NumberRows(lines);
      r.Ok? ==> (var ops := OpPositions(lines[k]);
        var values := ProblemValues(lines[..k], ops, |lines[0]|).value;
        |values| == |ops| && r.value == Sum(values)
        && forall i :: 0 <= i < |ops| ==> values[i] == Problem(lines[..k], ops[i].0, ops[i].1, |lines[0]|).value)
  {
    var lines := Lines(input);
    var k := NumberRows(lines);
    if k == |lines| || k == 0 then Panic
    else
      match ProblemValues(lines[..k], OpPositions(lines[k]), |lines[0]|)
      case Ok(values) => Ok(Sum(values))
      case Panic => Panic
  }
}
