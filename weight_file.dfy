/**
 * The text format of the weight file of SnakeAI/NeuralNetwork.cs, as
 * functions over lines. The first line lists the layer sizes, as in
 * `{7,12,3}`. Then, for each weight matrix, there is one line per row of
 * space-terminated weight texts, and a line `#` ends the matrix. Weight
 * values stay text: a weight is an opaque token that starts with a digit
 * or '-' and holds no space.
 */
module WeightFile {
  import opened Wrappers

  /** `int.MaxValue`: `int.Parse` overflows above it. */
  const IntMax := 2147483647

  /** How `WeightsFromFile` can fail, each an exception in the source. */
  datatype ReadError =
    | EmptyFile        // `lines[0]` of an empty file
    | NoLayerSizes     // `new float[-1][,]` when the header holds no number
    | Overflow         // `int.Parse` of a size above `int.MaxValue`
    | IndexOutOfRange  // a weight or a `#` beyond the allocated matrices
    | AssertFailed     // a `Trace.Assert` on the row or column count

  predicate IsDigit(c: char) {
    '0' <= c <= '9'
  }

  predicate AllDigits(s: string) {
    forall i :: 0 <= i < |s| ==> IsDigit(s[i])
  }

  // ---- numbers -----------------------------------------------------------

  function Digit(d: nat): (c: char)
    requires d < 10
    ensures IsDigit(c)
  {
    ('0' as int + d) as char
  }

  /** Decimal text of `n`, as `StringBuilder.Append(int)` writes it. */
  function NatToString(n: nat): (s: string)
    ensures |s| > 0 && AllDigits(s)
  {
    if n < 10 then [Digit(n)] else NatToString(n / 10) + [Digit(n % 10)]
  }

  /** The value of a run of decimal digits, as `int.Parse` reads it. */
  function DigitsValue(s: string): nat
    requires AllDigits(s)
  {
    if s == [] then 0 else DigitsValue(s[..|s| - 1]) * 10 + ((s[|s| - 1] as int) - ('0' as int))
  }

  lemma {:induction false} NatToStringRoundTrip(n: nat)
    ensures DigitsValue(NatToString(n)) == n
  {
    if n >= 10 {
      NatToStringRoundTrip(n / 10);
      var s := NatToString(n);
      assert s[..|s| - 1] == NatToString(n / 10);
    }
  }

  // ---- the header line ---------------------------------------------------

  /** Length of the run of digits that starts `s`. */
  function DigitRunLength(s: string): (n: nat)
    ensures n <= |s|
    ensures forall i :: 0 <= i < n ==> IsDigit(s[i])
    ensures n < |s| ==> !IsDigit(s[n])
  {
    if s == [] || !IsDigit(s[0]) then 0 else 1 + DigitRunLength(s[1..])
  }

  /** The digit runs of the header, scanned as `WeightsFromFile` does
      (NeuralNetwork.cs:123-144): after a run the scan resumes one past the
      character that ended it. */
  function DigitRuns(s: string): (runs: seq<string>)
    ensures forall i :: 0 <= i < |runs| ==> |runs[i]| > 0 && AllDigits(runs[i])
    decreases |s|
  {
    if s == [] then []
    else if IsDigit(s[0]) then
      var n := DigitRunLength(s);
      [s[..n]] + (if n < |s| then DigitRuns(s[n + 1..]) else [])
    else DigitRuns(s[1..])
  }

  /** `int.Parse` of every run, in order. */
  function ParseNumbers(runs: seq<string>): (r: Result<seq<int>, ReadError>)
    requires forall i :: 0 <= i < |runs| ==> AllDigits(runs[i])
    ensures r.Success? ==> |r.value| == |runs| && forall i :: 0 <= i < |runs| ==> 0 <= r.value[i] <= IntMax
    ensures r.Failure? ==> r.error == Overflow
  {
    if runs == [] then Success([])
    else
      var v := DigitsValue(runs[0]);
      if v > IntMax then Failure(Overflow)
      else
        var rest :- ParseNumbers(runs[1..]);
        Success([v] + rest)
  }

  /** The layer sizes read from the first line. */
  function ParseHeader(line: string): (r: Result<seq<int>, ReadError>)
    ensures r.Success? ==> |r.value| == |DigitRuns(line)|
    ensures r.Success? ==> forall i :: 0 <= i < |r.value| ==> 0 <= r.value[i] <= IntMax
    ensures r.Failure? ==> r.error == Overflow
  {
    ParseNumbers(DigitRuns(line))
  }

  /** Each size followed by a comma. */
  function SizeList(sizes: seq<int>): string
    requires forall i :: 0 <= i < |sizes| ==> sizes[i] >= 0
  {
    if sizes == [] then "" else NatToString(sizes[0]) + "," + SizeList(sizes[1..])
  }

  /** The header `WeightsToFile` writes (NeuralNetwork.cs:201-209): `{`, each
      layer's input count and a comma, the last output count, `}`. */
  function HeaderText(sizes: seq<int>): (h: string)
    requires |sizes| >= 1 && forall i :: 0 <= i < |sizes| ==> sizes[i] >= 0
    ensures |h| >= 3 && h[0] == '{' && h[|h| - 1] == '}'
  {
    "{" + SizeList(sizes[..|sizes| - 1]) + NatToString(sizes[|sizes| - 1]) + "}"
  }

  lemma {:induction false} SizeListSnoc(sizes: seq<int>, n: int)
    requires n >= 0 && forall i :: 0 <= i < |sizes| ==> sizes[i] >= 0
    ensures SizeList(sizes + [n]) == SizeList(sizes) + NatToString(n) + ","
  {
    if sizes != [] {
      assert (sizes + [n])[1..] == sizes[1..] + [n];
      SizeListSnoc(sizes[1..], n);
    }
  }

  lemma {:induction false} RunLengthOfDigitsThenOther(d: string, rest: string)
    requires AllDigits(d) && rest != [] && !IsDigit(rest[0])
    ensures DigitRunLength(d + rest) == |d|
  {
    if d != [] {
      assert (d + rest)[1..] == d[1..] + rest;
      RunLengthOfDigitsThenOther(d[1..], rest);
    }
  }

  /** A run ended by a non-digit is scanned as one number, and the scan goes
      on after the separator. */
  lemma {:induction false} RunsOfDigitsThenSeparator(d: string, c: char, rest: string)
    requires |d| > 0 && AllDigits(d) && !IsDigit(c)
    ensures DigitRuns(d + [c] + rest) == [d] + DigitRuns(rest)
  {
    var s := d + [c] + rest;
    RunLengthOfDigitsThenOther(d, [c] + rest);
    assert d + [c] + rest == d + ([c] + rest);
    assert s[..|d|] == d && s[|d| + 1..] == rest;
  }

  /** The decimal text of each size. */
  function Texts(sizes: seq<int>): (ts: seq<string>)
    requires forall i :: 0 <= i < |sizes| ==> sizes[i] >= 0
    ensures |ts| == |sizes| && forall i :: 0 <= i < |ts| ==> AllDigits(ts[i])
  {
    if sizes == [] then [] else [NatToString(sizes[0])] + Texts(sizes[1..])
  }

  lemma {:induction false} RunsOfSizeList(sizes: seq<int>, last: int)
    requires last >= 0 && forall i :: 0 <= i < |sizes| ==> sizes[i] >= 0
    ensures DigitRuns(SizeList(sizes) + NatToString(last) + "}") == Texts(sizes + [last])
  {
    if sizes == [] {
      RunsOfDigitsThenSeparator(NatToString(last), '}', "");
      assert SizeList(sizes) + NatToString(last) + "}" == NatToString(last) + ['}'] + "";
      assert sizes + [last] == [last];
      assert Texts([last]) == [NatToString(last)] + Texts([]);
    } else {
      var d, tail, n := NatToString(sizes[0]), SizeList(sizes[1..]), NatToString(last);
      var rest := tail + n + "}";
      assert SizeList(sizes) == d + "," + tail;
      Regroup(d, tail, n);
      RunsOfDigitsThenSeparator(d, ',', rest);
      RunsOfSizeList(sizes[1..], last);
      assert (sizes + [last])[1..] == sizes[1..] + [last];
    }
  }

  /** The comma after the first size separates it from the rest of the header. */
  lemma Regroup(d: string, tail: string, n: string)
    ensures d + "," + tail + n + "}" == d + [','] + (tail + n + "}")
  {
    assert "," == [','];
  }

  lemma {:induction false} ParseNumbersOfTexts(sizes: seq<int>)
    requires forall i :: 0 <= i < |sizes| ==> 0 <= sizes[i] <= IntMax
    ensures ParseNumbers(Texts(sizes)) == Success(sizes)
  {
    if sizes != [] {
      NatToStringRoundTrip(sizes[0]);
      ParseNumbersOfTexts(sizes[1..]);
      assert Texts(sizes)[1..] == Texts(sizes[1..]);
      assert [sizes[0]] + sizes[1..] == sizes;
    }
  }

  /** Reading the written header gives back the layer sizes. */
  lemma {:induction false} HeaderRoundTrip(sizes: seq<int>)
    requires |sizes| >= 1 && forall i :: 0 <= i < |sizes| ==> 0 <= sizes[i] <= IntMax
    ensures ParseHeader(HeaderText(sizes)) == Success(sizes)
  {
    HeaderRuns(sizes);
    ParseNumbersOfTexts(sizes);
  }

  /** The digit runs of a written header are the decimal texts of the sizes. */
  lemma {:induction false} HeaderRuns(sizes: seq<int>)
    requires |sizes| >= 1 && forall i :: 0 <= i < |sizes| ==> sizes[i] >= 0
    ensures DigitRuns(HeaderText(sizes)) == Texts(sizes)
  {
    var front, last := sizes[..|sizes| - 1], sizes[|sizes| - 1];
    var body := SizeList(front) + NatToString(last) + "}";
    HeaderRegroup(SizeList(front), NatToString(last));
    RunsSkipNonDigit('{', body);
    RunsOfSizeList(front, last);
    FrontAndLast(sizes);
  }

  lemma FrontAndLast(s: seq<int>)
    requires |s| >= 1
    ensures s[..|s| - 1] + [s[|s| - 1]] == s
  {
  }

  /** The opening brace comes before the rest of the header. */
  lemma HeaderRegroup(list: string, last: string)
    ensures "{" + list + last + "}" == ['{'] + (list + last + "}")
  {
    assert "{" == ['{'];
  }

  /** A leading non-digit is skipped by the header scan. */
  lemma RunsSkipNonDigit(c: char, s: string)
    requires !IsDigit(c)
    ensures DigitRuns([c] + s) == DigitRuns(s)
  {
    assert ([c] + s)[1..] == s;
  }

  // ---- rows of weights ---------------------------------------------------

  predicate StartsToken(c: char) {
    IsDigit(c) || c == '-'
  }

  /** What `WeightsToFile` writes for one weight and what the reader accepts
      back whole: it starts a token and holds no space. */
  predicate WellFormedToken(t: string) {
    |t| > 0 && StartsToken(t[0]) && forall i :: 0 <= i < |t| ==> t[i] != ' '
  }

  /** Length of the space-free prefix of `s`. */
  function SpaceFreeLength(s: string): (n: nat)
    ensures n <= |s|
    ensures forall i :: 0 <= i < n ==> s[i] != ' '
    ensures n < |s| ==> s[n] == ' '
  {
    if s == [] || s[0] == ' ' then 0 else 1 + SpaceFreeLength(s[1..])
  }

  /** The weight texts of a row line (NeuralNetwork.cs:167-188): a token
      starts at a digit or '-' and runs up to the next space, which is
      skipped; any other character outside a token is skipped. */
  function Tokens(s: string): (ts: seq<string>)
    ensures forall i :: 0 <= i < |ts| ==> WellFormedToken(ts[i])
    decreases |s|
  {
    if s == [] then []
    else if StartsToken(s[0]) then
      var k := 1 + SpaceFreeLength(s[1..]);
      [s[..k]] + (if k < |s| then Tokens(s[k + 1..]) else [])
    else Tokens(s[1..])
  }

  /** A row line as `WeightsToFile` writes it: every weight text followed by a
      space (NeuralNetwork.cs:216-220). */
  function RowText(ts: seq<string>): (t: string)
    ensures t == [] <==> ts == []
    ensures t != [] ==> t[|t| - 1] == ' '
  {
    if ts == [] then "" else ts[0] + " " + RowText(ts[1..])
  }

  lemma {:induction false} RowTextSnoc(ts: seq<string>, t: string)
    ensures RowText(ts + [t]) == RowText(ts) + t + " "
  {
    if ts != [] {
      assert (ts + [t])[1..] == ts[1..] + [t];
      RowTextSnoc(ts[1..], t);
    }
  }

  /** Reading a written row gives back its weight texts. */
  lemma {:induction false} RowRoundTrip(ts: seq<string>)
    requires forall i :: 0 <= i < |ts| ==> WellFormedToken(ts[i])
    ensures Tokens(RowText(ts)) == ts
  {
    if ts != [] {
      TokenThenSpace(ts[0], RowText(ts[1..]));
      RowRoundTrip(ts[1..]);
    }
  }

  /** A well-formed token followed by a space reads as that token, and the
      scan resumes after the space. */
  lemma TokenThenSpace(t: string, rest: string)
    requires WellFormedToken(t)
    ensures Tokens(t + " " + rest) == [t] + Tokens(rest)
  {
    var s := t + " " + rest;
    assert s[1..] == t[1..] + (" " + rest);
    SpaceFreeOfToken(t[1..], " " + rest);
    assert s[..|t|] == t && s[|t| + 1..] == rest;
  }

  lemma {:induction false} SpaceFreeOfToken(t: string, rest: string)
    requires forall i :: 0 <= i < |t| ==> t[i] != ' '
    requires rest != [] && rest[0] == ' '
    ensures SpaceFreeLength(t + rest) == |t|
  {
    if t != [] {
      assert (t + rest)[1..] == t[1..] + rest;
      SpaceFreeOfToken(t[1..], rest);
    }
  }

  /** A row line never reads as the matrix separator. */
  lemma RowIsNotSeparator(ts: seq<string>)
    requires forall i :: 0 <= i < |ts| ==> WellFormedToken(ts[i])
    ensures RowText(ts) != "#"
  {
    if ts != [] {
      assert RowText(ts)[0] == ts[0][0];
    }
  }

  // ---- matrices ------------------------------------------------------------

  /** A `float[rows, cols]` whose cells hold weight text. */
  datatype Matrix = Matrix(rows: nat, cols: nat, cells: seq<seq<string>>)

  predicate Shaped(m: Matrix) {
    |m.cells| == m.rows && forall i :: 0 <= i < m.rows ==> |m.cells[i]| == m.cols
  }

  /** The text of the value a fresh `float` array holds. */
  const ZeroText := "0"

  function Blank(rows: nat, cols: nat): (m: Matrix)
    ensures Shaped(m) && m.rows == rows && m.cols == cols
  {
    Matrix(rows, cols, seq(rows, _ => seq(cols, _ => ZeroText)))
  }

  /** `new float[layers.Count - 1][,]` with matrix i shaped
      `[layers[i + 1], layers[i]]` (NeuralNetwork.cs:147-151). */
  function Allocate(sizes: seq<int>): (ms: seq<Matrix>)
    requires |sizes| >= 1 && forall i :: 0 <= i < |sizes| ==> sizes[i] >= 0
    ensures |ms| == |sizes| - 1
    ensures forall i :: 0 <= i < |ms| ==> Shaped(ms[i]) && ms[i].rows == sizes[i + 1] && ms[i].cols == sizes[i]
    decreases |sizes|
  {
    if |sizes| == 1 then [] else [Blank(sizes[1], sizes[0])] + Allocate(sizes[1..])
  }

  /** The reader's counters: matrix `w`, row `y`, and the matrices so far. */
  datatype ReadState = ReadState(w: int, y: int, ms: seq<Matrix>)

  predicate AllShaped(ms: seq<Matrix>) {
    forall i :: 0 <= i < |ms| ==> Shaped(ms[i])
  }

  /** The two states hold matrices of the same shapes. */
  predicate SameShapes(a: seq<Matrix>, b: seq<Matrix>) {
    |a| == |b| && forall i :: 0 <= i < |a| ==> a[i].rows == b[i].rows && a[i].cols == b[i].cols
  }

  /** One line of the body (NeuralNetwork.cs:156-192). A `#` closes matrix
      `w` after asserting that all its rows were read; any other line is a
      row of `w` whose weight count must be the column count, where writing
      one weight too many, or a row past the last, indexes out of range
      before the assertion is reached. */
  function ReadLine(line: string, st: ReadState): (r: Result<ReadState, ReadError>)
    requires AllShaped(st.ms) && st.y >= 0
    ensures r.Success? ==> AllShaped(r.value.ms) && SameShapes(r.value.ms, st.ms) && r.value.y >= 0
    ensures r.Success? && line == "#" ==> 0 <= st.w < |st.ms| && st.y == st.ms[st.w].rows
                                          && r.value == ReadState(st.w + 1, 0, st.ms)
    ensures r.Success? && line != "#" ==> 0 <= st.w < |st.ms| && |Tokens(line)| == st.ms[st.w].cols
                                          && r.value.w == st.w && r.value.y == st.y + 1
  {
    if line == "#" then
      if !(0 <= st.w < |st.ms|) then Failure(IndexOutOfRange)
      else if st.y != st.ms[st.w].rows then Failure(AssertFailed)
      else Success(ReadState(st.w + 1, 0, st.ms))
    else
      var ts := Tokens(line);
      if !(0 <= st.w < |st.ms|) then Failure(IndexOutOfRange)
      else
        var m := st.ms[st.w];
        if ts == [] then
          if m.cols != 0 then Failure(AssertFailed)
          else Success(ReadState(st.w, st.y + 1, st.ms))
        else if st.y >= m.rows || |ts| > m.cols then Failure(IndexOutOfRange)
        else if |ts| < m.cols then Failure(AssertFailed)
        else Success(ReadState(st.w, st.y + 1, st.ms[st.w := m.(cells := m.cells[st.y := ts])]))
  }

  /** The body lines, one after the other. */
  function ReadBody(lines: seq<string>, st: ReadState): (r: Result<ReadState, ReadError>)
    requires AllShaped(st.ms) && st.y >= 0
    ensures r.Success? ==> AllShaped(r.value.ms) && SameShapes(r.value.ms, st.ms)
    decreases |lines|
  {
    if lines == [] then Success(st)
    else
      var next :- ReadLine(lines[0], st);
      ReadBody(lines[1..], next)
  }

  /** The body reader stops at the first line that fails and otherwise
      goes on from the state that line leaves. */
  lemma ReadBodyStep(lines: seq<string>, st: ReadState)
    requires AllShaped(st.ms) && st.y >= 0 && lines != []
    ensures ReadLine(lines[0], st).Failure? ==> ReadBody(lines, st) == Failure(ReadLine(lines[0], st).error)
    ensures ReadLine(lines[0], st).Success? ==> ReadBody(lines, st) == ReadBody(lines[1..], ReadLine(lines[0], st).value)
  {
  }

  /** `WeightsFromFile` on the lines of a file (NeuralNetwork.cs:119-196). */
  function ReadWeights(lines: seq<string>): (r: Result<seq<Matrix>, ReadError>)
    ensures r.Success? ==> AllShaped(r.value)
  {
    if lines == [] then Failure(EmptyFile)
    else
      var sizes :- ParseHeader(lines[0]);
      if sizes == [] then Failure(NoLayerSizes)
      else
        var st :- ReadBody(lines[1..], ReadState(0, 0, Allocate(sizes)));
        Success(st.ms)
  }

  /** Whatever the body says, a successful read keeps the shapes the header
      announced. */
  lemma {:induction false} ReadKeepsHeaderShapes(lines: seq<string>)
    requires ReadWeights(lines).Success?
    ensures ParseHeader(lines[0]).Success?
    ensures var sizes := ParseHeader(lines[0]).value;
            && |sizes| >= 1
            && SameShapes(ReadWeights(lines).value, Allocate(sizes))
  {
  }

  // ---- writing the body ------------------------------------------------------

  /** One line per row of weight texts. */
  function RowLines(rows: seq<seq<string>>): seq<string> {
    if rows == [] then [] else [RowText(rows[0])] + RowLines(rows[1..])
  }

  /** Each matrix's rows followed by a `#` line (NeuralNetwork.cs:212-225). */
  function BodyLines(blocks: seq<seq<seq<string>>>): seq<string> {
    if blocks == [] then [] else RowLines(blocks[0]) + ["#"] + BodyLines(blocks[1..])
  }

  /** The whole file `WeightsToFile` writes, as lines. */
  function FileLines(sizes: seq<int>, blocks: seq<seq<seq<string>>>): seq<string>
    requires |sizes| >= 1 && forall i :: 0 <= i < |sizes| ==> sizes[i] >= 0
  {
    [HeaderText(sizes)] + BodyLines(blocks)
  }

  lemma {:induction false} RowLinesSnoc(rows: seq<seq<string>>, row: seq<string>)
    ensures RowLines(rows + [row]) == RowLines(rows) + [RowText(row)]
  {
    if rows != [] {
      assert (rows + [row])[1..] == rows[1..] + [row];
      RowLinesSnoc(rows[1..], row);
    }
  }

  lemma {:induction false} BodyLinesSnoc(blocks: seq<seq<seq<string>>>, block: seq<seq<string>>)
    ensures BodyLines(blocks + [block]) == BodyLines(blocks) + RowLines(block) + ["#"]
  {
    if blocks != [] {
      assert (blocks + [block])[1..] == blocks[1..] + [block];
      BodyLinesSnoc(blocks[1..], block);
    }
  }

  /** The lines of the first `i + 1` matrices. */
  lemma {:induction false} BodyLinesPrefix(blocks: seq<seq<seq<string>>>, i: nat)
    requires i < |blocks|
    ensures BodyLines(blocks[..i + 1]) == BodyLines(blocks[..i]) + RowLines(blocks[i]) + ["#"]
  {
    assert blocks[..i + 1] == blocks[..i] + [blocks[i]];
    BodyLinesSnoc(blocks[..i], blocks[i]);
  }

  /** `rows` holds `count` rows of `cols` well-formed weight texts. */
  predicate RowsFit(rows: seq<seq<string>>, count: int, cols: int) {
    && |rows| == count
    && forall i :: 0 <= i < |rows| ==> |rows[i]| == cols && forall j :: 0 <= j < cols ==> WellFormedToken(rows[i][j])
  }

  /** Reading the written rows of matrix `w` from row `y` on fills those
      rows and leaves the counters after them. */
  lemma {:induction false} ReadRows(rows: seq<seq<string>>, rest: seq<string>, st: ReadState)
    requires AllShaped(st.ms) && st.y >= 0 && 0 <= st.w < |st.ms|
    requires RowsFit(rows, st.ms[st.w].rows - st.y, st.ms[st.w].cols)
    ensures var m := st.ms[st.w];
            ReadBody(RowLines(rows) + rest, st)
            == ReadBody(rest, ReadState(st.w, m.rows, st.ms[st.w := m.(cells := m.cells[..st.y] + rows)]))
  {
    var m := st.ms[st.w];
    if rows == [] {
      assert RowLines(rows) + rest == rest;
      assert m.cells[..st.y] + rows == m.cells;
      assert st.ms[st.w := m.(cells := m.cells)] == st.ms;
    } else {
      var row := rows[0];
      assert RowLines(rows) + rest == [RowText(row)] + (RowLines(rows[1..]) + rest);
      ReadOneRow(row, RowLines(rows[1..]) + rest, st);
      var next := ReadState(st.w, st.y + 1, st.ms[st.w := m.(cells := m.cells[st.y := row])]);
      ReadRows(rows[1..], rest, next);
      StoreRowsStep(st.ms, st.w, st.y, rows);
    }
  }

  /** A row line of `cols` well-formed tokens fills the next row of matrix `w`. */
  lemma ReadOneRow(row: seq<string>, rest: seq<string>, st: ReadState)
    requires AllShaped(st.ms) && st.y >= 0 && 0 <= st.w < |st.ms|
    requires st.y < st.ms[st.w].rows && |row| == st.ms[st.w].cols
    requires forall j :: 0 <= j < |row| ==> WellFormedToken(row[j])
    ensures var m := st.ms[st.w];
            ReadBody([RowText(row)] + rest, st)
            == ReadBody(rest, ReadState(st.w, st.y + 1, st.ms[st.w := m.(cells := m.cells[st.y := row])]))
  {
    var line := RowText(row);
    RowRoundTrip(row);
    RowIsNotSeparator(row);
    ReadRowLine(line, row, st);
    assert ([line] + rest)[0] == line && ([line] + rest)[1..] == rest;
  }

  /** A line other than `#` whose weight texts are a full row fills the
      next row of matrix `w`. */
  lemma ReadRowLine(line: string, row: seq<string>, st: ReadState)
    requires AllShaped(st.ms) && st.y >= 0 && 0 <= st.w < |st.ms|
    requires st.y < st.ms[st.w].rows && |row| == st.ms[st.w].cols
    requires line != "#" && Tokens(line) == row
    ensures var m := st.ms[st.w];
            ReadLine(line, st)
            == Success(ReadState(st.w, st.y + 1, st.ms[st.w := m.(cells := m.cells[st.y := row])]))
  {
    var m := st.ms[st.w];
    if row == [] {
      assert m.cells[st.y] == [];
      assert m.cells[st.y := row] == m.cells;
      assert st.ms[st.w := m.(cells := m.cells)] == st.ms;
    }
  }

  /** Storing the first row and then the others stores them all. */
  lemma StoreRowsStep(ms: seq<Matrix>, w: int, y: int, rows: seq<seq<string>>)
    requires 0 <= w < |ms| && 0 <= y < |ms[w].cells| && rows != []
    ensures var m := ms[w];
            var cells1 := m.cells[y := rows[0]];
            ms[w := m.(cells := cells1)][w := m.(cells := cells1[..y + 1] + rows[1..])]
              == ms[w := m.(cells := m.cells[..y] + rows)]
  {
    var m := ms[w];
    var cells1 := m.cells[y := rows[0]];
    assert cells1[..y + 1] + rows[1..] == m.cells[..y] + rows;
  }

  /** `ms` with matrices `from`, `from + 1`, ... given the cells `blocks`. */
  function Filled(ms: seq<Matrix>, from: int, blocks: seq<seq<seq<string>>>): (r: seq<Matrix>)
    ensures |r| == |ms|
  {
    seq(|ms|, i requires 0 <= i < |ms| =>
      if from <= i < from + |blocks| then ms[i].(cells := blocks[i - from]) else ms[i])
  }

  /** Reading the written matrices from matrix `w` on fills each of them and
      leaves the counters past the last one. */
  lemma {:induction false} ReadBlocks(blocks: seq<seq<seq<string>>>, st: ReadState)
    requires AllShaped(st.ms) && st.y == 0 && 0 <= st.w && st.w + |blocks| == |st.ms|
    requires BlocksFit(blocks, st)
    ensures ReadBody(BodyLines(blocks), st) == Success(ReadState(|st.ms|, 0, Filled(st.ms, st.w, blocks)))
    decreases |blocks|
  {
    if blocks == [] {
      assert Filled(st.ms, st.w, blocks) == st.ms;
      assert BodyLines(blocks) == [];
      assert st == ReadState(|st.ms|, 0, st.ms);
    } else {
      var m := st.ms[st.w];
      var ms1 := st.ms[st.w := m.(cells := blocks[0])];
      var next := ReadState(st.w + 1, 0, ms1);
      ReadOneBlock(blocks, st);
      BlocksFitTail(blocks, st, next);
      ReadBlocks(blocks[1..], next);
      FilledStep(st.ms, st.w, blocks);
      calc {
        ReadBody(BodyLines(blocks), st);
        ReadBody(BodyLines(blocks[1..]), next);
        Success(ReadState(|ms1|, 0, Filled(ms1, st.w + 1, blocks[1..])));
        Success(ReadState(|st.ms|, 0, Filled(st.ms, st.w, blocks)));
      }
    }
  }

  /** Block `i` fits matrix `w + i` of the state. */
  predicate BlocksFit(blocks: seq<seq<seq<string>>>, st: ReadState) {
    && 0 <= st.w && st.w + |blocks| == |st.ms|
    && forall i :: 0 <= i < |blocks| ==> RowsFit(blocks[i], st.ms[st.w + i].rows, st.ms[st.w + i].cols)
  }

  /** Once the first block is read, the others still fit. */
  lemma BlocksFitTail(blocks: seq<seq<seq<string>>>, st: ReadState, next: ReadState)
    requires BlocksFit(blocks, st) && blocks != []
    requires next.w == st.w + 1 && SameShapes(next.ms, st.ms)
    ensures BlocksFit(blocks[1..], next)
  {
    forall i | 0 <= i < |blocks[1..]|
      ensures RowsFit(blocks[1..][i], next.ms[next.w + i].rows, next.ms[next.w + i].cols)
    {
      assert blocks[1..][i] == blocks[i + 1] && next.w + i == st.w + (i + 1);
    }
  }

  lemma {:induction false} ReadOneBlock(blocks: seq<seq<seq<string>>>, st: ReadState)
    requires AllShaped(st.ms) && st.y == 0 && 0 <= st.w && st.w + |blocks| == |st.ms| && blocks != []
    requires RowsFit(blocks[0], st.ms[st.w].rows, st.ms[st.w].cols)
    ensures var m := st.ms[st.w];
            var ms1 := st.ms[st.w := m.(cells := blocks[0])];
            && AllShaped(ms1) && SameShapes(ms1, st.ms)
            && ReadBody(BodyLines(blocks), st) == ReadBody(BodyLines(blocks[1..]), ReadState(st.w + 1, 0, ms1))
  {
    var m := st.ms[st.w];
    var rest := ["#"] + BodyLines(blocks[1..]);
    BodyLinesCons(blocks);
    ReadRows(blocks[0], rest, st);
    assert m.cells[..0] + blocks[0] == blocks[0];
    var ms1 := st.ms[st.w := m.(cells := blocks[0])];
    ReadSeparator(st.w, ms1);
  }

  /** The body starts with the rows of the first matrix and its `#`. */
  lemma BodyLinesCons(blocks: seq<seq<seq<string>>>)
    requires blocks != []
    ensures BodyLines(blocks) == RowLines(blocks[0]) + (["#"] + BodyLines(blocks[1..]))
  {
    Associate(RowLines(blocks[0]), ["#"], BodyLines(blocks[1..]));
  }

  lemma Associate(a: seq<string>, b: seq<string>, c: seq<string>)
    ensures a + b + c == a + (b + c)
  {
  }

  /** The `#` after the last row of matrix `w` moves on to matrix `w + 1`. */
  lemma ReadSeparator(w: int, ms: seq<Matrix>)
    requires AllShaped(ms) && 0 <= w < |ms|
    ensures ReadLine("#", ReadState(w, ms[w].rows, ms)) == Success(ReadState(w + 1, 0, ms))
  {
  }

  lemma {:induction false} FilledStep(ms: seq<Matrix>, w: int, blocks: seq<seq<seq<string>>>)
    requires 0 <= w < |ms| && blocks != []
    ensures Filled(ms[w := ms[w].(cells := blocks[0])], w + 1, blocks[1..]) == Filled(ms, w, blocks)
  {
  }

  /** Reading back what `WeightsToFile` writes gives matrices of the written
      shapes holding the written weight texts. */
  lemma {:induction false} FileRoundTrip(sizes: seq<int>, blocks: seq<seq<seq<string>>>)
    requires |sizes| >= 1 && forall i :: 0 <= i < |sizes| ==> 0 <= sizes[i] <= IntMax
    requires |blocks| == |sizes| - 1
    requires forall i :: 0 <= i < |blocks| ==> RowsFit(blocks[i], sizes[i + 1], sizes[i])
    ensures ReadWeights(FileLines(sizes, blocks))
            == Success(seq(|blocks|, i requires 0 <= i < |blocks| => Matrix(sizes[i + 1], sizes[i], blocks[i])))
  {
    var lines := FileLines(sizes, blocks);
    HeaderRoundTrip(sizes);
    assert lines[0] == HeaderText(sizes) && lines[1..] == BodyLines(blocks);
    var ms := Allocate(sizes);
    forall i | 0 <= i < |blocks|
      ensures RowsFit(blocks[i], ms[0 + i].rows, ms[0 + i].cols)
    {
      assert ms[i].rows == sizes[i + 1] && ms[i].cols == sizes[i];
    }
    assert BlocksFit(blocks, ReadState(0, 0, ms));
    ReadBlocks(blocks, ReadState(0, 0, ms));
    var filled := Filled(ms, 0, blocks);
    forall i | 0 <= i < |blocks|
      ensures filled[i] == Matrix(sizes[i + 1], sizes[i], blocks[i])
    {
      assert ms[i].rows == sizes[i + 1] && ms[i].cols == sizes[i];
    }
    assert filled == seq(|blocks|, i requires 0 <= i < |blocks| => Matrix(sizes[i + 1], sizes[i], blocks[i]));
  }

  /** The body loop of `WeightsFromFile` (NeuralNetwork.cs:154-193) with its
      counters `w` and `y`, over the lines of a file. */
  method WeightsFromLines(lines: seq<string>) returns (r: Result<seq<Matrix>, ReadError>)
    ensures r == ReadWeights(lines)
  {
    if lines == [] {
      return Failure(EmptyFile);
    }
    var header := ParseHeader(lines[0]);
    if header.Failure? {
      return Failure(header.error);
    }
    var layers := header.value;
    if layers == [] {
      return Failure(NoLayerSizes);
    }
    var weights := Allocate(layers);
    var w, y := 0, 0;
    var i := 1;
    while i < |lines|
      invariant 1 <= i <= |lines| && y >= 0 && AllShaped(weights)
      invariant ReadBody(lines[1..], ReadState(0, 0, Allocate(layers))) == ReadBody(lines[i..], ReadState(w, y, weights))
    {
      ghost var st := ReadState(w, y, weights);
      assert lines[i..][0] == lines[i] && lines[i..][1..] == lines[i + 1..];
      ReadBodyStep(lines[i..], st);
      var next := ReadOneLine(lines[i], w, y, weights);
      if next.Failure? {
        return Failure(next.error);
      }
      w, y, weights := next.value.w, next.value.y, next.value.ms;
      i := i + 1;
    }
    return Success(weights);
  }

  /** One pass of the body loop of `WeightsFromFile` (NeuralNetwork.cs:156-192):
      a `#` checks the row count and moves to the next matrix; any other line
      stores its weights as row `y` of matrix `w`. */
  method ReadOneLine(line: string, w: int, y: int, weights: seq<Matrix>) returns (r: Result<ReadState, ReadError>)
    requires AllShaped(weights) && y >= 0
    ensures r == ReadLine(line, ReadState(w, y, weights))
  {
    if line == "#" {
      if !(0 <= w < |weights|) {
        return Failure(IndexOutOfRange);
      }
      if y != weights[w].rows {
        return Failure(AssertFailed);
      }
      return Success(ReadState(w + 1, 0, weights));
    }
    var tokens := Tokens(line);
    if !(0 <= w < |weights|) {
      return Failure(IndexOutOfRange);
    }
    var m := weights[w];
    var stored := weights;
    if tokens != [] {
      if y >= m.rows || |tokens| > m.cols {
        return Failure(IndexOutOfRange);
      }
      stored := weights[w := m.(cells := m.cells[y := tokens])];
    }
    if |tokens| != m.cols {
      return Failure(AssertFailed);
    }
    return Success(ReadState(w, y + 1, stored));
  }
}
