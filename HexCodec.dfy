/**
  The `.hex` text format of an image (saveHex and loadHex):

      M = <rows> N = <cols>
      <two lower-case hex digits and a space per sample of row 0>
      ...

  The encoder is a function from grid to text. The decoder is given twice: as
  the specification function Decode and as the method LoadHex, which runs the
  loops of loadHex and writes each row through a pointer into the image buffer.
  The two places where loadHex misbehaves on bad input (a scan for '=' that never
  stops, a row pointer that runs past its row or past the image) are explicit
  errors here.
 */
module HexCodec {
  import opened Wrappers
  import opened PixelGrid
  import opened TextStream

  datatype DecodeError =
    | MissingEquals  // the text ran out while looking for an '='
    | BadDimension   // no decimal number after an '=' of the header
    | BadToken       // a data token that is not one or two hex digits
    | RowTooLong     // a data line with more than `cols` tokens
    | RowTooShort    // a data line with fewer than `cols` tokens
    | TooManyRows    // a data line with tokens after the `rows`-th one
    | TooFewRows     // the text ended before `rows` data lines, and rows have samples

  // ------------------------------------------------------------------ encoder

  /** The header line, without its line break. */
  function HeaderText(rows: nat, cols: nat): (t: string)
    ensures '\n' !in t
  {
    "M = " + DecimalText(rows) + " N = " + DecimalText(cols)
  }

  /** One row: every sample as two hex digits followed by one space. */
  function RowText(row: seq<Byte>): (t: string)
    ensures |t| == 3 * |row|
  {
    if row == [] then "" else HexPair(row[0]) + " " + RowText(row[1..])
  }

  /** A row's text is made of spaces and lower-case hex digits only, so it holds no line break. */
  lemma {:induction false} RowTextChars(row: seq<Byte>)
    ensures forall k | 0 <= k < |RowText(row)| :: RowText(row)[k] == ' ' || IsLowerHexDigit(RowText(row)[k])
    ensures '\n' !in RowText(row)
  {
    if row != [] {
      RowTextChars(row[1..]);
      var t := RowText(row);
      assert t == HexPair(row[0]) + " " + RowText(row[1..]);
      assert forall k | 3 <= k < |t| :: t[k] == RowText(row[1..])[k - 3];
    }
  }

  /** The data lines of `rows` rows of `cols` samples, each line ended by a line break. */
  function RowsText(samples: seq<Byte>, rows: nat, cols: nat): string
    requires |samples| == rows * cols
    decreases rows
  {
    if rows == 0 then ""
    else
      DropRow(rows, cols);
      RowText(samples[..cols]) + "\n" + RowsText(samples[cols..], rows - 1, cols)
  }

  /** saveHex, without the file: the header line, then one line per row. */
  function Encode(g: Grid): string
    requires g.Valid()
  {
    HeaderText(g.rows, g.cols) + "\n" + RowsText(g.samples, g.rows, g.cols)
  }

  // ------------------------------------------------- reference views of a text

  /** The lines `getline` returns one after another until it fails. */
  function Lines(s: string): seq<string>
    decreases |s|
  {
    match GetLine(s)
    case None => []
    case Some((line, rest)) => [line] + Lines(rest)
  }

  /** A line on which `row >> hex >> x` finds nothing to read. */
  predicate IsBlank(line: string) {
    forall k | 0 <= k < |line| :: IsSpace(line[k])
  }

  /** Every hex token of a line, in order; None if one of them is malformed. */
  function HexTokens(line: string): Option<seq<Byte>>
    decreases |line|
  {
    match ReadHex(line)
    case End => Some([])
    case Bad => None
    case Token(v, rest) =>
      match HexTokens(rest)
      case None => None
      case Some(vs) => Some([v] + vs)
  }

  // ---------------------------------------------------- decoder, as a function

  /**
    The loop `while (ch != '=') file >> ch;`: the text after the first '='.
    Where loadHex would read for ever, this is None.
   */
  function ScanToEquals(s: string): Option<string>
    decreases |s|
  {
    match ReadChar(s)
    case None => None
    case Some((c, rest)) => if c == '=' then Some(rest) else ScanToEquals(rest)
  }

  /** `getline(file, line)` whose line is thrown away. */
  function SkipLine(s: string): string {
    match GetLine(s)
    case None => []
    case Some((_, rest)) => rest
  }

  /** Samples already written, in front of the outcome of the rest. */
  function Prepend(p: seq<Byte>, r: Result<seq<Byte>, DecodeError>): Result<seq<Byte>, DecodeError> {
    match r
    case Ok(s) => Ok(p + s)
    case Err(e) => Err(e)
  }

  /**
    The samples of one data line, which must hold exactly `k` hex tokens: the
    token after the `k`-th would be written past the end of the row.
   */
  function ParseRow(line: string, k: nat): (r: Result<seq<Byte>, DecodeError>)
    ensures r.Ok? ==> |r.value| == k
    decreases |line|
  {
    match ReadHex(line)
    case End => if k == 0 then Ok([]) else Err(RowTooShort)
    case Bad => Err(BadToken)
    case Token(v, rest) => if k == 0 then Err(RowTooLong) else Prepend([v], ParseRow(rest, k - 1))
  }

  /**
    The data lines after the header, as `getline` returns them: `left` more rows
    of `cols` samples are expected; once they are all read, only blank lines may
    follow.
   */
  function DecodeLines(ls: seq<string>, left: nat, cols: nat): (r: Result<seq<Byte>, DecodeError>)
    ensures r.Ok? ==> |r.value| == left * cols
    decreases |ls|
  {
    if ls == [] then
      // rows of no columns have nothing left to fill
      if left == 0 || cols == 0 then Ok([]) else Err(TooFewRows)
    else if left == 0 then
      if ReadHex(ls[0]).End? then DecodeLines(ls[1..], 0, cols) else Err(TooManyRows)
    else
      match ParseRow(ls[0], cols)
      case Err(e) => Err(e)
      case Ok(row) =>
        DropRow(left, cols);
        Prepend(row, DecodeLines(ls[1..], left - 1, cols))
  }

  /** A `rows` by `cols` grid from the outcome of reading its samples. */
  function Shaped(rows: nat, cols: nat, r: Result<seq<Byte>, DecodeError>): Result<Grid, DecodeError> {
    match r
    case Err(e) => Err(e)
    case Ok(samples) => Ok(Grid(rows, cols, samples))
  }

  /** The dimensions the header declares, and the text after the header line. */
  datatype Header = Header(rows: nat, cols: nat, body: string)

  /**
    The header part of loadHex: `rows` is the number after the first '=',
    `cols` the number after the next '=', and the rest of that line is skipped.
   */
  function ParseHeader(text: string): Result<Header, DecodeError> {
    match ScanToEquals(text)
    case None => Err(MissingEquals)
    case Some(afterM) =>
      match ReadInt(afterM)
      case None => Err(BadDimension)
      case Some((rows, restM)) =>
        match ScanToEquals(restM)
        case None => Err(MissingEquals)
        case Some(afterN) =>
          match ReadInt(afterN)
          case None => Err(BadDimension)
          case Some((cols, restN)) => Ok(Header(rows, cols, SkipLine(restN)))
  }

  /** loadHex, without the file: the header, then each following line is one row. */
  function Decode(text: string): (r: Result<Grid, DecodeError>)
    ensures r.Ok? ==> r.value.Valid()
  {
    match ParseHeader(text)
    case Err(e) => Err(e)
    case Ok(h) => Shaped(h.rows, h.cols, DecodeLines(Lines(h.body), h.rows, h.cols))
  }

  // ------------------------------------------------------ decoder, as loadHex

  /** The loop `while (ch != '=') file >> ch;`, stopped at the end of the text. */
  method ScanEquals(s: string) returns (r: Option<string>)
    ensures r == ScanToEquals(s)
  {
    var ch: char := 0 as char;
    var rest := s;
    while ch != '='
      invariant ScanToEquals(s) == if ch == '=' then Some(rest) else ScanToEquals(rest)
      decreases |rest|
    {
      var next := ReadChar(rest);
      if next.None? {
        return None;
      }
      ch, rest := next.value.0, next.value.1;
    }
    return Some(rest);
  }

  /**
    The inner loop of loadHex, `while (row >> hex >> x) *data++ = x;`, with the
    pointer starting at `start`: copies the tokens of one data line into the
    image, and stops with an error instead of writing past the row.
   */
  method ReadRow(image: array<Byte>, start: nat, cols: nat, line: string) returns (failure: Option<DecodeError>)
    requires start + cols <= image.Length
    modifies image
    ensures image[..start] == old(image[..start])
    ensures forall k | start + cols <= k < image.Length :: image[k] == old(image[k])
    ensures failure.None? ==> ParseRow(line, cols) == Ok(image[start..start + cols])
    ensures failure.Some? ==> ParseRow(line, cols) == Err(failure.value)
  {
    var p, rowRest, token, written := CopyTokens(image, start, cols, line);
    RowProgressStop(line, cols, written, rowRest);
    RowSegment(old(image[..]), image[..], start, written);
    if token.Token? {
      // one token more than the row has room for
      return Some(RowTooLong);
    }
    if token.Bad? {
      return Some(BadToken);
    }
    if p < start + cols {
      return Some(RowTooShort);
    }
    return None;
  }

  /**
    The loop of ReadRow: writes tokens from `start` on while the row has room,
    and stops at the first extraction that finds no token or at the end of the
    row. `written` is what it wrote, `token` the extraction it stopped at.
   */
  method CopyTokens(image: array<Byte>, start: nat, cols: nat, line: string)
    returns (p: nat, rowRest: string, token: HexToken, ghost written: seq<Byte>)
    requires start + cols <= image.Length
    modifies image
    ensures p == start + |written| <= start + cols
    ensures forall k | 0 <= k < image.Length && !(start <= k < p) :: image[k] == old(image[k])
    ensures forall k | 0 <= k < |written| :: image[start + k] == written[k]
    ensures token == ReadHex(rowRest) && (token.Token? ==> p == start + cols)
    ensures RowProgress(line, cols, written, rowRest)
  {
    p := start;
    rowRest := line;
    token := ReadHex(rowRest);
    written := [];
    RowProgressStart(line, cols);
    while token.Token? && p < start + cols
      invariant start <= p <= start + cols && p == start + |written|
      invariant forall k | 0 <= k < image.Length && !(start <= k < p) :: image[k] == old(image[k])
      invariant forall k | 0 <= k < |written| :: image[start + k] == written[k]
      invariant token == ReadHex(rowRest)
      invariant RowProgress(line, cols, written, rowRest)
      decreases |rowRest|
    {
      image[p] := token.value;
      RowProgressToken(line, cols, written, rowRest);
      written := written + [token.value];
      p := p + 1;
      rowRest := token.rest;
      token := ReadHex(rowRest);
    }
  }

  /** What ReadRow's loop keeps pointwise, as slices: the samples in front are unchanged, and the segment is what was written. */
  lemma RowSegment(before: seq<Byte>, after: seq<Byte>, start: nat, written: seq<Byte>)
    requires |before| == |after| && start + |written| <= |after|
    requires forall k | 0 <= k < start :: after[k] == before[k]
    requires forall k | 0 <= k < |written| :: after[start + k] == written[k]
    ensures after[..start] == before[..start]
    ensures after[start..start + |written|] == written
  {
  }

  /** The loop invariant of ReadRow: the samples written, in front of the outcome of the rest of the line. */
  predicate RowProgress(line: string, cols: nat, written: seq<Byte>, rest: string) {
    |written| <= cols && ParseRow(line, cols) == Prepend(written, ParseRow(rest, cols - |written|))
  }

  /** Before the first token, nothing is written. */
  lemma RowProgressStart(line: string, cols: nat)
    ensures RowProgress(line, cols, [], line)
  {
    PrependNothing(ParseRow(line, cols));
  }

  /** A token read while the row has room is written next. */
  lemma RowProgressToken(line: string, cols: nat, written: seq<Byte>, rest: string)
    requires RowProgress(line, cols, written, rest) && |written| < cols && ReadHex(rest).Token?
    ensures RowProgress(line, cols, written + [ReadHex(rest).value], ReadHex(rest).rest)
  {
    PrependRow(written, [ReadHex(rest).value], ParseRow(ReadHex(rest).rest, cols - |written| - 1));
  }

  /** Where the loop stops, the outcome of the line is settled. */
  lemma RowProgressStop(line: string, cols: nat, written: seq<Byte>, rest: string)
    requires RowProgress(line, cols, written, rest)
    ensures ReadHex(rest).Token? && |written| == cols ==> ParseRow(line, cols) == Err(RowTooLong)
    ensures ReadHex(rest).Bad? ==> ParseRow(line, cols) == Err(BadToken)
    ensures ReadHex(rest).End? ==>
      ParseRow(line, cols) == if |written| < cols then Err(RowTooShort) else Ok(written)
  {
    if ReadHex(rest).End? && |written| == cols {
      assert written + [] == written;
    }
  }

  /** Nothing written in front of an outcome leaves it as it is. */
  lemma PrependNothing(r: Result<seq<Byte>, DecodeError>)
    ensures Prepend([], r) == r
  {
    if r.Ok? {
      assert [] + r.value == r.value;
    }
  }

  /** Samples written before a row, then the row, then the outcome of the rest. */
  lemma PrependRow(done: seq<Byte>, row: seq<Byte>, r: Result<seq<Byte>, DecodeError>)
    ensures Prepend(done, Prepend(row, r)) == Prepend(done + row, r)
  {
    if r.Ok? {
      assert done + (row + r.value) == done + row + r.value;
    }
  }

  /** The header part of loadHex: two scans for '=' and two extractions of a number. */
  method ReadHeader(text: string) returns (r: Result<Header, DecodeError>)
    ensures r == ParseHeader(text)
  {
    var afterM := ScanEquals(text);
    if afterM.None? {
      return Err(MissingEquals);
    }
    var m := ReadInt(afterM.value);
    if m.None? {
      return Err(BadDimension);
    }
    var afterN := ScanEquals(m.value.1);
    if afterN.None? {
      return Err(MissingEquals);
    }
    var n := ReadInt(afterN.value);
    if n.None? {
      return Err(BadDimension);
    }
    return Ok(Header(m.value.0, n.value.0, SkipLine(n.value.1)));
  }

  /**
    The loop invariant of the line loop: the samples written so far, in front of
    the outcome of reading the lines that are left, make up the outcome of
    reading the whole body.
   */
  predicate Progress(body: string, rows: nat, cols: nat, done: seq<Byte>, rest: string, i: nat)
    requires i <= rows
  {
    DecodeLines(Lines(body), rows, cols) == Prepend(done, DecodeLines(Lines(rest), rows - i, cols))
  }

  lemma ProgressStart(body: string, rows: nat, cols: nat)
    ensures Progress(body, rows, cols, [], body, 0)
  {
    PrependNothing(DecodeLines(Lines(body), rows, cols));
  }

  lemma ProgressRow(body: string, rows: nat, cols: nat, done: seq<Byte>, rest: string, i: nat,
                    line: string, next: string, row: seq<Byte>)
    requires i < rows && Progress(body, rows, cols, done, rest, i)
    requires Lines(rest) == [line] + Lines(next) && ParseRow(line, cols) == Ok(row)
    ensures Progress(body, rows, cols, done + row, next, i + 1)
  {
    DecodeLinesFirst(line, Lines(next), rows - i, cols);
    PrependRow(done, row, DecodeLines(Lines(next), rows - i - 1, cols));
  }

  lemma ProgressBlank(body: string, rows: nat, cols: nat, done: seq<Byte>, rest: string, i: nat,
                      line: string, next: string)
    requires i == rows && Progress(body, rows, cols, done, rest, i)
    requires Lines(rest) == [line] + Lines(next) && ReadHex(line).End?
    ensures Progress(body, rows, cols, done, next, i)
  {
    DecodeLinesFirst(line, Lines(next), 0, cols);
  }

  lemma ProgressStop(body: string, rows: nat, cols: nat, done: seq<Byte>, rest: string, i: nat,
                     line: string, next: string, e: DecodeError)
    requires i <= rows && Progress(body, rows, cols, done, rest, i)
    requires Lines(rest) == [line] + Lines(next)
    requires if i == rows then !ReadHex(line).End? && e == TooManyRows else ParseRow(line, cols) == Err(e)
    ensures DecodeLines(Lines(body), rows, cols) == Err(e)
  {
    DecodeLinesFirst(line, Lines(next), rows - i, cols);
  }

  lemma ProgressEnd(body: string, rows: nat, cols: nat, done: seq<Byte>, rest: string, i: nat)
    requires i <= rows && Progress(body, rows, cols, done, rest, i) && rest == []
    ensures DecodeLines(Lines(body), rows, cols) == if i < rows && cols > 0 then Err(TooFewRows) else Ok(done)
  {
    assert Lines(rest) == [];
    assert done + [] == done;
  }

  /** The first `k + n` elements are the first `k`, then the `n` after them. */
  lemma PrefixSplit(a: seq<Byte>, k: nat, n: nat)
    requires k + n <= |a|
    ensures a[..k + n] == a[..k] + a[k..k + n]
  {
  }

  /** `getline(file, line)` on text that is not used up: the first line, and the lines after it. */
  method ReadLine(s: string) returns (line: string, rest: string)
    requires s != []
    ensures Lines(s) == [line] + Lines(rest)
    ensures |rest| < |s|
  {
    var got := GetLine(s);
    line, rest := got.value.0, got.value.1;
  }

  /**
    The line loop of loadHex: data line `i` is copied into row `i` of the
    image, through a pointer that starts at that row.
   */
  method ReadBody(image: array<Byte>, rows: nat, cols: nat, body: string) returns (failure: Option<DecodeError>)
    requires image.Length == rows * cols
    modifies image
    ensures failure.None? ==> DecodeLines(Lines(body), rows, cols) == Ok(image[..])
    ensures failure.Some? ==> DecodeLines(Lines(body), rows, cols) == Err(failure.value)
  {
    var rest := body;
    var i, start := 0, 0;  // `start` is where the pointer of row `i` starts: i * cols
    ProgressStart(body, rows, cols);
    assert image[..start] == [];
    while rest != []
      invariant i <= rows && start == i * cols && start <= image.Length
      invariant Progress(body, rows, cols, image[..start], rest, i)
      decreases |rest|
    {
      var line, next := ReadLine(rest);
      if i == rows {
        // a line past the last row: harmless only when nothing is read from it
        if !ReadHex(line).End? {
          ProgressStop(body, rows, cols, image[..start], rest, i, line, next, TooManyRows);
          return Some(TooManyRows);
        }
        ProgressBlank(body, rows, cols, image[..start], rest, i, line, next);
        rest := next;
        assert Progress(body, rows, cols, image[..start], rest, i);
      } else {
        RowEndInBounds(rows, cols, i);
        ghost var done := image[..start];
        var rowFailure := ReadRow(image, start, cols, line);
        if rowFailure.Some? {
          ProgressStop(body, rows, cols, done, rest, i, line, next, rowFailure.value);
          return rowFailure;
        }
        ghost var row := image[start..start + cols];
        ProgressRow(body, rows, cols, done, rest, i, line, next, row);
        PrefixSplit(image[..], start, cols);
        NextRowStart(i, cols);
        i, start, rest := i + 1, start + cols, next;
        assert Progress(body, rows, cols, image[..start], rest, i);
      }
    }
    ProgressEnd(body, rows, cols, image[..start], rest, i);
    if i < rows && cols > 0 {
      return Some(TooFewRows);
    }
    assert image[..start] == image[..];
    return None;
  }

  /**
    loadHex on the text of a file: reads the header, allocates the image
    (`image.create(M, N, CV_8UC1)`), then reads one row per data line.
   */
  method LoadHex(text: string) returns (r: Result<Grid, DecodeError>)
    ensures r == Decode(text)
  {
    var header := ReadHeader(text);
    if header.Err? {
      return Err(header.error);
    }
    var rows, cols, body := header.value.rows, header.value.cols, header.value.body;
    var image := new Byte[rows * cols];
    var failure := ReadBody(image, rows, cols, body);
    if failure.Some? {
      return Err(failure.value);
    }
    return Ok(Grid(rows, cols, image[..]));
  }

  // ------------------------------------------------------------ header lemmas

  /**
    ScanToEquals stops at the FIRST '=' of the text, whatever white space or
    other characters come before it, and fails exactly when there is none.
   */
  lemma {:induction false} ScanToEqualsFirst(s: string, k: nat)
    requires k <= |s| && (forall i | 0 <= i < k :: s[i] != '=') && (k < |s| ==> s[k] == '=')
    ensures ScanToEquals(s) == if k < |s| then Some(s[k + 1..]) else None
    decreases |s|
  {
    ReadCharFindsFirst(s);
    match ReadChar(s)
    case None =>
    case Some((c, rest)) =>
      var j := |s| - |rest| - 1;
      if c != '=' {
        ScanToEqualsFirst(rest, k - j - 1);
      }
  }

  /** Text without any '=' is rejected instead of being read for ever. */
  lemma DecodeRequiresEquals(text: string)
    requires '=' !in text
    ensures Decode(text) == Err(MissingEquals)
  {
    ScanToEqualsFirst(text, |text|);
  }

  // ------------------------------------------------------------ row lemmas

  /** A line is read as `k` samples exactly when it holds `k` well-formed tokens, in order. */
  lemma {:induction false} ParseRowCounts(line: string, k: nat)
    ensures ParseRow(line, k).Ok? ==> HexTokens(line) == Some(ParseRow(line, k).value)
    ensures HexTokens(line).Some? ==>
      ParseRow(line, k) == (if |HexTokens(line).value| == k then Ok(HexTokens(line).value)
                            else if |HexTokens(line).value| < k then Err(RowTooShort)
                            else Err(RowTooLong))
    decreases |line|
  {
    match ReadHex(line)
    case End =>
    case Bad =>
    case Token(v, rest) =>
      if k > 0 {
        ParseRowCounts(rest, k - 1);
      }
  }

  /**
    The shape a list of data lines must have: at least `left` lines unless the
    rows have no columns, the first `left` of them rows of `cols` tokens, and
    every line after them blank.
   */
  predicate WellFormedBody(ls: seq<string>, left: nat, cols: nat) {
    && (cols > 0 ==> left <= |ls|)
    && (forall i | 0 <= i < left && i < |ls| :: ParseRow(ls[i], cols).Ok?)
    && (forall i | left <= i < |ls| :: IsBlank(ls[i]))
  }

  /** The shape of a list of lines, one line at a time. */
  lemma WellFormedBodyCons(line: string, ls: seq<string>, left: nat, cols: nat)
    ensures WellFormedBody([line] + ls, left, cols) <==>
      if left == 0 then IsBlank(line) && WellFormedBody(ls, 0, cols)
      else ParseRow(line, cols).Ok? && WellFormedBody(ls, left - 1, cols)
  {
    var all := [line] + ls;
    assert all[0] == line;
    assert forall i | 0 <= i < |ls| :: all[i + 1] == ls[i];
  }

  /** What reading one more line does, with `left` rows still to read. */
  lemma DecodeLinesFirst(line: string, ls: seq<string>, left: nat, cols: nat)
    ensures DecodeLines([line] + ls, left, cols) ==
      if left == 0 then
        if ReadHex(line).End? then DecodeLines(ls, 0, cols) else Err(TooManyRows)
      else
        match ParseRow(line, cols)
        case Err(e) => Err(e)
        case Ok(row) => Prepend(row, DecodeLines(ls, left - 1, cols))
  {
    assert ([line] + ls)[0] == line && ([line] + ls)[1..] == ls;
  }

  /** Reading a well-formed row in front of the remaining lines. */
  lemma DecodeLinesCons(line: string, ls: seq<string>, left: nat, cols: nat)
    requires left > 0 && ParseRow(line, cols).Ok?
    ensures DecodeLines([line] + ls, left, cols) == Prepend(ParseRow(line, cols).value, DecodeLines(ls, left - 1, cols))
  {
    assert ([line] + ls)[0] == line && ([line] + ls)[1..] == ls;
  }

  /** The data is accepted exactly when its lines have the shape WellFormedBody describes. */
  lemma {:induction false} DecodeLinesAccepts(ls: seq<string>, left: nat, cols: nat)
    ensures DecodeLines(ls, left, cols).Ok? <==> WellFormedBody(ls, left, cols)
    decreases |ls|
  {
    if ls != [] {
      ReadHexEnd(ls[0]);
      DecodeLinesAccepts(ls[1..], if left == 0 then 0 else left - 1, cols);
      assert ls == [ls[0]] + ls[1..];
      WellFormedBodyCons(ls[0], ls[1..], left, cols);
    }
  }

  /**
    When the data is accepted, data line `i` is there unless rows have no
    columns, and when it is there it is a row of `cols` samples.
   */
  lemma {:induction false} DecodeLinesRowOk(ls: seq<string>, left: nat, cols: nat, i: nat)
    requires DecodeLines(ls, left, cols).Ok? && i < left
    ensures cols > 0 ==> i < |ls|
    ensures i < |ls| ==> ParseRow(ls[i], cols).Ok?
    decreases |ls|
  {
    if i > 0 && ls != [] {
      DecodeLinesRowOk(ls[1..], left - 1, cols, i - 1);
    }
  }

  /** Data line `i` becomes row `i` of the grid: its `k`-th token is sample (i, k). */
  lemma {:induction false} DecodeLinesPlacement(ls: seq<string>, left: nat, cols: nat, i: nat)
    requires DecodeLines(ls, left, cols).Ok? && i < left && i < |ls|
    ensures ParseRow(ls[i], cols).Ok?
    ensures i * cols + cols <= left * cols
    ensures DecodeLines(ls, left, cols).value[i * cols .. i * cols + cols] == ParseRow(ls[i], cols).value
    decreases |ls|
  {
    DecodeLinesRowOk(ls, left, cols, i);
    RowEndInBounds(left, cols, i);
    var row := ParseRow(ls[0], cols).value;
    var tail := DecodeLines(ls[1..], left - 1, cols).value;
    assert DecodeLines(ls, left, cols).value == row + tail;
    if i == 0 {
      SliceFront(row, tail);
    } else {
      DecodeLinesPlacement(ls[1..], left - 1, cols, i - 1);
      assert ls[1..][i - 1] == ls[i];
      ConsRowSlice(row, tail, cols, left, i);
    }
  }

  /** A sequence is its first `n` elements followed by the rest. */
  lemma TakeDrop(s: seq<Byte>, n: nat)
    requires n <= |s|
    ensures s[..n] + s[n..] == s
  {
  }

  /** The first part of a concatenation is its prefix of that length. */
  lemma SliceFront(head: seq<Byte>, tail: seq<Byte>)
    ensures (head + tail)[..|head|] == head
  {
  }

  /** Row `i` of a row followed by more rows is row `i - 1` of the rows that follow. */
  lemma ConsRowSlice(row: seq<Byte>, tail: seq<Byte>, cols: nat, left: nat, i: nat)
    requires |row| == cols && |tail| == (left - 1) * cols && 0 < i < left
    ensures (i - 1) * cols + cols <= |tail|
    ensures (row + tail)[i * cols .. i * cols + cols] == tail[(i - 1) * cols .. (i - 1) * cols + cols]
  {
    RowEndInBounds(left - 1, cols, i - 1);
    var a := (i - 1) * cols;
    assert i * cols == cols + a;
    SliceAfter(row, tail, a, cols);
  }

  /** A slice that lies past the first part of a concatenation is a slice of the second part. */
  lemma SliceAfter(head: seq<Byte>, tail: seq<Byte>, a: nat, n: nat)
    requires a + n <= |tail|
    ensures (head + tail)[|head| + a .. |head| + a + n] == tail[a .. a + n]
  {
  }

  // ------------------------------------------------------------ encoder lemmas

  /** Token `j` of a row's text is sample `j` as two hex digits and a space. */
  lemma {:induction false} RowTextAt(row: seq<Byte>, j: nat)
    requires j < |row|
    ensures RowText(row)[3 * j .. 3 * j + 3] == HexPair(row[j]) + " "
  {
    var t := RowText(row);
    assert t == HexPair(row[0]) + " " + RowText(row[1..]);
    if j > 0 {
      RowTextAt(row[1..], j - 1);
      assert t[3 * j .. 3 * j + 3] == RowText(row[1..])[3 * (j - 1) .. 3 * (j - 1) + 3];
    }
  }

  /** The data lines are the rows of the grid, one per line, in order. */
  lemma {:induction false} RowsTextLines(g: Grid)
    requires g.Valid()
    ensures |Lines(RowsText(g.samples, g.rows, g.cols))| == g.rows
    ensures forall i | 0 <= i < g.rows :: Lines(RowsText(g.samples, g.rows, g.cols))[i] == RowText(g.Row(i))
    decreases g.rows
  {
    if g.rows > 0 {
      var smaller := g.BelowFirstRow();
      RowsTextFirst(g);
      RowsTextLines(smaller);
      var ls := Lines(RowsText(g.samples, g.rows, g.cols));
      forall i | 0 <= i < g.rows ensures ls[i] == RowText(g.Row(i)) {
        if i > 0 {
          RowOfRest(g, i);
        }
      }
    }
  }

  /** The first data line is the text of row 0; the others are the data lines of the rows below it. */
  lemma RowsTextFirst(g: Grid)
    requires g.Valid() && g.rows > 0
    ensures Lines(RowsText(g.samples, g.rows, g.cols))
         == [RowText(g.Row(0))] + Lines(RowsText(g.BelowFirstRow().samples, g.rows - 1, g.cols))
  {
    DropRow(g.rows, g.cols);
    var first := RowText(g.samples[..g.cols]);
    var tail := RowsText(g.BelowFirstRow().samples, g.rows - 1, g.cols);
    assert RowsText(g.samples, g.rows, g.cols) == first + "\n" + tail;
    RowTextChars(g.samples[..g.cols]);
    GetLineSplit(first, tail);
  }

  /**
    The layout saveHex writes: the header line `M = <rows> N = <cols>`, then
    exactly `rows` lines; line `i + 1` holds the `cols` samples of row `i`, each
    as two lower-case hex digits followed by one space.
   */
  lemma EncodeLayout(g: Grid)
    requires g.Valid()
    ensures |Lines(Encode(g))| == g.rows + 1
    ensures Lines(Encode(g))[0] == "M = " + DecimalText(g.rows) + " N = " + DecimalText(g.cols)
    ensures forall i | 1 <= i <= g.rows :: |Lines(Encode(g))[i]| == 3 * g.cols
    ensures forall i, j | 0 <= i < g.rows && 0 <= j < g.cols ::
      Lines(Encode(g))[i + 1][3 * j .. 3 * j + 3] == HexPair(g.Row(i)[j]) + " "
    ensures |Encode(g)| > 0 && Encode(g)[|Encode(g)| - 1] == '\n'
  {
    EncodeEndsInBreak(g);
    var body := RowsText(g.samples, g.rows, g.cols);
    GetLineSplit(HeaderText(g.rows, g.cols), body);
    RowsTextLines(g);
    var ls := Lines(Encode(g));
    assert ls == [HeaderText(g.rows, g.cols)] + Lines(body);
    forall i, j | 0 <= i < g.rows && 0 <= j < g.cols
      ensures ls[i + 1][3 * j .. 3 * j + 3] == HexPair(g.Row(i)[j]) + " "
    {
      assert ls[i + 1] == RowText(g.Row(i));
      RowTextAt(g.Row(i), j);
    }
  }

  /** The last line written, the header's or the last row's, is ended by its line break too. */
  lemma EncodeEndsInBreak(g: Grid)
    requires g.Valid()
    ensures |Encode(g)| > 0 && Encode(g)[|Encode(g)| - 1] == '\n'
  {
    if g.rows > 0 {
      RowsTextEndsInBreak(g.samples, g.rows, g.cols);
    }
  }

  /** Every data line, the last one included, is followed by a line break. */
  lemma {:induction false} RowsTextEndsInBreak(samples: seq<Byte>, rows: nat, cols: nat)
    requires |samples| == rows * cols && rows > 0
    ensures var t := RowsText(samples, rows, cols); |t| > 0 && t[|t| - 1] == '\n'
    decreases rows
  {
    DropRow(rows, cols);
    var tail := RowsText(samples[cols..], rows - 1, cols);
    assert RowsText(samples, rows, cols) == RowText(samples[..cols]) + "\n" + tail;
    if rows > 1 {
      RowsTextEndsInBreak(samples[cols..], rows - 1, cols);
    }
  }

  // ------------------------------------------------------------ round trip

  /** Reading back a row's text gives the row. */
  lemma {:induction false} RowRoundTrip(row: seq<Byte>)
    ensures ParseRow(RowText(row), |row|) == Ok(row)
  {
    if row != [] {
      var rest := RowText(row[1..]);
      RowTextFront(row);
      ParseRowPair(row[0], rest, |row| - 1);
      RowRoundTrip(row[1..]);
      assert [row[0]] + row[1..] == row;
    }
  }

  /** A non-empty row's text is its first sample's pair, a space, then the text of the others. */
  lemma RowTextFront(row: seq<Byte>)
    requires row != []
    ensures RowText(row) == HexPair(row[0]) + ([' '] + RowText(row[1..]))
  {
  }

  /** A hex pair and a space in front of a line add that byte in front of what the line reads as. */
  lemma ParseRowPair(b: Byte, rest: string, k: nat)
    ensures ParseRow(HexPair(b) + ([' '] + rest), k + 1) == Prepend([b], ParseRow(rest, k))
  {
    ReadHexPair(b, [' '] + rest);
    ParseRowSpace(' ', rest, k);
  }

  /** White space in front of a line does not change what it reads as. */
  lemma ParseRowSpace(c: char, rest: string, k: nat)
    requires IsSpace(c)
    ensures ParseRow([c] + rest, k) == ParseRow(rest, k)
  {
    SkipLeadingSpace(c, rest);
  }

  /** `getline` returns a line that holds no line break, then the lines after it. */
  lemma LinesSplit(line: string, rest: string)
    requires '\n' !in line
    ensures Lines(line + "\n" + rest) == [line] + Lines(rest)
  {
    GetLineSplit(line, rest);
  }

  /** A line that reads as a row, then the lines after it. */
  lemma DecodeRowThen(line: string, tail: string, left: nat, cols: nat)
    requires '\n' !in line && left > 0 && ParseRow(line, cols).Ok?
    ensures DecodeLines(Lines(line + "\n" + tail), left, cols)
         == Prepend(ParseRow(line, cols).value, DecodeLines(Lines(tail), left - 1, cols))
  {
    LinesSplit(line, tail);
    DecodeLinesCons(line, Lines(tail), left, cols);
  }

  /** Reading back the data lines gives every sample, in row-major order. */
  lemma {:induction false} RowsRoundTrip(samples: seq<Byte>, rows: nat, cols: nat)
    requires |samples| == rows * cols
    ensures DecodeLines(Lines(RowsText(samples, rows, cols)), rows, cols) == Ok(samples)
    decreases rows
  {
    if rows > 0 {
      DropRow(rows, cols);
      var row := samples[..cols];
      var tail := RowsText(samples[cols..], rows - 1, cols);
      assert RowsText(samples, rows, cols) == RowText(row) + "\n" + tail;
      RowTextChars(row);
      RowRoundTrip(row);
      DecodeRowThen(RowText(row), tail, rows, cols);
      RowsRoundTrip(samples[cols..], rows - 1, cols);
      TakeDrop(samples, cols);
    }
  }

  /** loadHex reads back exactly the grid saveHex wrote: its shape and every sample. */
  lemma RoundTrip(g: Grid)
    requires g.Valid()
    ensures Decode(Encode(g)) == Ok(g)
  {
    var body := RowsText(g.samples, g.rows, g.cols);
    HeaderRoundTrip(g.rows, g.cols, body);
    RowsRoundTrip(g.samples, g.rows, g.cols);
  }

  /** The header line saveHex writes is read back as its two dimensions, followed by the data. */
  lemma HeaderRoundTrip(rows: nat, cols: nat, body: string)
    ensures ParseHeader(HeaderText(rows, cols) + "\n" + body) == Ok(Header(rows, cols, body))
  {
    var afterCols := "\n" + body;
    var afterRows := " N " + "=" + (" " + (DecimalText(cols) + afterCols));
    var text := HeaderText(rows, cols) + "\n" + body;
    assert "M = " == "M " + "=" + " " by {
      assert ("M " + "=" + " ")[2] == '=';
    }
    assert " N = " == " N " + "=" + " " by {
      assert (" N " + "=" + " ")[3] == '=';
    }
    assert text == "M " + "=" + (" " + (DecimalText(rows) + afterRows));
    ScanPast("M ", " " + (DecimalText(rows) + afterRows));
    ReadSpacedInt(rows, afterRows);
    ScanPast(" N ", " " + (DecimalText(cols) + afterCols));
    ReadSpacedInt(cols, afterCols);
    GetLineSplit("", body);
    assert "" + "\n" + body == afterCols;
  }

  /** The scan for '=' stops right after the first one. */
  lemma ScanPast(prefix: string, rest: string)
    requires '=' !in prefix
    ensures ScanToEquals(prefix + "=" + rest) == Some(rest)
  {
    var s := prefix + "=" + rest;
    assert s[|prefix|] == '=';
    assert forall i | 0 <= i < |prefix| :: s[i] == prefix[i];
    ScanToEqualsFirst(s, |prefix|);
    assert s[|prefix| + 1..] == rest;
  }

  /** A number written after one space is read back, and reading stops right after its digits. */
  lemma ReadSpacedInt(n: nat, rest: string)
    requires rest == [] || !IsDecDigit(rest[0])
    ensures ReadInt(" " + (DecimalText(n) + rest)) == Some((n, rest))
  {
    SkipLeadingSpace(' ', DecimalText(n) + rest);
    ReadIntDecimal(n, rest);
  }

  /** LoadHex, run on what saveHex wrote, returns the grid that was written. */
  method SaveThenLoad(g: Grid) returns (r: Result<Grid, DecodeError>)
    requires g.Valid()
    ensures r == Ok(g)
  {
    RoundTrip(g);
    r := LoadHex(Encode(g));
  }

  /** The example's first row. */
  lemma FirstRowExample()
    ensures RowText([255, 0, 127]) == "ff 00 7f "
  {
    assert HexPair(255) == "ff" && HexPair(0) == "00" && HexPair(127) == "7f";
    assert RowText([127]) == "7f ";
    assert RowText([0, 127]) == "00 7f ";
  }

  /** The example's second row. */
  lemma SecondRowExample()
    ensures RowText([1, 2, 3]) == "01 02 03 "
  {
    assert HexPair(1) == "01" && HexPair(2) == "02" && HexPair(3) == "03";
    assert RowText([3]) == "03 ";
    assert RowText([2, 3]) == "02 03 ";
  }

  /** The example's data lines. */
  lemma RowsExample()
    ensures RowsText([255, 0, 127, 1, 2, 3], 2, 3) == "ff 00 7f \n01 02 03 \n"
  {
    var samples: seq<Byte> := [255, 0, 127, 1, 2, 3];
    FirstRowExample();
    LastRowExample();
    assert samples[..3] == [255, 0, 127] && samples[3..] == [1, 2, 3];
  }

  /** The example's last data line. */
  lemma LastRowExample()
    ensures RowsText([1, 2, 3], 1, 3) == "01 02 03 \n"
  {
    SecondRowExample();
    assert [1, 2, 3][..3] == [1, 2, 3] && [1, 2, 3][3..] == [];
  }

  /** The example's header line. */
  lemma HeaderExample()
    ensures HeaderText(2, 3) == "M = 2 N = 3"
  {
    assert DecimalText(2) == "2" && DecimalText(3) == "3";
  }

  /** The two-by-three example grid is written as the text below. */
  lemma EncodeExample()
    ensures Encode(Grid(2, 3, [255, 0, 127, 1, 2, 3])) == "M = 2 N = 3\nff 00 7f \n01 02 03 \n"
  {
    RowsExample();
    HeaderExample();
  }

  /** The example text is read back as the two-by-three grid. */
  lemma DecodeExample()
    ensures Decode("M = 2 N = 3\nff 00 7f \n01 02 03 \n") == Ok(Grid(2, 3, [255, 0, 127, 1, 2, 3]))
  {
    EncodeExample();
    RoundTrip(Grid(2, 3, [255, 0, 127, 1, 2, 3]));
  }

  /**
    A header of rows with no columns and no data lines after it is a grid with
    no samples: the line loop finds no line, and there was nothing to fill.
   */
  lemma ZeroColumnsExample()
    ensures Decode("M = 2 N = 0\n") == Ok(Grid(2, 0, []))
  {
    assert DecimalText(2) == "2" && DecimalText(0) == "0";
    assert HeaderText(2, 0) + "\n" + "" == "M = 2 N = 0\n";
    HeaderRoundTrip(2, 0, "");
    assert Lines("") == [];
  }
}
