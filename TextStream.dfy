/**
  The parts of the C++ stream library that the hex codec relies on, as pure
  functions on the text that is still unread: formatted extraction
  (`>> ch`, `>> n`, `>> hex >> x`), `getline`, and formatted insertion of a
  decimal number and of a zero-padded two-digit hex byte. Each extraction
  returns the value it read together with the rest of the text.
 */
module TextStream {
  import opened Wrappers
  import opened PixelGrid

  // ---------------------------------------------------------------- characters

  /** The white space that formatted extraction skips (`isspace` in the C locale). */
  predicate IsSpace(c: char) {
    // space, or one of '\t', '\n', vertical tab, form feed, '\r' (9 to 13)
    c == ' ' || '\t' <= c <= '\r'
  }

  predicate IsDecDigit(c: char) {
    '0' <= c <= '9'
  }

  predicate IsHexDigit(c: char) {
    '0' <= c <= '9' || 'a' <= c <= 'f' || 'A' <= c <= 'F'
  }

  predicate IsLowerHexDigit(c: char) {
    '0' <= c <= '9' || 'a' <= c <= 'f'
  }

  function DecDigitValue(c: char): (v: nat)
    requires IsDecDigit(c)
    ensures v < 10
  {
    c as int - '0' as int
  }

  function HexDigitValue(c: char): (v: nat)
    requires IsHexDigit(c)
    ensures v < 16
  {
    if '0' <= c <= '9' then c as int - '0' as int
    else if 'a' <= c <= 'f' then c as int - 'a' as int + 10
    else c as int - 'A' as int + 10
  }

  // ------------------------------------------------------- formatted insertion

  function DecDigitChar(d: nat): (c: char)
    requires d < 10
    ensures IsDecDigit(c) && DecDigitValue(c) == d
  {
    ('0' as int + d) as char
  }

  /** `stream << n` for a non-negative `int`: its decimal digits, no padding. */
  function DecimalText(n: nat): (t: string)
    ensures |t| > 0
    ensures forall k | 0 <= k < |t| :: IsDecDigit(t[k])
    ensures DecValue(t) == n
    ensures |t| == 1 || t[0] != '0'
    decreases n
  {
    if n < 10 then [DecDigitChar(n)]
    else
      var front := DecimalText(n / 10);
      var t := front + [DecDigitChar(n % 10)];
      assert t[..|t| - 1] == front;
      assert |front| == 1 ==> DecValue(front) == DecDigitValue(front[0]) by {
        if |front| == 1 {
          assert front[..0] == [];
        }
      }
      t
  }

  /** One digit of `std::hex` output, which is lower case by default. */
  function HexDigitChar(d: nat): (c: char)
    requires d < 16
    ensures IsLowerHexDigit(c) && IsHexDigit(c) && HexDigitValue(c) == d
  {
    if d < 10 then ('0' as int + d) as char else ('a' as int + (d - 10)) as char
  }

  /**
    `stream << setfill('0') << setw(2) << hex << +b`: a byte as exactly two
    lower-case hex digits, the first one a zero when `b < 16`.
   */
  function HexPair(b: Byte): (t: string)
    ensures |t| == 2 && IsLowerHexDigit(t[0]) && IsLowerHexDigit(t[1])
    ensures 16 * HexDigitValue(t[0]) + HexDigitValue(t[1]) == b
    ensures b < 16 <==> t[0] == '0'
  {
    [HexDigitChar(b / 16), HexDigitChar(b % 16)]
  }

  // ------------------------------------------------------ formatted extraction

  /** What formatted extraction leaves after skipping leading white space. */
  function SkipSpace(s: string): (t: string)
    ensures |t| <= |s|
    ensures t == [] || !IsSpace(t[0])
  {
    if s != [] && IsSpace(s[0]) then SkipSpace(s[1..]) else s
  }

  /** SkipSpace leaves a suffix of the text, and everything it drops is white space. */
  lemma {:induction false} SkipSpaceDropsSpace(s: string)
    ensures SkipSpace(s) == s[|s| - |SkipSpace(s)|..]
    ensures forall k | 0 <= k < |s| - |SkipSpace(s)| :: IsSpace(s[k])
  {
    if s != [] && IsSpace(s[0]) {
      SkipSpaceDropsSpace(s[1..]);
    }
  }

  /** `stream >> ch`: the first character that is not white space, and the text after it. */
  function ReadChar(s: string): (r: Option<(char, string)>)
    ensures r.Some? ==> !IsSpace(r.value.0) && |r.value.1| < |s|
  {
    var t := SkipSpace(s);
    if t == [] then None else Some((t[0], t[1..]))
  }

  /**
    `stream >> ch` fails only on text that is all white space; otherwise it
    returns the first other character, and everything before it is white space.
   */
  lemma ReadCharFindsFirst(s: string)
    ensures ReadChar(s).None? <==> forall k | 0 <= k < |s| :: IsSpace(s[k])
    ensures ReadChar(s).Some? ==>
      var j := |s| - |ReadChar(s).value.1| - 1;
      && s[j] == ReadChar(s).value.0
      && ReadChar(s).value.1 == s[j + 1..]
      && forall k | 0 <= k < j :: IsSpace(s[k])
  {
    SkipSpaceDropsSpace(s);
    var t := SkipSpace(s);
    if t != [] {
      assert t[0] == s[|s| - |t|];
    }
  }

  /** Length of the run of decimal digits that `s` starts with. */
  function DigitRun(s: string): (k: nat)
    ensures k <= |s|
  {
    if s != [] && IsDecDigit(s[0]) then 1 + DigitRun(s[1..]) else 0
  }

  /** The run is all digits, and it is the longest such prefix. */
  lemma {:induction false} DigitRunSpan(s: string)
    ensures forall i | 0 <= i < DigitRun(s) :: IsDecDigit(s[i])
    ensures DigitRun(s) == |s| || !IsDecDigit(s[DigitRun(s)])
  {
    if s != [] && IsDecDigit(s[0]) {
      DigitRunSpan(s[1..]);
    }
  }

  /** A run of digits followed by something else has exactly its own length. */
  lemma {:induction false} DigitRunOf(d: string, rest: string)
    requires forall i | 0 <= i < |d| :: IsDecDigit(d[i])
    requires rest == [] || !IsDecDigit(rest[0])
    ensures DigitRun(d + rest) == |d|
  {
    if d != [] {
      assert (d + rest)[1..] == d[1..] + rest;
      DigitRunOf(d[1..], rest);
    } else {
      assert d + rest == rest;
    }
  }

  /** Value of a run of decimal digits, most significant digit first. */
  function DecValue(ds: string): nat
    requires forall k | 0 <= k < |ds| :: IsDecDigit(ds[k])
  {
    if ds == [] then 0 else 10 * DecValue(ds[..|ds| - 1]) + DecDigitValue(ds[|ds| - 1])
  }

  /**
    `stream >> n` for a decimal number: skip white space, then read the longest
    run of digits. None when no digit follows the white space.
   */
  function ReadInt(s: string): (r: Option<(nat, string)>)
    ensures r.Some? ==> |r.value.1| < |s|
  {
    var t := SkipSpace(s);
    var k := DigitRun(t);
    DigitRunSpan(t);
    if k == 0 then None else Some((DecValue(t[..k]), t[k..]))
  }

  /** Length of the run of hex digits (either case) that `s` starts with. */
  function HexRun(s: string): (k: nat)
    ensures k <= |s|
  {
    if s != [] && IsHexDigit(s[0]) then 1 + HexRun(s[1..]) else 0
  }

  /** The run is all hex digits, and it is the longest such prefix. */
  lemma {:induction false} HexRunSpan(s: string)
    ensures forall i | 0 <= i < HexRun(s) :: IsHexDigit(s[i])
    ensures HexRun(s) == |s| || !IsHexDigit(s[HexRun(s)])
  {
    if s != [] && IsHexDigit(s[0]) {
      HexRunSpan(s[1..]);
    }
  }

  /** Value of one or two hex digits, most significant first. */
  function HexValue(ds: string): (v: Byte)
    requires 1 <= |ds| <= 2 && IsHexDigit(ds[0]) && IsHexDigit(ds[|ds| - 1])
  {
    if |ds| == 1 then HexDigitValue(ds[0]) else 16 * HexDigitValue(ds[0]) + HexDigitValue(ds[1])
  }

  /** Outcome of one `row >> hex >> x`. */
  datatype HexToken =
    | End                              // only white space is left
    | Bad                              // the next token is not one or two hex digits
    | Token(value: Byte, rest: string)  // a byte, and the text after its digits

  /**
    `row >> hex >> x`, restricted to the tokens the format writes: after white
    space, one or two hex digits that end the token (white space or the end of
    the line follows them).
   */
  function ReadHex(s: string): (r: HexToken)
    ensures r.Token? ==> |r.rest| < |s|
  {
    var t := SkipSpace(s);
    if t == [] then End
    else
      var k := HexRun(t);
      HexRunSpan(t);
      if k == 0 || k > 2 || (k < |t| && !IsSpace(t[k])) then Bad
      else Token(HexValue(t[..k]), t[k..])
  }

  /** `row >> hex >> x` finds nothing to read exactly on a line of white space. */
  lemma ReadHexEnd(s: string)
    ensures ReadHex(s).End? <==> forall k | 0 <= k < |s| :: IsSpace(s[k])
  {
    SkipSpaceDropsSpace(s);
    var t := SkipSpace(s);
    if t != [] {
      assert t[0] == s[|s| - |t|];
    }
  }

  /** Length of the text before the first line break (or of all of it). */
  function LineLength(s: string): (k: nat)
    ensures k <= |s|
  {
    if s == [] || s[0] == '\n' then 0 else 1 + LineLength(s[1..])
  }

  /** The text before the first line break holds none, and a line break ends it. */
  lemma {:induction false} LineLengthSpan(s: string)
    ensures forall i | 0 <= i < LineLength(s) :: s[i] != '\n'
    ensures LineLength(s) == |s| || s[LineLength(s)] == '\n'
  {
    if s != [] && s[0] != '\n' {
      LineLengthSpan(s[1..]);
    }
  }

  /** A line break right after text without one ends the line there. */
  lemma {:induction false} LineLengthOf(line: string, rest: string)
    requires '\n' !in line
    ensures LineLength(line + "\n" + rest) == |line|
  {
    if line != [] {
      assert (line + "\n" + rest)[1..] == line[1..] + "\n" + rest;
      assert line == [line[0]] + line[1..];
      LineLengthOf(line[1..], rest);
    }
  }

  /**
    `getline(stream, line)`: fails only at the end of the text; otherwise the
    characters up to the next line break, which is consumed but not returned.
   */
  function GetLine(s: string): (r: Option<(string, string)>)
    ensures r.None? <==> s == []
    ensures r.Some? ==> |r.value.1| < |s|
  {
    if s == [] then None
    else
      var k := LineLength(s);
      if k < |s| then Some((s[..k], s[k + 1..])) else Some((s, []))
  }

  // ------------------------------------------------ reading back what was written

  /** White space in front of a token is skipped by every extraction. */
  lemma SkipLeadingSpace(c: char, s: string)
    requires IsSpace(c)
    ensures SkipSpace([c] + s) == SkipSpace(s)
    ensures ReadHex([c] + s) == ReadHex(s)
    ensures ReadInt([c] + s) == ReadInt(s)
  {
    assert ([c] + s)[1..] == s;
  }

  /** Extracting a number stops exactly after the digits that `stream << n` wrote. */
  lemma ReadIntDecimal(n: nat, rest: string)
    requires rest == [] || !IsDecDigit(rest[0])
    ensures ReadInt(DecimalText(n) + rest) == Some((n, rest))
  {
    var d := DecimalText(n);
    var s := d + rest;
    assert SkipSpace(s) == s by {
      assert !IsSpace(s[0]);
    }
    DigitRunOf(d, rest);
    assert s[..|d|] == d && s[|d|..] == rest;
  }

  /** The digits `HexPair` wrote form a run of exactly two hex digits. */
  lemma HexRunOfPair(b: Byte, rest: string)
    requires rest == [] || IsSpace(rest[0])
    ensures HexRun(HexPair(b) + rest) == 2
  {
    var t := HexPair(b) + rest;
    assert t[1..][0] == t[1];
    assert t[1..][1..] == rest;
    assert HexRun(rest) == 0;
    assert HexRun(t[1..]) == 1;
  }

  /** Extracting a hex byte reads back the two digits `HexPair` wrote. */
  lemma ReadHexPair(b: Byte, rest: string)
    requires rest == [] || IsSpace(rest[0])
    ensures ReadHex(HexPair(b) + rest) == Token(b, rest)
  {
    var t := HexPair(b) + rest;
    assert !IsSpace(t[0]);
    assert SkipSpace(t) == t;
    HexRunOfPair(b, rest);
    assert t[..2] == HexPair(b);
    assert t[2..] == rest;
  }

  /** `getline` splits off a line that holds no line break. */
  lemma GetLineSplit(line: string, rest: string)
    requires '\n' !in line
    ensures GetLine(line + "\n" + rest) == Some((line, rest))
  {
    var s := line + "\n" + rest;
    LineLengthOf(line, rest);
    assert s[..|line|] == line && s[|line| + 1..] == rest;
  }
}
