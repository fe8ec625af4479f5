/**
 * The recursive-descent reader of load.cpp.  The C++ parsers share one
 * `std::string_view&` that each of them shrinks with `remove_prefix`; here
 * the view is the suffix `text[pos..]` and every parser returns the value
 * it built together with the new cursor.  Each parser is a specification
 * function (`...At`) and, where the source loops, a method with that loop
 * proved equal to the function.  Every character of `text` stands for one
 * byte of the input.
 *
 * `std::stod` is a parameter: the model does not compute doubles, it only
 * records that the double payload is what `stod` makes of the literal.
 */
module Load {
  import opened Wrappers
  import opened Bytes
  import opened Decimal
  import opened JsonValues
  import opened Utf8

  /** The `std::runtime_error`s the reader throws, one per message. */
  datatype ParseError =
    | InvalidLiteral          // "Invalid literal in JSON input"
    | InvalidNumber           // "Failed to parse JSON number"
    | ExpectedString          // "Expected string literal"
    | ExpectedStringKey       // "Expected string key"
    | UnexpectedEndOfString   // "Unexpected end of string"
    | InvalidUnicodeEscape    // "Invalid Unicode escape"
    | InvalidEscape           // "Invalid escape sequence"
    | ExpectedObjectStart     // "Expected object start"
    | ExpectedColon           // "Expected ':' after key"
    | ExpectedCommaOrBrace    // "Expected ',' or '}'"
    | ExpectedArrayStart      // "Expected array start"
    | ExpectedCommaOrBracket  // "Expected ',' or ']'"
    | UnexpectedEndOfInput    // "Unexpected end of input"
    | UnexpectedCharacter     // "Unexpected character"
    | ExtraData               // "Extra data after valid JSON value"
    | TruncatedInput          // the source reads past the end of the view (undefined behaviour)

  /** A parsed value and the cursor after it. */
  type Parsed<T> = Result<(T, nat), ParseError>

  /** The `std::stod` conversion of a numeric literal. */
  type Stod = string -> Float64

  /** `std::isspace` in the C locale: space, \t, \n, \v, \f, \r. */
  predicate IsSpace(c: char)
  {
    c == ' ' || '\t' <= c <= '\r'
  }

  /** The cursor after the whitespace at `pos`: the first non-space character, or the end. */
  function SkipWs(text: string, pos: nat): (p: nat)
    requires pos <= |text|
    ensures pos <= p <= |text|
    decreases |text| - pos
  {
    if pos == |text| || !IsSpace(text[pos]) then pos else SkipWs(text, pos + 1)
  }

  /** `SkipWs` passes over whitespace only, and stops at the first character that is not. */
  lemma {:induction false} SkipWsSpec(text: string, pos: nat)
    requires pos <= |text|
    ensures forall k | pos <= k < SkipWs(text, pos) :: IsSpace(text[k])
    ensures SkipWs(text, pos) == |text| || !IsSpace(text[SkipWs(text, pos)])
    decreases |text| - pos
  {
    if pos < |text| && IsSpace(text[pos]) {
      SkipWsSpec(text, pos + 1);
    }
  }

  /** Skipping whitespace twice is skipping it once. */
  lemma SkipWsIdempotent(text: string, pos: nat)
    requires pos <= |text|
    ensures SkipWs(text, SkipWs(text, pos)) == SkipWs(text, pos)
  {
    SkipWsSpec(text, pos);
  }

  /** `Parser::skipWhitespace`: `find_if` for the first non-space, then `remove_prefix`. */
  method SkipWhitespace(text: string, pos: nat) returns (p: nat)
    requires pos <= |text|
    ensures p == SkipWs(text, pos)
  {
    p := pos;
    while p < |text| && IsSpace(text[p])
      invariant pos <= p <= |text|
      invariant SkipWs(text, p) == SkipWs(text, pos)
    {
      p := p + 1;
    }
  }

  predicate StartsWith(text: string, p: nat, word: string)
  {
    p + |word| <= |text| && text[p..p + |word|] == word
  }

  /** `s` stands in `text` from position `j` on, read one character at a time. */
  predicate At(text: string, j: nat, s: string)
    decreases |s|
  {
    j + |s| <= |text| && (s == [] || (text[j] == s[0] && At(text, j + 1, s[1..])))
  }

  /** The character-by-character reading agrees with the slice comparison the reader uses. */
  lemma {:induction false} AtStartsWith(text: string, j: nat, s: string)
    ensures At(text, j, s) <==> StartsWith(text, j, s)
    decreases |s|
  {
    if s != [] && j + |s| <= |text| {
      AtStartsWith(text, j + 1, s[1..]);
      if At(text, j, s) {
        assert text[j..j + |s|] == [text[j]] + text[j + 1..j + 1 + |s[1..]|];
        assert s == [s[0]] + s[1..];
      }
      if StartsWith(text, j, s) {
        assert text[j..j + |s|][0] == text[j];
        assert text[j..j + |s|][1..] == text[j + 1..j + 1 + |s[1..]|];
      }
    }
  }

  /** Where `a + b` stands at `j`, `a` stands at `j` and `b` right after it. */
  lemma {:induction false} AtSplit(text: string, j: nat, a: string, b: string)
    requires At(text, j, a + b)
    ensures At(text, j, a) && At(text, j + |a|, b)
    decreases |a|
  {
    if a != [] {
      assert (a + b)[0] == a[0] && (a + b)[1..] == a[1..] + b;
      AtSplit(text, j + 1, a[1..], b);
    } else {
      assert a + b == b;
    }
  }

  lemma {:induction false} AtIndex(text: string, j: nat, a: string, k: nat)
    requires At(text, j, a) && k < |a|
    ensures text[j + k] == a[k]
    decreases k
  {
    if k > 0 {
      AtIndex(text, j + 1, a[1..], k - 1);
    }
  }

  /** `parseLiteral`: `true`, `false` or `null` at the first non-space character. */
  function LiteralAt(text: string, pos: nat): (r: Parsed<JsonValue>)
    requires pos <= |text|
    ensures r.Ok? ==> pos < r.value.1 <= |text|
  {
    var p := SkipWs(text, pos);
    if StartsWith(text, p, "true") then Ok((OfBool(true), p + 4))
    else if StartsWith(text, p, "false") then Ok((OfBool(false), p + 5))
    else if StartsWith(text, p, "null") then Ok((Default(), p + 4))
    else Err(InvalidLiteral)
  }

  /**
   * A literal is accepted exactly when one of the three words follows the
   * whitespace; the value is the word's and the cursor moves past it.
   */
  lemma LiteralAtSpec(text: string, pos: nat)
    requires pos <= |text|
    ensures var p := SkipWs(text, pos); var r := LiteralAt(text, pos);
      && (r.Ok? <==> StartsWith(text, p, "true") || StartsWith(text, p, "false") || StartsWith(text, p, "null"))
      && (r.Ok? ==> Wf(r.value.0) && text[p..r.value.1] in {"true", "false", "null"})
      && (r.Ok? && text[p..r.value.1] == "true" ==> r.value.0 == OfBool(true))
      && (r.Ok? && text[p..r.value.1] == "false" ==> r.value.0 == OfBool(false))
      && (r.Ok? && text[p..r.value.1] == "null" ==> r.value.0 == Default())
      && (r.Err? ==> r.error == InvalidLiteral)
  {
  }

  // ---------------------------------------------------------------------
  // Numbers

  /** The end of the run of digits at `i`. */
  function DigitsEnd(text: string, i: nat): (j: nat)
    requires i <= |text|
    ensures i <= j <= |text|
    decreases |text| - i
  {
    if i == |text| || !IsDigit(text[i]) then i else DigitsEnd(text, i + 1)
  }

  /** After the optional leading minus. */
  function SignEnd(text: string, p: nat): nat
    requires p <= |text|
  {
    if p < |text| && text[p] == '-' then p + 1 else p
  }

  /** After the optional fraction `.digit*` at `b`. */
  function FractionEnd(text: string, b: nat): (c: nat)
    requires b <= |text|
    ensures b <= c <= |text|
  {
    if b < |text| && text[b] == '.' then DigitsEnd(text, b + 1) else b
  }

  /** After the optional exponent `[eE][+-]?digit*` at `c`. */
  function ExponentEnd(text: string, c: nat): (e: nat)
    requires c <= |text|
    ensures c <= e <= |text|
  {
    if c < |text| && (text[c] == 'e' || text[c] == 'E') then
      var s := if c + 1 < |text| && (text[c + 1] == '+' || text[c + 1] == '-') then c + 2 else c + 1;
      DigitsEnd(text, s)
    else c
  }

  /** The end of the literal `parseNumber` captures greedily from `p`. */
  function NumberEnd(text: string, p: nat): (e: nat)
    requires p <= |text|
    ensures p <= e <= |text|
  {
    ExponentEnd(text, FractionEnd(text, DigitsEnd(text, SignEnd(text, p))))
  }

  /** `strtod` converts something only if the mantissa holds a digit. */
  predicate HasMantissaDigit(lex: string)
  {
    exists k | 0 <= k < |lex| :: IsDigit(lex[k]) && forall m | 0 <= m < k :: lex[m] != 'e' && lex[m] != 'E'
  }

  function DoubleExactNat(m: nat): bool
  {
    if m <= 0x20_0000_0000_0000 then true else m % 2 == 0 && DoubleExactNat(m / 2)
  }

  /**
   * The integer `n` is a value of type `double`: |n| is at most 2^53, or
   * it is even and its half is one.
   */
  predicate DoubleExact(n: int)
  {
    -0x20_0000_0000_0000 <= n <= 0x20_0000_0000_0000 || DoubleExactNat(if n < 0 then -n else n)
  }

  /** The literal has no `.`, `e` or `E` (the test at load.cpp:91). */
  predicate IntegerShaped(lex: string)
  {
    '.' !in lex && 'e' !in lex && 'E' !in lex
  }

  /**
   * The integer test at load.cpp:91-97: `std::to_string` of the `int64_t`
   * cast of `stod(lex)` gives back `lex`.  That happens exactly when `lex`
   * is the canonical decimal text of an integer that is in the `int64_t`
   * range and that `stod` produces exactly (a double-representable
   * integer).
   */
  predicate IsInt64Literal(lex: string)
  {
    && lex != []
    && (if lex[0] == '-' then AllDigits(lex[1..]) else AllDigits(lex))
    && var n := SignedDigitsValue(lex);
       -0x8000_0000_0000_0000 <= n < 0x8000_0000_0000_0000 && DoubleExact(n) && IntToString(n) == lex
  }

  /** What `parseNumber` makes of the captured literal. */
  function ClassifyNumber(lex: string, stod: Stod): Result<JsonValue, ParseError>
  {
    if !HasMantissaDigit(lex) then Err(InvalidNumber)
    else if IntegerShaped(lex) && IsInt64Literal(lex) then Ok(OfInt(SignedDigitsValue(lex)))
    else Ok(OfDouble(stod(lex)))
  }

  /**
   * The literal is rejected exactly when `stod` finds no digit; otherwise
   * it is a number, an `int64_t` only when the decimal text of that
   * integer is the literal itself, and a double holding `stod(lex)` in
   * every other case.
   */
  lemma ClassifyNumberSpec(lex: string, stod: Stod)
    ensures var r := ClassifyNumber(lex, stod);
      && (r.Err? <==> !HasMantissaDigit(lex))
      && (r.Err? ==> r.error == InvalidNumber)
      && (r.Ok? ==> r.value.IsNumber() && Wf(r.value))
      && (r.Ok? && r.value.data_.IntData? ==> IntegerShaped(lex) && IntToString(r.value.data_.i) == lex)
      && (r.Ok? && r.value.data_.DoubleData? ==> r.value.data_.d == stod(lex))
      && (r.Ok? ==> (r.value.data_.IntData? <==> IntegerShaped(lex) && IsInt64Literal(lex)))
  {
  }

  /** `parseNumber` as a function. */
  function NumberAt(text: string, pos: nat, stod: Stod): (r: Parsed<JsonValue>)
    requires pos <= |text|
    ensures r.Ok? ==> pos < r.value.1 <= |text|
  {
    var p := SkipWs(text, pos);
    if p == |text| then Err(TruncatedInput)
    else
      var e := NumberEnd(text, p);
      match ClassifyNumber(text[p..e], stod)
      case Ok(v) => Ok((v, e))
      case Err(x) => Err(x)
  }

  /**
   * What `std::to_string` writes for an `int64_t` that a double holds
   * exactly is read back as that integer, with the integer payload.
   */
  lemma IntLiteralRoundTrip(i: int64, stod: Stod)
    requires DoubleExact(i)
    ensures ClassifyNumber(IntToString(i), stod) == Ok(OfInt(i))
  {
    var n: int := i;
    var lex := IntToString(n);
    IntToStringRoundTrip(n);
    var digits := if n < 0 then lex[1..] else lex;
    assert digits == NatToString(if n < 0 then -n else n);
    var k := if i < 0 then 1 else 0;
    assert IsDigit(lex[k]) && forall m | 0 <= m < k :: lex[m] == '-';
    assert HasMantissaDigit(lex);
    assert forall m | 0 <= m < |lex| :: lex[m] == '-' || IsDigit(lex[m]) by {
      forall m | 0 <= m < |lex| ensures lex[m] == '-' || IsDigit(lex[m]) {
        if i < 0 && m > 0 {
          assert lex[m] == digits[m - 1];
        }
      }
    }
    assert IntegerShaped(lex);
  }

  /** The integer test on a sample literal: `42` prints as itself, so it is an integer. */
  lemma IntegerExample(stod: Stod)
    ensures ClassifyNumber("42", stod) == Ok(OfInt(42))
  {
    assert IsDigit("42"[0]);
    assert NatToString(42) == NatToString(4) + "2";
    assert DigitsValue("42") == 42 by {
      assert "42"[..1] == "4";
    }
  }

  /**
   * Literals whose integer does not print as the literal are doubles:
   * `007` (leading zeros) prints as `7` and `-0` as `0`.
   */
  lemma NonCanonicalExamples(stod: Stod)
    ensures ClassifyNumber("007", stod) == Ok(OfDouble(stod("007")))
    ensures ClassifyNumber("-0", stod) == Ok(OfDouble(stod("-0")))
  {
    assert IsDigit("007"[0]);
    assert NatToString(7) == "7";
    assert DigitsValue("007") == 7 by {
      assert "007"[..2] == "00" && "00"[..1] == "0";
    }
    assert IsDigit("-0"[1]) && "-0"[1..] == "0";
    assert DigitsValue("0") == 0 by {
      assert "0"[..0] == "";
    }
  }

  /** `42.0` has a point and is a double; a lone `-` has no digit and is rejected. */
  lemma ShapeExamples(stod: Stod)
    ensures ClassifyNumber("42.0", stod) == Ok(OfDouble(stod("42.0")))
    ensures ClassifyNumber("-", stod) == Err(InvalidNumber)
  {
    assert IsDigit("42.0"[0]) && '.' == "42.0"[2];
  }

  /** One of the digit loops of `parseNumber`: consumes the digits at `i` into `numStr`. */
  method ConsumeDigits(text: string, i: nat, numStr: string) returns (j: nat, numStr': string)
    requires i <= |text|
    ensures j == DigitsEnd(text, i)
    ensures numStr' == numStr + text[i..j]
  {
    j, numStr' := i, numStr;
    while j < |text| && IsDigit(text[j])
      invariant i <= j <= |text|
      invariant numStr' == numStr + text[i..j]
      invariant DigitsEnd(text, j) == DigitsEnd(text, i)
    {
      numStr', j := numStr' + [text[j]], j + 1;
    }
  }

  lemma SliceJoin(text: string, a: nat, b: nat, c: nat)
    requires a <= b <= c <= |text|
    ensures text[a..b] + text[b..c] == text[a..c]
  {
  }

  lemma SliceSnoc(text: string, a: nat, b: nat)
    requires a <= b < |text|
    ensures text[a..b] + [text[b]] == text[a..b + 1]
  {
  }

  /** The fraction step of `parseNumber`: a `.` and the digits after it, if present. */
  method ConsumeFraction(text: string, b: nat, numStr: string) returns (j: nat, numStr': string)
    requires b <= |text|
    ensures j == FractionEnd(text, b)
    ensures numStr' == numStr + text[b..j]
  {
    j, numStr' := b, numStr;
    if j < |text| && text[j] == '.' {
      numStr', j := numStr' + ['.'], j + 1;
      var d;
      d, numStr' := ConsumeDigits(text, j, numStr');
      assert text[b..d] == [text[b]] + text[j..d];
      j := d;
    }
  }

  /** The exponent step of `parseNumber`: `e` or `E`, an optional sign and the digits, if present. */
  method ConsumeExponent(text: string, c: nat, numStr: string) returns (j: nat, numStr': string)
    requires c <= |text|
    ensures j == ExponentEnd(text, c)
    ensures numStr' == numStr + text[c..j]
  {
    j, numStr' := c, numStr;
    if j < |text| && (text[j] == 'E' || text[j] == 'e') {
      numStr', j := numStr' + [text[j]], j + 1;
      if j < |text| && (text[j] == '+' || text[j] == '-') {
        numStr', j := numStr' + [text[j]], j + 1;
      }
      assert numStr' == numStr + text[c..j];
      var s := j;
      j, numStr' := ConsumeDigits(text, j, numStr');
      SliceJoin(text, c, s, j);
    }
  }

  /** The capture of `parseNumber`: sign, digits, fraction and exponent, as `numStr`. */
  method CaptureNumber(text: string, p: nat) returns (i: nat, numStr: string)
    requires p < |text|
    ensures i == NumberEnd(text, p) && numStr == text[p..i]
  {
    i := p;
    numStr := "";
    if text[i] == '-' {
      numStr, i := numStr + ['-'], i + 1;
    }
    assert i == SignEnd(text, p) && numStr == text[p..i];
    var a := i;
    i, numStr := ConsumeDigits(text, i, numStr);
    SliceJoin(text, p, a, i);
    a := i;
    i, numStr := ConsumeFraction(text, i, numStr);
    SliceJoin(text, p, a, i);
    a := i;
    i, numStr := ConsumeExponent(text, i, numStr);
    SliceJoin(text, p, a, i);
  }

  /** `parseNumber`: captures the literal, then classifies it. */
  method ParseNumber(text: string, pos: nat, stod: Stod) returns (r: Parsed<JsonValue>)
    requires pos <= |text|
    ensures r == NumberAt(text, pos, stod)
  {
    var p := SkipWhitespace(text, pos);
    if p == |text| {
      return Err(TruncatedInput);
    }
    var i, numStr := CaptureNumber(text, p);
    var v := ClassifyNumber(numStr, stod);
    match v
    case Ok(x) => r := Ok((x, i));
    case Err(x) => r := Err(x);
  }

  // ---------------------------------------------------------------------
  // Strings

  /** The character a one-character escape `\esc` stands for. */
  function SimpleEscape(esc: char): Option<char>
  {
    match esc
    case '"' => Some('"')
    case '\\' => Some('\\')
    case '/' => Some('/')
    case 'b' => Some(8 as char)
    case 'f' => Some(12 as char)
    case 'n' => Some('\n')
    case 'r' => Some('\r')
    case 't' => Some('\t')
    case _ => None
  }

  /**
   * The amount one character adds to a `\u` escape (load.cpp:146-150): a
   * digit its value, any letter its position in the alphabet plus 10 (so
   * `z` adds 35), anything else nothing.
   */
  function HexDigitValue(ch: char): (d: nat)
    ensures d <= 35
  {
    if IsDigit(ch) then ch as int - '0' as int
    else if 'a' <= ch <= 'z' then ch as int - 'a' as int + 10
    else if 'A' <= ch <= 'Z' then ch as int - 'A' as int + 10
    else 0
  }

  /** The value the shift-and-add loop builds from the characters of `h`, left to right. */
  function HexValue(h: string): nat
  {
    if h == [] then 0 else HexValue(h[..|h| - 1]) * 16 + HexDigitValue(h[|h| - 1])
  }

  /** The conversion loop over the four characters of a `\u` escape. */
  method HexToInt(hex: string) returns (value: nat)
    ensures value == HexValue(hex)
  {
    value := 0;
    for k := 0 to |hex|
      invariant value == HexValue(hex[..k])
    {
      assert hex[..k + 1][..k] == hex[..k];
      value := value * 16 + HexDigitValue(hex[k]);
    }
    assert hex[..|hex|] == hex;
  }

  /** A hexadecimal digit in the usual sense. */
  predicate IsHexDigit(c: char)
  {
    IsDigit(c) || 'a' <= c <= 'f' || 'A' <= c <= 'F'
  }

  /**
   * Four escape characters give at most 35 * 0x1111 = 0x25553, not 0xFFFF:
   * the letters g-z count as digits 16-35.
   */
  lemma {:induction false} HexValueBound(h: string)
    ensures HexValue(h) * 15 <= 35 * (Pow16(|h|) - 1)
    ensures (forall k | 0 <= k < |h| :: IsHexDigit(h[k])) ==> HexValue(h) < Pow16(|h|)
  {
    if h != [] {
      var h' := h[..|h| - 1];
      HexValueBound(h');
      assert forall k | 0 <= k < |h'| :: h'[k] == h[k];
    }
  }

  function Pow16(n: nat): (r: nat)
    ensures r > 0
  {
    if n == 0 then 1 else 16 * Pow16(n - 1)
  }

  /** The escape `\uzzzz` is accepted and stands for 0x25553, beyond 0xFFFF. */
  lemma NonHexEscapeValue()
    ensures HexValue("zzzz") == 0x25553
    ensures HexValue("00e9") == 0xE9
  {
    assert "zzzz"[..3] == "zzz" && "zzz"[..2] == "zz" && "zz"[..1] == "z";
    assert "00e9"[..3] == "00e" && "00e"[..2] == "00" && "00"[..1] == "0";
  }

  /** Puts `pre` in front of the text of a successful partial result. */
  function Prepend(pre: string, r: Parsed<string>): (r': Parsed<string>)
    ensures pre == [] ==> r' == r
  {
    match r
    case Ok((s, e)) => assert pre == [] ==> pre + s == s; Ok((pre + s, e))
    case Err(x) => Err(x)
  }

  lemma PrependPrepend(a: string, b: string, r: Parsed<string>)
    ensures Prepend(a, Prepend(b, r)) == Prepend(a + b, r)
  {
    if r.Ok? {
      assert a + (b + r.value.0) == (a + b) + r.value.0;
    }
  }

  /**
   * The escape whose letter is at `i` (just after the backslash): the
   * bytes it stands for and the cursor after it.
   */
  function EscapeAt(text: string, i: nat): (r: Parsed<string>)
    requires i <= |text|
    ensures r.Ok? ==> i < r.value.1 <= |text|
  {
    if i == |text| then Err(UnexpectedEndOfString)
    else
      var esc := text[i];
      if SimpleEscape(esc).Some? then Ok(([SimpleEscape(esc).value], i + 1))
      else if esc != 'u' then Err(InvalidEscape)
      else if |text| - (i + 1) < 4 then Err(InvalidUnicodeEscape)
      else Ok((ByteChars(Utf8Of(HexValue(text[i + 1..i + 5]))), i + 5))
  }

  /** The `switch` on the escape letter of `parseString`. */
  method DecodeEscape(text: string, i: nat) returns (r: Parsed<string>)
    requires i <= |text|
    ensures r == EscapeAt(text, i)
  {
    if i == |text| {
      return Err(UnexpectedEndOfString);
    }
    var esc := text[i];
    match SimpleEscape(esc)
    case Some(ch) =>
      r := Ok(([ch], i + 1));
    case None =>
      if esc != 'u' {
        return Err(InvalidEscape);
      }
      if |text| - (i + 1) < 4 {
        return Err(InvalidUnicodeEscape);
      }
      var hex := text[i + 1..i + 5];
      var value := HexToInt(hex);
      r := Ok((ByteChars(Utf8Of(value)), i + 5));
  }

  /**
   * The body of a string literal from `i` (after the opening quote) to
   * the closing quote: its decoded text and the cursor after the quote.
   * Running out of input without a closing quote makes the source step
   * past the end of the view; that is `TruncatedInput`.
   */
  function CharsFrom(text: string, i: nat): (r: Parsed<string>)
    requires i <= |text|
    ensures r.Ok? ==> i < r.value.1 <= |text|
    decreases |text| - i, 1
  {
    if i == |text| then Err(TruncatedInput)
    else if text[i] == '"' then Ok(([], i + 1))
    else if text[i] != '\\' then Prepend([text[i]], CharsFrom(text, i + 1))
    else CharsAfterEscape(text, i, EscapeAt(text, i + 1))
  }

  /** The rest of a string body after the escape at `i`, decoded as `esc`. */
  function CharsAfterEscape(text: string, i: nat, esc: Parsed<string>): (r: Parsed<string>)
    requires i <= |text| && (esc.Ok? ==> i < esc.value.1 <= |text|)
    ensures r.Ok? ==> i < r.value.1 <= |text|
    decreases |text| - i, 0
  {
    match esc
    case Err(x) => Err(x)
    case Ok((s, e)) => Prepend(s, CharsFrom(text, e))
  }

  /**
   * The escape table of `parseString`: the eight one-letter escapes give
   * one byte each, `\u` with four characters left gives the 1 to 4 bytes
   * of `Utf8Of` and moves past all four, and everything else fails with
   * the error the source throws.
   */
  lemma EscapeAtSpec(text: string, i: nat)
    requires i <= |text|
    ensures var r := EscapeAt(text, i);
      && (i == |text| ==> r == Err(UnexpectedEndOfString))
      && (i < |text| && text[i] in "\"\\/" ==> r == Ok(([text[i]], i + 1)))
      && (i < |text| && text[i] == 'b' ==> r == Ok(([8 as char], i + 1)))
      && (i < |text| && text[i] == 'f' ==> r == Ok(([12 as char], i + 1)))
      && (i < |text| && text[i] == 'n' ==> r == Ok((['\n'], i + 1)))
      && (i < |text| && text[i] == 'r' ==> r == Ok((['\r'], i + 1)))
      && (i < |text| && text[i] == 't' ==> r == Ok((['\t'], i + 1)))
      && (i < |text| && text[i] !in "\"\\/bfnrtu" ==> r == Err(InvalidEscape))
      && (i < |text| && text[i] == 'u' && |text| < i + 5 ==> r == Err(InvalidUnicodeEscape))
      && (i < |text| && text[i] == 'u' && i + 5 <= |text| ==>
            r.Ok? && r.value.1 == i + 5 && 1 <= |r.value.0| <= 4
            && r.value.0 == ByteChars(Utf8Of(HexValue(text[i + 1..i + 5]))))
  {
    if i < |text| && text[i] == 'u' && i + 5 <= |text| {
      Utf8OfLength(HexValue(text[i + 1..i + 5]));
    }
  }

  /** A failing string body fails with one of the four errors the string reader can raise. */
  lemma {:induction false} CharsFromErrors(text: string, i: nat)
    requires i <= |text|
    ensures CharsFrom(text, i).Err? ==>
      CharsFrom(text, i).error in {TruncatedInput, UnexpectedEndOfString, InvalidEscape, InvalidUnicodeEscape}
    decreases |text| - i
  {
    if i < |text| && text[i] != '"' {
      if text[i] != '\\' {
        CharsFromErrors(text, i + 1);
      } else {
        var esc := EscapeAt(text, i + 1);
        if esc.Ok? {
          CharsFromErrors(text, esc.value.1);
        }
      }
    }
  }

  /** A string body that is read successfully ends just after a quote. */
  lemma {:induction false} CharsFromCloses(text: string, i: nat)
    requires i <= |text|
    ensures CharsFrom(text, i).Ok? ==> text[CharsFrom(text, i).value.1 - 1] == '"'
    decreases |text| - i
  {
    if i < |text| && text[i] != '"' {
      if text[i] != '\\' {
        CharsFromCloses(text, i + 1);
      } else {
        var esc := EscapeAt(text, i + 1);
        if esc.Ok? {
          CharsFromCloses(text, esc.value.1);
        }
      }
    }
  }

  /** Characters other than a quote or a backslash are copied as they are. */
  lemma {:induction false} CharsFromPlain(text: string, i: nat, j: nat)
    requires i <= j < |text| && text[j] == '"'
    requires forall k | i <= k < j :: text[k] != '"' && text[k] != '\\'
    ensures CharsFrom(text, i) == Ok((text[i..j], j + 1))
    decreases j - i
  {
    if i < j {
      assert text[i] != '"' && text[i] != '\\';
      CharsFromPlain(text, i + 1, j);
      assert CharsFrom(text, i) == Prepend([text[i]], Ok((text[i + 1..j], j + 1)));
      assert [text[i]] + text[i + 1..j] == text[i..j];
    } else {
      assert text[i..j] == [] && CharsFrom(text, i) == Ok(([], j + 1));
    }
  }

  /** `parseString` as a function. */
  function StringAt(text: string, pos: nat): (r: Parsed<JsonValue>)
    requires pos <= |text|
    ensures r.Ok? ==> pos < r.value.1 <= |text|
  {
    var p := SkipWs(text, pos);
    if p == |text| || text[p] != '"' then Err(ExpectedString)
    else
      match CharsFrom(text, p + 1)
      case Ok((s, e)) => Ok((OfString(s), e))
      case Err(x) => Err(x)
  }

  /** The loop of `parseString` over the body of the literal, decoding escapes into `result`. */
  method ParseChars(text: string, start: nat) returns (r: Parsed<string>)
    requires start <= |text|
    ensures r == CharsFrom(text, start)
  {
    var i := start;
    var result := "";
    while i < |text| && text[i] != '"'
      invariant start <= i <= |text|
      invariant Prepend(result, CharsFrom(text, i)) == CharsFrom(text, start)
      decreases |text| - i
    {
      if text[i] == '\\' {
        var esc := DecodeEscape(text, i + 1);
        if esc.Err? {
          return Err(esc.error);
        }
        var (s, e) := esc.value;
        PrependPrepend(result, s, CharsFrom(text, e));
        result, i := result + s, e;
      } else {
        PrependPrepend(result, [text[i]], CharsFrom(text, i + 1));
        result, i := result + [text[i]], i + 1;
      }
    }
    if i == |text| {
      return Err(TruncatedInput);
    }
    assert result + [] == result;
    r := Ok((result, i + 1));
  }

  /** `parseString`: the opening quote, then the body. */
  method ParseString(text: string, pos: nat) returns (r: Parsed<JsonValue>)
    requires pos <= |text|
    ensures r == StringAt(text, pos)
  {
    var p := SkipWhitespace(text, pos);
    if p == |text| || text[p] != '"' {
      return Err(ExpectedString);
    }
    var chars := ParseChars(text, p + 1);
    if chars.Err? {
      return Err(chars.error);
    }
    r := Ok((OfString(chars.value.0), chars.value.1));
  }

  /**
   * `parseString` fails with "Expected string literal" exactly when no
   * quote follows the whitespace; a literal it reads is a string value
   * and ends at a closing quote.
   */
  lemma StringAtSpec(text: string, pos: nat)
    requires pos <= |text|
    ensures var p := SkipWs(text, pos); var r := StringAt(text, pos);
      && (r == Err(ExpectedString) <==> p == |text| || text[p] != '"')
      && (r.Ok? ==> r.value.0.IsString() && p + 1 < r.value.1 && text[r.value.1 - 1] == '"')
  {
    var p := SkipWs(text, pos);
    if p < |text| && text[p] == '"' {
      CharsFromErrors(text, p + 1);
      CharsFromCloses(text, p + 1);
    }
  }

  // ---------------------------------------------------------------------
  // Objects, arrays and values.  The three are mutually recursive; the
  // cursor never moves backwards and every successful parse consumes at
  // least one character, which is what makes the recursion terminate.
  // The contracts of these functions say only that; what they build is
  // described by the lemmas after them.

  /**
   * The members of an object from the key at `pos` to the closing brace,
   * added to `ms` one by one with `Put` (`obj->keys()[key] = value`: a
   * repeated key keeps its place and takes the later value).
   */
  function MembersFrom(text: string, pos: nat, ms: seq<Member>, stod: Stod): (r: Parsed<seq<Member>>)
    requires pos <= |text|
    ensures r.Ok? ==> pos < r.value.1 <= |text|
    decreases |text| - pos, 5
  {
    MembersAfter(text, pos, MemberAt(text, pos, stod), ms, stod)
  }

  /** The rest of a round of the object loop, once the member at `pos` has been read as `m`. */
  function MembersAfter(text: string, pos: nat, m: Parsed<Member>, ms: seq<Member>, stod: Stod): (r: Parsed<seq<Member>>)
    requires pos <= |text| && (m.Ok? ==> pos < m.value.1 <= |text|)
    ensures r.Ok? ==> pos < r.value.1 <= |text|
    decreases |text| - pos, 3
  {
    match m
    case Err(x) => Err(x)
    case Ok((m, e)) =>
      var q := SkipWs(text, e);
      if q == |text| then Err(TruncatedInput)
      else if text[q] == '}' then Ok((Put(ms, m.key, m.value), q + 1))
      else if text[q] == ',' then MembersFrom(text, SkipWs(text, q + 1), Put(ms, m.key, m.value), stod)
      else Err(ExpectedCommaOrBrace)
  }

  /** One `key : value` pair of an object. */
  function MemberAt(text: string, pos: nat, stod: Stod): (r: Parsed<Member>)
    requires pos <= |text|
    ensures r.Ok? ==> pos < r.value.1 <= |text|
    decreases |text| - pos, 4
  {
    MemberAfterKey(text, pos, StringAt(text, pos), stod)
  }

  /** The colon and the value of a member whose key at `pos` has been read as `key`. */
  function MemberAfterKey(text: string, pos: nat, key: Parsed<JsonValue>, stod: Stod): (r: Parsed<Member>)
    requires pos <= |text| && (key.Ok? ==> pos < key.value.1 <= |text|)
    ensures r.Ok? ==> pos < r.value.1 <= |text|
    decreases |text| - pos, 3
  {
    match key
    case Err(x) => Err(x)
    case Ok((k, e)) =>
      // `isString()`, and the string alternative that `asString()` reads
      if !k.IsString() || !k.data_.StringData? then Err(ExpectedStringKey)
      else
        var q := SkipWs(text, e);
        if q == |text| then Err(TruncatedInput)
        else if text[q] != ':' then Err(ExpectedColon)
        else MemberOf(k.data_.s, ValueAt(text, q + 1, stod))
  }

  /** The member made from a key and a parsed value; errors pass through. */
  function MemberOf(key: string, v: Parsed<JsonValue>): Parsed<Member>
  {
    match v
    case Err(x) => Err(x)
    case Ok((v, e)) => Ok((Member(key, v), e))
  }

  /** The object value made from parsed members; errors pass through. */
  function AsObject(r: Parsed<seq<Member>>): Parsed<JsonValue>
  {
    match r
    case Err(x) => Err(x)
    case Ok((ms, e)) => Ok((OfObject(ms), e))
  }

  /** `parseObject` as a function. */
  function ObjectAt(text: string, pos: nat, stod: Stod): (r: Parsed<JsonValue>)
    requires pos <= |text|
    ensures r.Ok? ==> pos < r.value.1 <= |text|
    decreases |text| - pos, 1
  {
    var p := SkipWs(text, pos);
    if p == |text| || text[p] != '{' then Err(ExpectedObjectStart)
    else
      var q := SkipWs(text, p + 1);
      if q == |text| then Err(TruncatedInput)
      else if text[q] == '}' then Ok((OfObject([]), q + 1))
      else AsObject(MembersFrom(text, q, [], stod))
  }

  /** The elements of an array from the first element at `pos` to the closing bracket, after `es`. */
  function ElementsFrom(text: string, pos: nat, es: seq<JsonValue>, stod: Stod): (r: Parsed<seq<JsonValue>>)
    requires pos <= |text|
    ensures r.Ok? ==> pos < r.value.1 <= |text|
    decreases |text| - pos, 4
  {
    ElementsAfter(text, pos, ValueAt(text, pos, stod), es, stod)
  }

  /** The rest of a round of the array loop, once the element at `pos` has been read as `v`. */
  function ElementsAfter(text: string, pos: nat, v: Parsed<JsonValue>, es: seq<JsonValue>, stod: Stod): (r: Parsed<seq<JsonValue>>)
    requires pos <= |text| && (v.Ok? ==> pos < v.value.1 <= |text|)
    ensures r.Ok? ==> pos < r.value.1 <= |text|
    decreases |text| - pos, 3
  {
    match v
    case Err(x) => Err(x)
    case Ok((v, e)) =>
      var q := SkipWs(text, e);
      if q == |text| then Err(TruncatedInput)
      else if text[q] == ']' then Ok((es + [v], q + 1))
      else if text[q] == ',' then ElementsFrom(text, SkipWs(text, q + 1), es + [v], stod)
      else Err(ExpectedCommaOrBracket)
  }

  /** The array value made from parsed elements; errors pass through. */
  function AsArray(r: Parsed<seq<JsonValue>>): Parsed<JsonValue>
  {
    match r
    case Err(x) => Err(x)
    case Ok((es, e)) => Ok((OfArray(es), e))
  }

  /** `parseArray` as a function. */
  function ArrayAt(text: string, pos: nat, stod: Stod): (r: Parsed<JsonValue>)
    requires pos <= |text|
    ensures r.Ok? ==> pos < r.value.1 <= |text|
    decreases |text| - pos, 1
  {
    var p := SkipWs(text, pos);
    if p == |text| || text[p] != '[' then Err(ExpectedArrayStart)
    else
      var q := SkipWs(text, p + 1);
      if q == |text| then Err(TruncatedInput)
      else if text[q] == ']' then Ok((OfArray([]), q + 1))
      else AsArray(ElementsFrom(text, q, [], stod))
  }

  /** `parseValue` as a function: dispatch on the first non-space character. */
  function ValueAt(text: string, pos: nat, stod: Stod): (r: Parsed<JsonValue>)
    requires pos <= |text|
    ensures r.Ok? ==> pos < r.value.1 <= |text|
    decreases |text| - pos, 2
  {
    var p := SkipWs(text, pos);
    if p == |text| then Err(UnexpectedEndOfInput)
    else
      var c := text[p];
      if c == '{' then ObjectAt(text, p, stod)
      else if c == '[' then ArrayAt(text, p, stod)
      else if c == '"' then StringAt(text, p)
      else if c == 't' || c == 'f' || c == 'n' then LiteralAt(text, p)
      else if c == '-' || IsDigit(c) then NumberAt(text, p, stod)
      else Err(UnexpectedCharacter)
  }

  // What the reader builds is well formed: tags agree with payloads and
  // every object has distinct keys (because members go in through `Put`).

  lemma {:induction false} ValueAtWf(text: string, pos: nat, stod: Stod)
    requires pos <= |text|
    ensures ValueAt(text, pos, stod).Ok? ==> Wf(ValueAt(text, pos, stod).value.0)
    decreases |text| - pos, 2
  {
    var p := SkipWs(text, pos);
    if p < |text| {
      if text[p] == '{' {
        ObjectAtWf(text, p, stod);
      } else if text[p] == '[' {
        ArrayAtWf(text, p, stod);
      }
    }
  }

  lemma {:induction false} ObjectAtWf(text: string, pos: nat, stod: Stod)
    requires pos <= |text|
    ensures ObjectAt(text, pos, stod).Ok? ==> ObjectAt(text, pos, stod).value.0.IsObject() && Wf(ObjectAt(text, pos, stod).value.0)
    decreases |text| - pos, 1
  {
    var p := SkipWs(text, pos);
    if p < |text| && text[p] == '{' {
      var q := SkipWs(text, p + 1);
      if q < |text| && text[q] != '}' {
        MembersFromWf(text, q, [], stod);
      }
    }
  }

  lemma {:induction false} MembersFromWf(text: string, pos: nat, ms: seq<Member>, stod: Stod)
    requires pos <= |text|
    ensures MembersFrom(text, pos, ms, stod).Ok? && MembersWf(ms) ==> MembersWf(MembersFrom(text, pos, ms, stod).value.0)
    decreases |text| - pos, 5
  {
    MemberAtWf(text, pos, stod);
    MembersAfterWf(text, pos, MemberAt(text, pos, stod), ms, stod);
  }

  lemma {:induction false} MembersAfterWf(text: string, pos: nat, m: Parsed<Member>, ms: seq<Member>, stod: Stod)
    requires pos <= |text| && (m.Ok? ==> pos < m.value.1 <= |text|)
    requires m.Ok? ==> Wf(m.value.0.value)
    ensures MembersAfter(text, pos, m, ms, stod).Ok? && MembersWf(ms) ==> MembersWf(MembersAfter(text, pos, m, ms, stod).value.0)
    decreases |text| - pos, 3
  {
    if m.Ok? && MembersWf(ms) {
      var (m, e) := m.value;
      PutWf(ms, m.key, m.value);
      var q := SkipWs(text, e);
      if q < |text| && text[q] == ',' {
        MembersFromWf(text, SkipWs(text, q + 1), Put(ms, m.key, m.value), stod);
      }
    }
  }

  lemma {:induction false} MemberAtWf(text: string, pos: nat, stod: Stod)
    requires pos <= |text|
    ensures MemberAt(text, pos, stod).Ok? ==> Wf(MemberAt(text, pos, stod).value.0.value)
    decreases |text| - pos, 4
  {
    MemberAfterKeyWf(text, pos, StringAt(text, pos), stod);
  }

  lemma {:induction false} MemberAfterKeyWf(text: string, pos: nat, key: Parsed<JsonValue>, stod: Stod)
    requires pos <= |text| && (key.Ok? ==> pos < key.value.1 <= |text|)
    ensures MemberAfterKey(text, pos, key, stod).Ok? ==> Wf(MemberAfterKey(text, pos, key, stod).value.0.value)
    decreases |text| - pos, 3
  {
    if key.Ok? {
      var q := SkipWs(text, key.value.1);
      if q < |text| {
        ValueAtWf(text, q + 1, stod);
      }
    }
  }

  lemma {:induction false} ArrayAtWf(text: string, pos: nat, stod: Stod)
    requires pos <= |text|
    ensures ArrayAt(text, pos, stod).Ok? ==> ArrayAt(text, pos, stod).value.0.IsArray() && Wf(ArrayAt(text, pos, stod).value.0)
    decreases |text| - pos, 1
  {
    var p := SkipWs(text, pos);
    if p < |text| && text[p] == '[' {
      var q := SkipWs(text, p + 1);
      if q < |text| && text[q] != ']' {
        ElementsFromWf(text, q, [], stod);
      }
    }
  }

  lemma {:induction false} ElementsFromWf(text: string, pos: nat, es: seq<JsonValue>, stod: Stod)
    requires pos <= |text|
    ensures ElementsFrom(text, pos, es, stod).Ok? && AllWf(es) ==> AllWf(ElementsFrom(text, pos, es, stod).value.0)
    decreases |text| - pos, 4
  {
    ValueAtWf(text, pos, stod);
    ElementsAfterWf(text, pos, ValueAt(text, pos, stod), es, stod);
  }

  lemma {:induction false} ElementsAfterWf(text: string, pos: nat, v: Parsed<JsonValue>, es: seq<JsonValue>, stod: Stod)
    requires pos <= |text| && (v.Ok? ==> pos < v.value.1 <= |text|)
    requires v.Ok? ==> Wf(v.value.0)
    ensures ElementsAfter(text, pos, v, es, stod).Ok? && AllWf(es) ==> AllWf(ElementsAfter(text, pos, v, es, stod).value.0)
    decreases |text| - pos, 3
  {
    if v.Ok? && AllWf(es) {
      var (v, e) := v.value;
      assert AllWf(es + [v]);
      var q := SkipWs(text, e);
      if q < |text| && text[q] == ',' {
        ElementsFromWf(text, SkipWs(text, q + 1), es + [v], stod);
      }
    }
  }

  /**
   * `parseValue` fails on input that is empty after whitespace, fails on a
   * character that starts no value, and otherwise the kind of what it
   * reads is fixed by the first character: `{` an object, `[` an array,
   * `"` a string, `t`/`f`/`n` a boolean or null, `-` or a digit a number.
   */
  lemma ValueAtDispatch(text: string, pos: nat, stod: Stod)
    requires pos <= |text|
    ensures var p := SkipWs(text, pos); var r := ValueAt(text, pos, stod);
      && (p == |text| ==> r == Err(UnexpectedEndOfInput))
      && (p < |text| && text[p] !in "{[\"tfn-" && !IsDigit(text[p]) ==> r == Err(UnexpectedCharacter))
      && (r.Ok? ==> p < |text| && Wf(r.value.0))
      && (r.Ok? ==> (r.value.0.IsObject() <==> text[p] == '{'))
      && (r.Ok? ==> (r.value.0.IsArray() <==> text[p] == '['))
      && (r.Ok? ==> (r.value.0.IsString() <==> text[p] == '"'))
      && (r.Ok? ==> (r.value.0.IsBoolean() || r.value.0.IsNull() <==> text[p] in "tfn"))
      && (r.Ok? ==> (r.value.0.IsNumber() <==> text[p] == '-' || IsDigit(text[p])))
  {
    ValueAtWf(text, pos, stod);
    var p := SkipWs(text, pos);
    SkipWsIdempotent(text, pos);
    if p < |text| {
      var c := text[p];
      if c == '{' {
        ObjectAtWf(text, p, stod);
      } else if c == '[' {
        ArrayAtWf(text, p, stod);
      } else if c == 't' || c == 'f' || c == 'n' {
        LiteralAtSpec(text, p);
      } else if c == '-' || IsDigit(c) {
        var e := NumberEnd(text, p);
        ClassifyNumberSpec(text[p..e], stod);
      }
    }
  }

  /** The members of an object as written, from the key at `pos` to the closing brace, repeats included. */
  function WrittenMembers(text: string, pos: nat, stod: Stod): (r: Parsed<seq<Member>>)
    requires pos <= |text|
    ensures r.Ok? ==> pos < r.value.1 <= |text|
    decreases |text| - pos
  {
    match MemberAt(text, pos, stod)
    case Err(x) => Err(x)
    case Ok((m, e)) =>
      var q := SkipWs(text, e);
      if q == |text| then Err(TruncatedInput)
      else if text[q] == '}' then Ok(([m], q + 1))
      else if text[q] == ',' then WithPrefix([m], WrittenMembers(text, SkipWs(text, q + 1), stod))
      else Err(ExpectedCommaOrBrace)
  }

  /** Puts `pre` in front of the list of a successful partial result. */
  function WithPrefix<T>(pre: seq<T>, r: Parsed<seq<T>>): Parsed<seq<T>>
  {
    match r
    case Err(x) => Err(x)
    case Ok((xs, e)) => Ok((pre + xs, e))
  }

  /** The object loop puts the written members into the object one after the other. */
  lemma {:induction false} MembersFromPutAll(text: string, pos: nat, ms: seq<Member>, stod: Stod)
    requires pos <= |text|
    ensures var w := WrittenMembers(text, pos, stod); var r := MembersFrom(text, pos, ms, stod);
      && (r.Ok? <==> w.Ok?)
      && (r.Ok? ==> r.value == (PutAll(ms, w.value.0), w.value.1))
      && (r.Err? ==> r.error == w.error)
    decreases |text| - pos
  {
    var mr := MemberAt(text, pos, stod);
    if mr.Ok? {
      var (m, e) := mr.value;
      var q := SkipWs(text, e);
      if q < |text| && text[q] == '}' {
        assert [m][1..] == [];
      } else if q < |text| && text[q] == ',' {
        var next := SkipWs(text, q + 1);
        MembersFromPutAll(text, next, Put(ms, m.key, m.value), stod);
        var w := WrittenMembers(text, next, stod);
        if w.Ok? {
          assert ([m] + w.value.0)[1..] == w.value.0;
        }
      }
    }
  }

  /**
   * Last write wins: in an object that `parseObject` reads, every key
   * maps to the value of its last occurrence in the text.
   */
  lemma ObjectLastWriteWins(text: string, pos: nat, stod: Stod, key: string)
    requires pos <= |text|
    ensures var p := SkipWs(text, pos); var r := ObjectAt(text, pos, stod);
      p < |text| && text[p] == '{' && SkipWs(text, p + 1) < |text| && text[SkipWs(text, p + 1)] != '}' ==>
        var w := WrittenMembers(text, SkipWs(text, p + 1), stod);
        && (r.Ok? <==> w.Ok?)
        && (r.Ok? ==> Find(r.value.0.data_.members, key) == FindLast(w.value.0, key))
  {
    var p := SkipWs(text, pos);
    if p < |text| && text[p] == '{' {
      var q := SkipWs(text, p + 1);
      if q < |text| && text[q] != '}' {
        ObjectAtMembers(text, pos, stod);
        MembersFromPutAll(text, q, [], stod);
        var w := WrittenMembers(text, q, stod);
        if w.Ok? {
          PutAllFind([], w.value.0, key);
        }
      }
    }
  }

  /** `parseObject` past `{` and the spaces after it, when a member follows. */
  lemma ObjectAtMembers(text: string, pos: nat, stod: Stod)
    requires pos <= |text|
    requires var p := SkipWs(text, pos);
      p < |text| && text[p] == '{' && SkipWs(text, p + 1) < |text| && text[SkipWs(text, p + 1)] != '}'
    ensures ObjectAt(text, pos, stod) == AsObject(MembersFrom(text, SkipWs(text, SkipWs(text, pos) + 1), [], stod))
  {
  }

  /** The array loop only appends: the elements already read stay first, in order. */
  lemma {:induction false} ElementsFromAppend(text: string, pos: nat, es: seq<JsonValue>, stod: Stod)
    requires pos <= |text|
    ensures ElementsFrom(text, pos, es, stod) == WithPrefix(es, ElementsFrom(text, pos, [], stod))
    decreases |text| - pos, 2
  {
    ElementsAfterAppend(text, pos, ValueAt(text, pos, stod), es, stod);
  }

  lemma {:induction false} ElementsAfterAppend(text: string, pos: nat, v: Parsed<JsonValue>, es: seq<JsonValue>, stod: Stod)
    requires pos <= |text| && (v.Ok? ==> pos < v.value.1 <= |text|)
    ensures ElementsAfter(text, pos, v, es, stod) == WithPrefix(es, ElementsAfter(text, pos, v, [], stod))
    decreases |text| - pos, 1
  {
    if v.Ok? {
      var (x, e) := v.value;
      var q := SkipWs(text, e);
      if q < |text| && text[q] == ',' {
        ElementsAfterAppendComma(text, pos, x, e, es, stod);
      } else {
        assert [] + [x] == [x];
      }
    }
  }

  lemma {:induction false} ElementsAfterAppendComma(text: string, pos: nat, x: JsonValue, e: nat, es: seq<JsonValue>, stod: Stod)
    requires pos < e <= |text|
    requires SkipWs(text, e) < |text| && text[SkipWs(text, e)] == ','
    ensures ElementsAfter(text, pos, Ok((x, e)), es, stod) == WithPrefix(es, ElementsAfter(text, pos, Ok((x, e)), [], stod))
    decreases |text| - pos, 0
  {
    var next := SkipWs(text, SkipWs(text, e) + 1);
    var all := ElementsFrom(text, next, es + [x], stod);
    var one := ElementsFrom(text, next, [x], stod);
    assert ElementsAfter(text, pos, Ok((x, e)), es, stod) == all by {
      ElementsAfterComma(text, pos, x, e, es, stod);
    }
    assert ElementsAfter(text, pos, Ok((x, e)), [], stod) == one by {
      ElementsAfterComma(text, pos, x, e, [], stod);
      assert [] + [x] == [x];
    }
    assert all == WithPrefix(es, one) by {
      ElementsFromAppend(text, next, es + [x], stod);
      ElementsFromAppend(text, next, [x], stod);
      WithPrefixAppend(es, [x], ElementsFrom(text, next, [], stod));
    }
  }

  lemma ElementsAfterComma(text: string, pos: nat, x: JsonValue, e: nat, es: seq<JsonValue>, stod: Stod)
    requires pos < e <= |text|
    requires SkipWs(text, e) < |text| && text[SkipWs(text, e)] == ','
    ensures ElementsAfter(text, pos, Ok((x, e)), es, stod) == ElementsFrom(text, SkipWs(text, SkipWs(text, e) + 1), es + [x], stod)
  {
  }

  lemma WithPrefixAppend<T>(a: seq<T>, b: seq<T>, r: Parsed<seq<T>>)
    ensures WithPrefix(a + b, r) == WithPrefix(a, WithPrefix(b, r))
  {
    if r.Ok? {
      assert (a + b) + r.value.0 == a + (b + r.value.0);
    }
  }

  /** The first element of an array is the value at its first position. */
  lemma ElementsFromFirst(text: string, pos: nat, stod: Stod)
    requires pos <= |text|
    ensures var r := ElementsFrom(text, pos, [], stod);
      r.Ok? ==> ValueAt(text, pos, stod).Ok? && |r.value.0| >= 1 && r.value.0[0] == ValueAt(text, pos, stod).value.0
  {
    ElementsAfterFirst(text, pos, ValueAt(text, pos, stod), stod);
  }

  lemma ElementsAfterFirst(text: string, pos: nat, v: Parsed<JsonValue>, stod: Stod)
    requires pos <= |text| && (v.Ok? ==> pos < v.value.1 <= |text|)
    ensures var r := ElementsAfter(text, pos, v, [], stod);
      r.Ok? ==> v.Ok? && |r.value.0| >= 1 && r.value.0[0] == v.value.0
  {
    if v.Ok? {
      var (x, e) := v.value;
      assert [] + [x] == [x];
      var q := SkipWs(text, e);
      if q < |text| && text[q] == ',' {
        ElementsFromAppend(text, SkipWs(text, q + 1), [x], stod);
      }
    }
  }

  /** `{}` and `[]`, with or without inner whitespace, are the empty object and the empty array. */
  lemma EmptyContainers(stod: Stod)
    ensures Document("{}", stod) == Ok(OfObject([]))
    ensures Document("[ ]", stod) == Ok(OfArray([]))
  {
  }

  /** Anything but whitespace after the root value is an error; `\v` and `\f` count as whitespace. */
  lemma TrailingInput(stod: Stod)
    ensures Document("null x", stod) == Err(ExtraData)
    ensures Document("null" + [11 as char, 12 as char], stod) == Ok(Default())
  {
    var t1 := "null x";
    assert StartsWith(t1, 0, "null");
    assert ValueAt(t1, 0, stod) == Ok((Default(), 4));
    assert SkipWs(t1, 5) == 5;
    var t2 := "null" + [11 as char, 12 as char];
    assert StartsWith(t2, 0, "null");
    assert ValueAt(t2, 0, stod) == Ok((Default(), 4));
    assert SkipWs(t2, 5) == 6;
  }

  /**
   * One round of a `while (true)` loop: either the loop ends with `r`, or
   * it goes on from cursor `at` with the collection `acc`.
   */
  datatype Round<T> = Done(r: Parsed<T>) | Again(acc: T, at: nat)

  /** The key, the colon and the value of one member (the first half of a round of `parseObject`). */
  method ParseMember(text: string, i: nat, stod: Stod) returns (r: Parsed<Member>)
    requires i <= |text|
    ensures r == MemberAt(text, i, stod)
    decreases |text| - i, 4
  {
    var key := ParseString(text, i);
    if key.Err? {
      return Err(key.error);
    }
    if !key.value.0.IsString() || !key.value.0.data_.StringData? {
      return Err(ExpectedStringKey);
    }
    var q := SkipWhitespace(text, key.value.1);
    if q == |text| {
      return Err(TruncatedInput);
    }
    if text[q] != ':' {
      return Err(ExpectedColon);
    }
    var value := ParseValue(text, q + 1, stod);
    r := MemberOf(key.value.0.data_.s, value);
  }

  /** One round of the loop of `parseObject`: a member put into `obj`, then `}`, `,` or an error. */
  method MemberRound(text: string, i: nat, obj: seq<Member>, stod: Stod) returns (round: Round<seq<Member>>)
    requires i <= |text|
    ensures round.Done? ==> round.r == MembersFrom(text, i, obj, stod)
    ensures round.Again? ==> i < round.at <= |text| && MembersFrom(text, round.at, round.acc, stod) == MembersFrom(text, i, obj, stod)
    decreases |text| - i, 5
  {
    var member := ParseMember(text, i, stod);
    if member.Err? {
      return Done(Err(member.error));
    }
    var (m, e) := member.value;
    var q := SkipWhitespace(text, e);
    if q == |text| {
      return Done(Err(TruncatedInput));
    }
    if text[q] == '}' {
      return Done(Ok((Put(obj, m.key, m.value), q + 1)));
    }
    if text[q] != ',' {
      return Done(Err(ExpectedCommaOrBrace));
    }
    var next := SkipWhitespace(text, q + 1);
    round := Again(Put(obj, m.key, m.value), next);
  }

  /** The `while (true)` loop of `parseObject`: one member per round, put into `obj`. */
  method ParseMembers(text: string, first: nat, stod: Stod) returns (r: Parsed<seq<Member>>)
    requires first <= |text|
    ensures r == MembersFrom(text, first, [], stod)
    decreases |text| - first, 6
  {
    var i := first;
    var obj: seq<Member> := [];
    while true
      invariant first <= i <= |text|
      invariant MembersFrom(text, i, obj, stod) == MembersFrom(text, first, [], stod)
      decreases |text| - i
    {
      var round := MemberRound(text, i, obj, stod);
      if round.Done? {
        return round.r;
      }
      obj, i := round.acc, round.at;
    }
  }

  /** `parseObject`: the opening brace, the empty object, or the member loop. */
  method ParseObject(text: string, pos: nat, stod: Stod) returns (r: Parsed<JsonValue>)
    requires pos <= |text|
    ensures r == ObjectAt(text, pos, stod)
    decreases |text| - pos, 1
  {
    var p := SkipWhitespace(text, pos);
    if p == |text| || text[p] != '{' {
      return Err(ExpectedObjectStart);
    }
    var i := SkipWhitespace(text, p + 1);
    if i == |text| {
      return Err(TruncatedInput);
    }
    if text[i] == '}' {
      return Ok((OfObject([]), i + 1));
    }
    var members := ParseMembers(text, i, stod);
    r := AsObject(members);
  }

  /** One round of the loop of `parseArray`: an element, then `]`, `,` or an error. */
  method ElementRound(text: string, i: nat, arr: seq<JsonValue>, stod: Stod) returns (round: Round<seq<JsonValue>>)
    requires i <= |text|
    ensures round.Done? ==> round.r == ElementsFrom(text, i, arr, stod)
    ensures round.Again? ==> i < round.at <= |text| && ElementsFrom(text, round.at, round.acc, stod) == ElementsFrom(text, i, arr, stod)
    decreases |text| - i, 4
  {
    var element := ParseValue(text, i, stod);
    if element.Err? {
      return Done(Err(element.error));
    }
    var (v, e) := element.value;
    var q := SkipWhitespace(text, e);
    if q == |text| {
      return Done(Err(TruncatedInput));
    }
    if text[q] == ']' {
      return Done(Ok((arr + [v], q + 1)));
    }
    if text[q] != ',' {
      return Done(Err(ExpectedCommaOrBracket));
    }
    ElementsAfterComma(text, i, v, e, arr, stod);
    var next := SkipWhitespace(text, q + 1);
    round := Again(arr + [v], next);
  }

  /** The `while (true)` loop of `parseArray`: one element per round, pushed onto `arr`. */
  method ParseElements(text: string, first: nat, stod: Stod) returns (r: Parsed<seq<JsonValue>>)
    requires first <= |text|
    ensures r == ElementsFrom(text, first, [], stod)
    decreases |text| - first, 5
  {
    var i := first;
    var arr: seq<JsonValue> := [];
    while true
      invariant first <= i <= |text|
      invariant ElementsFrom(text, i, arr, stod) == ElementsFrom(text, first, [], stod)
      decreases |text| - i
    {
      var round := ElementRound(text, i, arr, stod);
      if round.Done? {
        return round.r;
      }
      arr, i := round.acc, round.at;
    }
  }

  /** `parseArray`: the opening bracket, the empty array, or the element loop. */
  method ParseArray(text: string, pos: nat, stod: Stod) returns (r: Parsed<JsonValue>)
    requires pos <= |text|
    ensures r == ArrayAt(text, pos, stod)
    decreases |text| - pos, 1
  {
    var p := SkipWhitespace(text, pos);
    if p == |text| || text[p] != '[' {
      return Err(ExpectedArrayStart);
    }
    var i := SkipWhitespace(text, p + 1);
    if i == |text| {
      return Err(TruncatedInput);
    }
    if text[i] == ']' {
      return Ok((OfArray([]), i + 1));
    }
    var elements := ParseElements(text, i, stod);
    r := AsArray(elements);
  }

  /** `Parser::parseValue`. */
  method ParseValue(text: string, pos: nat, stod: Stod) returns (r: Parsed<JsonValue>)
    requires pos <= |text|
    ensures r == ValueAt(text, pos, stod)
    decreases |text| - pos, 2
  {
    var p := SkipWhitespace(text, pos);
    if p == |text| {
      return Err(UnexpectedEndOfInput);
    }
    var c := text[p];
    if c == '{' {
      r := ParseObject(text, p, stod);
    } else if c == '[' {
      r := ParseArray(text, p, stod);
    } else if c == '"' {
      r := ParseString(text, p);
    } else if c == 't' || c == 'f' || c == 'n' {
      r := LiteralAt(text, p);
    } else if c == '-' || IsDigit(c) {
      r := ParseNumber(text, p, stod);
    } else {
      r := Err(UnexpectedCharacter);
    }
  }

  /**
   * `Parser::parse` on the content of the file: one value, then nothing
   * but whitespace.
   */
  function Document(text: string, stod: Stod): (r: Result<JsonValue, ParseError>)
    ensures r.Ok? ==> Wf(r.value)
    ensures r.Ok? <==> ValueAt(text, 0, stod).Ok? && SkipWs(text, ValueAt(text, 0, stod).value.1) == |text|
  {
    ValueAtWf(text, 0, stod);
    match ValueAt(text, 0, stod)
    case Err(x) => Err(x)
    case Ok((v, e)) => if SkipWs(text, e) != |text| then Err(ExtraData) else Ok(v)
  }

  /** `Parser::parse`, given the file content that `readFile` returns. */
  method Parse(text: string, stod: Stod) returns (r: Result<JsonValue, ParseError>)
    ensures r == Document(text, stod)
  {
    var root := ParseValue(text, 0, stod);
    if root.Err? {
      return Err(root.error);
    }
    var e := SkipWhitespace(text, root.value.1);
    if e != |text| {
      return Err(ExtraData);
    }
    r := Ok(root.value.0);
  }
}
