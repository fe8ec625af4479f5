/**
 * Dumping then loading: the reader of load.cpp reads back what the
 * visitor of dump.cpp writes, for the scalar values: null, the booleans,
 * strings (the escape of `escape` against the string reader) and the
 * integers a double holds exactly (the reader goes through `std::stod`
 * before it tests for an integer).  Doubles are left out: their text is
 * the `fmt` parameter.
 */
module RoundTrip {
  import opened Wrappers
  import opened Bytes
  import opened Decimal
  import opened JsonValues
  import opened Load
  import opened Dump

  /** The values the round trip covers: null, booleans, strings, and the integers a double holds exactly. */
  predicate Portable(v: JsonValue)
  {
    match v.data_
    case Monostate => true
    case BoolData(_) => true
    case StringData(_) => true
    case IntData(i) => DoubleExact(i)
    case _ => false
  }

  /** The greedy number scan of `parseNumber` stops at `e`: the input ends, or no digit, `.`, `e` or `E` follows. */
  predicate Delimited(text: string, e: nat)
  {
    e >= |text| || (!IsDigit(text[e]) && text[e] != '.' && text[e] != 'e' && text[e] != 'E')
  }

  /**
   * What the visitor of dump.cpp writes for a portable value: `null`,
   * `true` or `false`, the decimal text of an integer, or a string's
   * escaped text between quotes.  It never starts with whitespace.
   */
  function ScalarText(v: JsonValue): (t: string)
    requires Portable(v)
    ensures |t| > 0 && !IsSpace(t[0])
  {
    match v.data_
    case Monostate => "null"
    case BoolData(b) => if b then "true" else "false"
    case IntData(i) => IntTextStart(i); IntToString(i)
    case StringData(s) => "\"" + Escape(s) + "\""
  }

  lemma IntTextStart(i: int)
    ensures |IntToString(i)| > 0 && (IntToString(i)[0] == '-' || IsDigit(IntToString(i)[0]))
  {
    if i >= 0 {
      assert IsDigit(NatToString(i)[0]);
    }
  }

  /** On the values the round trip covers, `Render` writes `ScalarText`, whatever `fmt` does with doubles. */
  lemma RenderScalar(v: JsonValue, fmt: Fmt)
    requires Portable(v)
    ensures Render(v, fmt) == ScalarText(v)
  {
  }

  lemma {:induction false} DigitsEndRun(text: string, i: nat, j: nat)
    requires i <= j <= |text|
    requires forall k | i <= k < j :: IsDigit(text[k])
    requires j == |text| || !IsDigit(text[j])
    ensures DigitsEnd(text, i) == j
    decreases j - i
  {
    if i < j {
      DigitsEndRun(text, i + 1, j);
    }
  }

  /** The scan of `parseNumber` takes exactly the decimal text of an integer when nothing numeric follows it. */
  lemma NumberEndInt(text: string, i: nat, n: int)
    requires At(text, i, IntToString(n)) && Delimited(text, i + |IntToString(n)|)
    ensures NumberEnd(text, i) == i + |IntToString(n)|
  {
    var d := IntToString(n);
    var s := if n < 0 then 1 else 0;
    var digits := if n < 0 then NatToString(-n) else NatToString(n);
    assert SignEnd(text, i) == i + s && At(text, i + s, digits) && i + |d| == i + s + |digits| by {
      assert d == (if n < 0 then "-" else "") + digits;
      AtSplit(text, i, if n < 0 then "-" else "", digits);
      AtIndex(text, i, d, 0);
      AtIndex(text, i + s, digits, 0);
    }
    DigitsAt(text, i + s, digits);
    DigitsEndRun(text, i + s, i + |d|);
  }

  /** Where a run of digits is written, the text holds digits. */
  lemma DigitsAt(text: string, j: nat, digits: string)
    requires At(text, j, digits) && AllDigits(digits)
    ensures j + |digits| <= |text| && forall k | j <= k < j + |digits| :: IsDigit(text[k])
  {
    AtStartsWith(text, j, digits);
    forall k | j <= k < j + |digits| ensures IsDigit(text[k]) {
      AtIndex(text, j, digits, k - j);
    }
  }

  /** `parseNumber` reads back the integer `std::to_string` wrote. */
  lemma IntRoundTrip(text: string, i: nat, n: int64, d: string, stod: Stod)
    requires DoubleExact(n) && d == IntToString(n)
    requires At(text, i, d) && Delimited(text, i + |d|)
    ensures NumberAt(text, i, stod) == Ok((OfInt(n), i + |d|))
  {
    IntTextAt(text, i, n, d);
    IntLiteralRoundTrip(n, stod);
    NumberAtOk(text, i, stod, OfInt(n), i + |d|, d);
  }

  /** The number scan of `parseNumber` covers exactly the integer text `d`. */
  lemma IntTextAt(text: string, i: nat, n: int64, d: string)
    requires d == IntToString(n)
    requires At(text, i, d) && Delimited(text, i + |d|)
    ensures i < |text| && SkipWs(text, i) == i && NumberEnd(text, i) == i + |d| && text[i..i + |d|] == d
  {
    var m: int := n;
    if m >= 0 {
      assert IsDigit(NatToString(m)[0]);
    }
    AtIndex(text, i, d, 0);
    NumberEndInt(text, i, n);
    AtStartsWith(text, i, d);
  }

  lemma NumberAtOk(text: string, p: nat, stod: Stod, v: JsonValue, e: nat, d: string)
    requires p < |text| && SkipWs(text, p) == p && NumberEnd(text, p) == e
    requires text[p..e] == d && ClassifyNumber(d, stod) == Ok(v)
    ensures NumberAt(text, p, stod) == Ok((v, e))
  {
  }

  /** `parseString` reads back the escaped text of `s` between quotes. */
  lemma StringRoundTrip(text: string, i: nat, s: string)
    requires i + |Escape(s)| + 1 < |text|
    requires text[i] == '"' && At(text, i + 1, Escape(s)) && text[i + 1 + |Escape(s)|] == '"'
    ensures StringAt(text, i) == Ok((OfString(s), i + |Escape(s)| + 2))
  {
    assert SkipWs(text, i) == i;
    CharsFromEscape(text, i + 1, s);
  }

  // The reader's steps on the characters the dumper writes.

  lemma ValueAtString(text: string, i: nat, j: nat, stod: Stod)
    requires i <= j < |text| && SkipWs(text, i) == j && text[j] == '"'
    ensures ValueAt(text, i, stod) == StringAt(text, j)
  {
  }

  lemma ValueAtNumber(text: string, i: nat, j: nat, stod: Stod)
    requires i <= j < |text| && SkipWs(text, i) == j && (text[j] == '-' || IsDigit(text[j]))
    ensures ValueAt(text, i, stod) == NumberAt(text, j, stod)
  {
  }

  lemma ValueAtLiteral(text: string, i: nat, j: nat, stod: Stod)
    requires i <= j < |text| && SkipWs(text, i) == j && text[j] in {'t', 'f', 'n'}
    ensures ValueAt(text, i, stod) == LiteralAt(text, j)
  {
  }

  /** A string's text `t`: the escaped characters between quotes. */
  lemma StringValueRoundTrip(v: JsonValue, s: string, t: string, stod: Stod, text: string, i: nat, j: nat)
    requires v == OfString(s) && t == "\"" + Escape(s) + "\""
    requires i <= j && At(text, j, t) && SkipWs(text, i) == j
    ensures ValueAt(text, i, stod) == Ok((v, j + |t|))
  {
    QuotedLayout(text, j, Escape(s));
    ValueAtString(text, i, j, stod);
    StringRoundTrip(text, j, s);
  }

  /** A quoted text laid out at `p`: the quotes and the body between them. */
  lemma QuotedLayout(text: string, p: nat, s: string)
    requires At(text, p, "\"" + s + "\"")
    ensures p + |s| + 1 < |text| && text[p] == '"' && At(text, p + 1, s) && text[p + 1 + |s|] == '"'
  {
    AtSplit(text, p, "\"" + s, "\"");
    AtSplit(text, p, "\"", s);
    AtIndex(text, p, "\"", 0);
    AtIndex(text, p + 1 + |s|, "\"", 0);
  }

  /** `null`, `true` and `false`: the word `t`. */
  lemma LiteralValueRoundTrip(v: JsonValue, t: string, stod: Stod, text: string, i: nat, j: nat)
    requires Wf(v) && (v.data_.Monostate? || v.data_.BoolData?) && t == ScalarText(v)
    requires i <= j && At(text, j, t) && SkipWs(text, i) == j
    ensures ValueAt(text, i, stod) == Ok((v, j + |t|))
  {
    assert j < |text| && text[j] in {'t', 'f', 'n'} && StartsWith(text, j, t) by {
      AtIndex(text, j, t, 0);
      AtStartsWith(text, j, t);
    }
    ValueAtLiteral(text, i, j, stod);
    LiteralWord(text, j, t, v);
  }

  /** The reader's literal step on the word the visitor wrote for null or a boolean. */
  lemma LiteralWord(text: string, j: nat, w: string, v: JsonValue)
    requires Wf(v) && (v.data_.Monostate? || v.data_.BoolData?)
    requires w == (if v.data_.Monostate? then "null" else if v.data_.b then "true" else "false")
    requires StartsWith(text, j, w)
    ensures LiteralAt(text, j) == Ok((v, j + |w|))
  {
    assert SkipWs(text, j) == j by {
      assert text[j..j + |w|][0] == text[j];
    }
    assert text[j] == w[0] by {
      assert text[j..j + |w|][0] == text[j];
    }
    if v.data_.Monostate? {
      assert v == Default();
    } else {
      assert v == OfBool(v.data_.b);
    }
  }

  /** An integer's text `t`: its decimal digits, with nothing numeric after them. */
  lemma IntValueRoundTrip(v: JsonValue, n: int64, t: string, stod: Stod, text: string, i: nat, j: nat)
    requires v == OfInt(n) && t == IntToString(n) && DoubleExact(n)
    requires i <= j && At(text, j, t) && SkipWs(text, i) == j
    requires Delimited(text, j + |t|)
    ensures ValueAt(text, i, stod) == Ok((v, j + |t|))
  {
    IntTextStart(n);
    AtIndex(text, j, t, 0);
    ValueAtNumber(text, i, j, stod);
    IntRoundTrip(text, j, n, t, stod);
  }

  /**
   * Reading at `i`, after whitespace up to `j` where the text `t` of `v`
   * stands, gives back `v` and moves past its text.
   */
  lemma ScalarRoundTrip(v: JsonValue, t: string, stod: Stod, text: string, i: nat, j: nat)
    requires Wf(v) && Portable(v) && t == ScalarText(v)
    requires i <= j && At(text, j, t) && SkipWs(text, i) == j
    requires Delimited(text, j + |t|)
    ensures ValueAt(text, i, stod) == Ok((v, j + |t|))
  {
    if v.data_.IntData? {
      IntValueRoundTrip(v, v.data_.i, t, stod, text, i, j);
    } else if v.data_.StringData? {
      StringValueRoundTrip(v, v.data_.s, t, stod, text, i, j);
    } else {
      LiteralValueRoundTrip(v, t, stod, text, i, j);
    }
  }

  /** `Parser::parse` on the text `t` of a scalar gives back the value. */
  lemma ScalarDocument(v: JsonValue, t: string, stod: Stod)
    requires Wf(v) && Portable(v) && t == ScalarText(v)
    ensures Document(t, stod) == Ok(v)
  {
    assert At(t, 0, t) && SkipWs(t, 0) == 0 by {
      assert t[0..|t|] == t;
      AtStartsWith(t, 0, t);
    }
    ScalarRoundTrip(v, t, stod, t, 0, 0);
  }

  /** `Parser::parse` on what `JsonDumper::dump` wrote for a scalar gives back the value. */
  lemma DumpThenParse(v: JsonValue, fmt: Fmt, stod: Stod)
    requires Wf(v) && Portable(v)
    ensures Document(Render(v, fmt), stod) == Ok(v)
  {
    RenderScalar(v, fmt);
    ScalarDocument(v, Render(v, fmt), stod);
  }
}
