/**
 * The serializer of dump.cpp: `DumpVisitor` writes a value to an
 * `std::ostream`, one case per alternative of the payload.  The stream is
 * the string written so far; every writer takes it and returns it
 * extended.  What a writer appends is given by the functions `Escape` and
 * `Render`; the methods are the source's loops, proved to append exactly
 * that.
 *
 * `out << d` for a double is a parameter `fmt`, as `stod` is for the
 * reader: the model does not format floating-point numbers.
 */
module Dump {
  import opened Wrappers
  import opened Decimal
  import opened JsonValues
  import opened Load

  /** The text `out << d` writes for a double. */
  type Fmt = Float64 -> string

  // ---------------------------------------------------------------------
  // escape

  /** The characters that `escape` writes a backslash before. */
  predicate NeedsEscape(c: char)
  {
    c == '\\' || c == '"'
  }

  /** What `escape` writes for one character. */
  function EscapeChar(c: char): string
  {
    if NeedsEscape(c) then ['\\', c] else [c]
  }

  /** `escape(s)`: every character copied, with a backslash before each `\` and `"`. */
  function Escape(s: string): string
  {
    if s == [] then [] else EscapeChar(s[0]) + Escape(s[1..])
  }

  /** The number of characters of `s` that get a backslash. */
  function EscapedCount(s: string): nat
  {
    if s == [] then 0 else (if NeedsEscape(s[0]) then 1 else 0) + EscapedCount(s[1..])
  }

  lemma {:induction false} EscapeAppend(a: string, b: string)
    ensures Escape(a + b) == Escape(a) + Escape(b)
  {
    if a != [] {
      assert (a + b)[0] == a[0] && (a + b)[1..] == a[1..] + b;
      assert Escape(a + b) == EscapeChar(a[0]) + Escape(a[1..] + b);
      EscapeAppend(a[1..], b);
      assert EscapeChar(a[0]) + (Escape(a[1..]) + Escape(b)) == (EscapeChar(a[0]) + Escape(a[1..])) + Escape(b);
    } else {
      assert a + b == b;
    }
  }

  /** `escape` adds exactly one character per `\` or `"`; other characters, control characters included, are copied. */
  lemma {:induction false} EscapeLength(s: string)
    ensures |Escape(s)| == |s| + EscapedCount(s)
  {
    if s != [] {
      EscapeLength(s[1..]);
    }
  }

  /** No quote in the escaped text is unprotected: each one follows a backslash. */
  lemma {:induction false} EscapeNoBareQuote(s: string)
    ensures forall k | 0 <= k < |Escape(s)| && Escape(s)[k] == '"' :: k > 0 && Escape(s)[k - 1] == '\\'
  {
    if s != [] {
      EscapeNoBareQuote(s[1..]);
      var h, t := EscapeChar(s[0]), Escape(s[1..]);
      assert Escape(s) == h + t;
      forall k | 0 <= k < |h + t| && (h + t)[k] == '"'
        ensures k > 0 && (h + t)[k - 1] == '\\'
      {
        if k >= |h| {
          assert (h + t)[k] == t[k - |h|];
          if k - |h| > 0 {
            assert (h + t)[k - 1] == t[k - |h| - 1];
          }
        }
      }
    }
  }

  /** The loop of `escape`: one character of `s` per round, appended to `result`. */
  method EscapeString(s: string) returns (result: string)
    ensures result == Escape(s)
  {
    result := "";
    for k := 0 to |s|
      invariant result == Escape(s[..k])
    {
      EscapeAppend(s[..k], [s[k]]);
      assert s[..k + 1] == s[..k] + [s[k]];
      if s[k] == '\\' || s[k] == '"' {
        result := result + ['\\'];
      }
      result := result + [s[k]];
    }
    assert s[..|s|] == s;
  }

  /**
   * The reader undoes `escape`: wherever the escaped text of `s` stands
   * before a quote, the string reader gives back `s` and moves past the
   * quote.
   */
  lemma {:induction false} CharsFromEscape(text: string, i: nat, s: string)
    requires i + |Escape(s)| < |text|
    requires At(text, i, Escape(s)) && text[i + |Escape(s)|] == '"'
    ensures CharsFrom(text, i) == Ok((s, i + |Escape(s)| + 1))
    decreases |s|
  {
    if s != [] {
      var h, t := EscapeChar(s[0]), Escape(s[1..]);
      assert Escape(s) == h + t;
      AtSplit(text, i, h, t);
      CharsFromEscape(text, i + |h|, s[1..]);
      AtIndex(text, i, h, 0);
      if NeedsEscape(s[0]) {
        AtIndex(text, i, h, 1);
        CharsEscaped(text, i);
      } else {
        CharsPlain(text, i);
      }
      assert [s[0]] + s[1..] == s;
    }
  }

  /** The string reader copies a character that is neither a quote nor a backslash. */
  lemma CharsPlain(text: string, i: nat)
    requires i < |text| && text[i] != '"' && text[i] != '\\'
    ensures CharsFrom(text, i) == Prepend([text[i]], CharsFrom(text, i + 1))
  {
  }

  /** The string reader turns a backslash before a quote or a backslash into that character. */
  lemma CharsEscaped(text: string, i: nat)
    requires i + 1 < |text| && text[i] == '\\' && (text[i + 1] == '"' || text[i + 1] == '\\')
    ensures CharsFrom(text, i) == Prepend([text[i + 1]], CharsFrom(text, i + 2))
  {
    assert EscapeAt(text, i + 1) == Ok(([text[i + 1]], i + 2));
  }

  // ---------------------------------------------------------------------
  // The visitor

  /**
   * What `dumpValue` writes for a value: the visitor's case for the
   * payload alternative (the tag is not consulted).
   */
  function Render(v: JsonValue, fmt: Fmt): string
    decreases v, 2
  {
    match v.data_
    case Monostate => "null"
    case BoolData(b) => if b then "true" else "false"
    case DoubleData(d) => fmt(d)
    case IntData(i) => IntToString(i)
    case StringData(s) => "\"" + Escape(s) + "\""
    case ObjectData(ms) => "{" + RenderMembers(ms, fmt) + "}"
    case ArrayData(es) => "[" + RenderElements(es, fmt) + "]"
  }

  /** One entry of `dumpObject`: the escaped key in quotes, `": "`, the value. */
  function RenderMember(m: Member, fmt: Fmt): string
    decreases m, 1
  {
    "\"" + Escape(m.key) + "\": " + Render(m.value, fmt)
  }

  /** The entries of an object in iteration order, `", "` before every one but the first. */
  function RenderMembers(ms: seq<Member>, fmt: Fmt): string
    decreases ms, 0
  {
    if ms == [] then ""
    else
      var init := ms[..|ms| - 1];
      assert ms[|ms| - 1] in ms;
      RenderMembers(init, fmt) + (if init == [] then "" else ", ") + RenderMember(ms[|ms| - 1], fmt)
  }

  /** The elements of an array in index order, `", "` before every one but the first. */
  function RenderElements(es: seq<JsonValue>, fmt: Fmt): string
    decreases es, 0
  {
    if es == [] then ""
    else
      var init := es[..|es| - 1];
      assert es[|es| - 1] in es;
      RenderElements(init, fmt) + (if init == [] then "" else ", ") + Render(es[|es| - 1], fmt)
  }

  /** Read from the front: the first entry, then `", "` and the others if there are any. */
  lemma {:induction false} RenderMembersCons(m: Member, ms: seq<Member>, fmt: Fmt)
    ensures RenderMembers([m] + ms, fmt)
         == RenderMember(m, fmt) + (if ms == [] then "" else ", " + RenderMembers(ms, fmt))
    decreases |ms|
  {
    if ms == [] {
      assert ([m] + ms)[..0] == [];
    } else {
      RenderMembersCons(m, ms[..|ms| - 1], fmt);
      MembersConsStep(m, ms, fmt);
    }
  }

  /** The step of `RenderMembersCons`: one more entry at the back. */
  lemma MembersConsStep(m: Member, ms: seq<Member>, fmt: Fmt)
    requires ms != []
    requires var init := ms[..|ms| - 1];
      RenderMembers([m] + init, fmt) == RenderMember(m, fmt) + (if init == [] then "" else ", " + RenderMembers(init, fmt))
    ensures RenderMembers([m] + ms, fmt) == RenderMember(m, fmt) + (", " + RenderMembers(ms, fmt))
  {
    var w := [m] + ms;
    var init := ms[..|ms| - 1];
    assert w[..|w| - 1] == [m] + init && w[|w| - 1] == ms[|ms| - 1];
    var a, b := RenderMember(m, fmt), RenderMember(ms[|ms| - 1], fmt);
    if init == [] {
      assert RenderMembers(ms, fmt) == "" + "" + b;
    } else {
      var c := RenderMembers(init, fmt);
      assert RenderMembers(w, fmt) == (a + (", " + c)) + ", " + b;
      assert RenderMembers(ms, fmt) == c + ", " + b;
      Regroup(a, c, b);
    }
  }

  /** Read from the front: the first element, then `", "` and the others if there are any. */
  lemma {:induction false} RenderElementsCons(x: JsonValue, es: seq<JsonValue>, fmt: Fmt)
    ensures RenderElements([x] + es, fmt)
         == Render(x, fmt) + (if es == [] then "" else ", " + RenderElements(es, fmt))
    decreases |es|
  {
    if es == [] {
      assert ([x] + es)[..0] == [];
    } else {
      RenderElementsCons(x, es[..|es| - 1], fmt);
      ElementsConsStep(x, es, fmt);
    }
  }

  /** The step of `RenderElementsCons`: one more element at the back. */
  lemma ElementsConsStep(x: JsonValue, es: seq<JsonValue>, fmt: Fmt)
    requires es != []
    requires var init := es[..|es| - 1];
      RenderElements([x] + init, fmt) == Render(x, fmt) + (if init == [] then "" else ", " + RenderElements(init, fmt))
    ensures RenderElements([x] + es, fmt) == Render(x, fmt) + (", " + RenderElements(es, fmt))
  {
    var w := [x] + es;
    var init := es[..|es| - 1];
    assert w[..|w| - 1] == [x] + init && w[|w| - 1] == es[|es| - 1];
    var a, b := Render(x, fmt), Render(es[|es| - 1], fmt);
    if init == [] {
      assert RenderElements(es, fmt) == "" + "" + b;
    } else {
      var c := RenderElements(init, fmt);
      assert RenderElements(w, fmt) == (a + (", " + c)) + ", " + b;
      assert RenderElements(es, fmt) == c + ", " + b;
      Regroup(a, c, b);
    }
  }

  lemma Regroup(a: string, c: string, b: string)
    ensures (a + (", " + c)) + ", " + b == a + (", " + (c + ", " + b))
  {
  }

  /** `dumpValue`: the visitor's case for the payload, written to `out`. */
  method DumpValue(v: JsonValue, out: string, fmt: Fmt) returns (out': string)
    ensures out' == out + Render(v, fmt)
    decreases v, 2
  {
    match v.data_
    case Monostate =>
      out' := out + "null";
    case BoolData(b) =>
      out' := out + (if b then "true" else "false");
    case DoubleData(d) =>
      out' := out + fmt(d);
    case IntData(i) =>
      out' := out + IntToString(i);
    case StringData(str) =>
      var escaped := EscapeString(str);
      out' := out + "\"" + escaped + "\"";
      assert out' == out + ("\"" + escaped + "\"");
    case ObjectData(ms) =>
      out' := DumpObject(ms, out, fmt);
    case ArrayData(es) =>
      out' := DumpArray(es, out, fmt);
  }

  /** `dumpObject`: `{`, the entries with `", "` before all but the first (the `first` flag), `}`. */
  method DumpObject(ms: seq<Member>, out: string, fmt: Fmt) returns (out': string)
    ensures out' == out + "{" + RenderMembers(ms, fmt) + "}"
    decreases ms, 1
  {
    out' := out + "{";
    var first := true;
    for k := 0 to |ms|
      invariant first <==> k == 0
      invariant out' == out + "{" + RenderMembers(ms[..k], fmt)
    {
      assert ms[k] in ms;
      assert ms[..k + 1][..k] == ms[..k] && ms[..k + 1][k] == ms[k];
      var sep := if first then "" else ", ";
      first := false;
      var key := EscapeString(ms[k].key);
      var entry := DumpValue(ms[k].value, "\"" + key + "\": ", fmt);
      assert entry == RenderMember(ms[k], fmt);
      out' := out' + sep + entry;
      assert out' == out + "{" + (RenderMembers(ms[..k], fmt) + sep + entry);
    }
    assert ms[..|ms|] == ms;
    out' := out' + "}";
  }

  /** `dumpArray`: `[`, the elements with `", "` before all but index 0, `]`. */
  method DumpArray(es: seq<JsonValue>, out: string, fmt: Fmt) returns (out': string)
    ensures out' == out + "[" + RenderElements(es, fmt) + "]"
    decreases es, 1
  {
    out' := out + "[";
    for k := 0 to |es|
      invariant out' == out + "[" + RenderElements(es[..k], fmt)
    {
      assert es[k] in es;
      assert es[..k + 1][..k] == es[..k] && es[..k + 1][k] == es[k];
      var sep := if k != 0 then ", " else "";
      var element := DumpValue(es[k], "", fmt);
      assert element == Render(es[k], fmt);
      out' := out' + sep + element;
      assert out' == out + "[" + (RenderElements(es[..k], fmt) + sep + element);
    }
    assert es[..|es|] == es;
    out' := out' + "]";
  }

  /** `JsonDumper::dump`: the text of the value on an empty stream. */
  method DumpToString(v: JsonValue, fmt: Fmt) returns (text: string)
    ensures text == Render(v, fmt)
  {
    text := DumpValue(v, "", fmt);
    assert "" + Render(v, fmt) == Render(v, fmt);
  }
}
