/**
 * Dumping then loading whole trees: arrays and objects whose leaves are
 * the values `RoundTrip` covers.  The visitor of dump.cpp writes `", "`
 * between entries and `": "` after a key; the reader of load.cpp skips
 * that whitespace, and `Put` appends each key it has not seen, so the
 * members come back in the order they were written.
 */
module TreeRoundTrip {
  import opened Wrappers
  import opened JsonValues
  import opened Load
  import opened Dump
  import opened RoundTrip

  /** Trees without doubles: every leaf is a value the scalar round trip covers. */
  predicate PortableTree(v: JsonValue)
    decreases v
  {
    match v.data_
    case ObjectData(ms) => forall i | 0 <= i < |ms| :: PortableTree(ms[i].value)
    case ArrayData(es) => forall i | 0 <= i < |es| :: PortableTree(es[i])
    case _ => Portable(v)
  }

  /** A well-formed portable tree: what the tree round trip starts from. */
  predicate Tree(v: JsonValue)
  {
    Wf(v) && PortableTree(v)
  }

  /** The text of a portable tree is never empty and never starts with whitespace. */
  lemma RenderStart(v: JsonValue, fmt: Fmt)
    requires PortableTree(v)
    ensures |Render(v, fmt)| > 0 && !IsSpace(Render(v, fmt)[0])
  {
    if !v.data_.ObjectData? && !v.data_.ArrayData? {
      RenderScalar(v, fmt);
    }
  }

  /** Where `", "` stands before the text of a portable tree, the reader skips exactly the blank. */
  lemma SkipSeparator(text: string, e: nat, t: string)
    requires e + 2 <= |text| && text[e + 1] == ' '
    requires At(text, e + 2, t) && |t| > 0 && !IsSpace(t[0])
    ensures SkipWs(text, e + 1) == e + 2
  {
    AtIndex(text, e + 2, t, 0);
  }

  // One step of the reader at a time, with what the inner parser returned
  // as a parameter.  The results are parameters too (`v`, `f`), so that
  // the steps chain through identical terms.

  lemma ArrayEmptyStep(text: string, i: nat, j: nat, stod: Stod, v: JsonValue)
    requires i <= j && j + 1 < |text| && SkipWs(text, i) == j && text[j] == '[' && text[j + 1] == ']'
    requires v == OfArray([])
    ensures ValueAt(text, i, stod) == Ok((v, j + 2))
  {
  }

  lemma ArrayStep(text: string, i: nat, j: nat, stod: Stod, es: seq<JsonValue>, v: JsonValue, f: nat)
    requires i <= j && j + 1 < |text| && SkipWs(text, i) == j && text[j] == '['
    requires !IsSpace(text[j + 1]) && text[j + 1] != ']'
    requires ElementsFrom(text, j + 1, [], stod) == Ok((es, f)) && v == OfArray(es)
    ensures ValueAt(text, i, stod) == Ok((v, f))
  {
    ArrayOpen(text, j, stod);
  }

  /** `parseArray` at a `[` that is followed directly by a first element. */
  lemma ArrayOpen(text: string, j: nat, stod: Stod)
    requires j + 1 < |text| && text[j] == '[' && !IsSpace(text[j + 1]) && text[j + 1] != ']'
    ensures ArrayAt(text, j, stod) == AsArray(ElementsFrom(text, j + 1, [], stod))
  {
  }

  lemma ObjectEmptyStep(text: string, i: nat, j: nat, stod: Stod, v: JsonValue)
    requires i <= j && j + 1 < |text| && SkipWs(text, i) == j && text[j] == '{' && text[j + 1] == '}'
    requires v == OfObject([])
    ensures ValueAt(text, i, stod) == Ok((v, j + 2))
  {
  }

  lemma ObjectStep(text: string, i: nat, j: nat, stod: Stod, ms: seq<Member>, v: JsonValue, f: nat)
    requires i <= j && j + 1 < |text| && SkipWs(text, i) == j && text[j] == '{'
    requires !IsSpace(text[j + 1]) && text[j + 1] != '}'
    requires MembersFrom(text, j + 1, [], stod) == Ok((ms, f)) && v == OfObject(ms)
    ensures ValueAt(text, i, stod) == Ok((v, f))
  {
    ObjectOpen(text, j, stod);
  }

  /** `parseObject` at a `{` that is followed directly by a first member. */
  lemma ObjectOpen(text: string, j: nat, stod: Stod)
    requires j + 1 < |text| && text[j] == '{' && !IsSpace(text[j + 1]) && text[j + 1] != '}'
    ensures ObjectAt(text, j, stod) == AsObject(MembersFrom(text, j + 1, [], stod))
  {
  }

  lemma ElementsLast(text: string, p: nat, acc: seq<JsonValue>, stod: Stod, x: JsonValue, e: nat)
    requires p <= |text| && ValueAt(text, p, stod) == Ok((x, e))
    requires e < |text| && text[e] == ']'
    ensures ElementsFrom(text, p, acc, stod) == Ok((acc + [x], e + 1))
  {
    AfterBracket(text, p, acc, stod, x, e);
  }

  /** The array loop after an element that ends at the `]`. */
  lemma AfterBracket(text: string, p: nat, acc: seq<JsonValue>, stod: Stod, x: JsonValue, e: nat)
    requires p < e < |text| && text[e] == ']'
    ensures ElementsAfter(text, p, Ok((x, e)), acc, stod) == Ok((acc + [x], e + 1))
  {
    NoSpaceAt(text, e);
  }

  lemma ElementsNext(text: string, p: nat, acc: seq<JsonValue>, stod: Stod, x: JsonValue, e: nat, q: nat)
    requires p <= |text| && ValueAt(text, p, stod) == Ok((x, e))
    requires e < |text| && text[e] == ',' && SkipWs(text, e + 1) == q
    ensures ElementsFrom(text, p, acc, stod) == ElementsFrom(text, q, acc + [x], stod)
  {
    ElementAfterComma(text, p, acc, stod, x, e);
  }

  /** The array loop after an element that ends at a `,`. */
  lemma ElementAfterComma(text: string, p: nat, acc: seq<JsonValue>, stod: Stod, x: JsonValue, e: nat)
    requires p < e < |text| && text[e] == ','
    ensures ElementsAfter(text, p, Ok((x, e)), acc, stod) == ElementsFrom(text, SkipWs(text, e + 1), acc + [x], stod)
  {
    NoSpaceAt(text, e);
  }

  /** `SkipWs` does not move at a character that is not white space. */
  lemma NoSpaceAt(text: string, e: nat)
    requires e < |text| && !IsSpace(text[e])
    ensures SkipWs(text, e) == e
  {
  }

  lemma MembersLast(text: string, p: nat, acc: seq<Member>, stod: Stod, m: Member, e: nat)
    requires p <= |text| && MemberAt(text, p, stod) == Ok((m, e))
    requires e < |text| && text[e] == '}'
    ensures MembersFrom(text, p, acc, stod) == Ok((Put(acc, m.key, m.value), e + 1))
  {
    AfterBrace(text, p, acc, stod, m, e);
  }

  /** The object loop after a member that ends at the `}`. */
  lemma AfterBrace(text: string, p: nat, acc: seq<Member>, stod: Stod, m: Member, e: nat)
    requires p < e < |text| && text[e] == '}'
    ensures MembersAfter(text, p, Ok((m, e)), acc, stod) == Ok((Put(acc, m.key, m.value), e + 1))
  {
    NoSpaceAt(text, e);
  }

  lemma MembersNext(text: string, p: nat, acc: seq<Member>, stod: Stod, m: Member, e: nat, q: nat)
    requires p <= |text| && MemberAt(text, p, stod) == Ok((m, e))
    requires e < |text| && text[e] == ',' && SkipWs(text, e + 1) == q
    ensures MembersFrom(text, p, acc, stod) == MembersFrom(text, q, Put(acc, m.key, m.value), stod)
  {
    MemberAfterComma(text, p, acc, stod, m, e);
  }

  /** The object loop after a member that ends at a `,`. */
  lemma MemberAfterComma(text: string, p: nat, acc: seq<Member>, stod: Stod, m: Member, e: nat)
    requires p < e < |text| && text[e] == ','
    ensures MembersAfter(text, p, Ok((m, e)), acc, stod) == MembersFrom(text, SkipWs(text, e + 1), Put(acc, m.key, m.value), stod)
  {
    NoSpaceAt(text, e);
  }

  lemma MemberStep(text: string, p: nat, stod: Stod, key: string, e: nat)
    requires p <= |text|
    requires StringAt(text, p) == Ok((OfString(key), e))
    requires e < |text|
    requires text[e] == ':'
    ensures MemberAt(text, p, stod) == MemberOf(key, ValueAt(text, e + 1, stod))
  {
    AfterKey(text, p, stod, key, e);
  }

  /** The rest of a member once its key has been read and a `:` follows it. */
  lemma AfterKey(text: string, p: nat, stod: Stod, key: string, e: nat)
    requires p < e < |text| && text[e] == ':'
    ensures MemberAfterKey(text, p, Ok((OfString(key), e)), stod) == MemberOf(key, ValueAt(text, e + 1, stod))
  {
    NoSpaceAt(text, e);
  }

  /**
   * Reading at `i`, after whitespace up to `j` where the text of the
   * portable tree `v` stands, gives back `v` and moves past its text, to
   * `q`.
   */
  lemma {:induction false} TreeAt(v: JsonValue, q: nat, fmt: Fmt, stod: Stod, text: string, i: nat, j: nat)
    requires Tree(v)
    requires i <= j && At(text, j, Render(v, fmt)) && SkipWs(text, i) == j
    requires q == j + |Render(v, fmt)| && Delimited(text, q)
    ensures ValueAt(text, i, stod) == Ok((v, q))
    decreases v, 3
  {
    if v.data_.ArrayData? {
      ArrayTreeAt(v, v.data_.elements, q, fmt, stod, text, i, j);
    } else if v.data_.ObjectData? {
      ObjectTreeAt(v, v.data_.members, q, fmt, stod, text, i, j);
    } else {
      ScalarTreeAt(v, q, fmt, stod, text, i, j);
    }
  }

  lemma ScalarTreeAt(v: JsonValue, q: nat, fmt: Fmt, stod: Stod, text: string, i: nat, j: nat)
    requires Tree(v) && !v.data_.ArrayData? && !v.data_.ObjectData?
    requires i <= j && At(text, j, Render(v, fmt)) && SkipWs(text, i) == j
    requires q == j + |Render(v, fmt)| && Delimited(text, q)
    ensures ValueAt(text, i, stod) == Ok((v, q))
  {
    ScalarPortable(v);
    var t := Render(v, fmt);
    RenderScalar(v, fmt);
    ScalarRoundTrip(v, t, stod, text, i, j);
  }

  /** A tree that is neither an array nor an object is a portable scalar. */
  lemma ScalarPortable(v: JsonValue)
    requires PortableTree(v) && !v.data_.ArrayData? && !v.data_.ObjectData?
    ensures Portable(v)
  {
  }

  lemma {:induction false} ArrayTreeAt(v: JsonValue, es: seq<JsonValue>, q: nat, fmt: Fmt, stod: Stod, text: string, i: nat, j: nat)
    requires Tree(v) && v.data_ == ArrayData(es)
    requires i <= j && At(text, j, Render(v, fmt)) && SkipWs(text, i) == j
    requires q == j + |Render(v, fmt)|
    ensures ValueAt(text, i, stod) == Ok((v, q))
    decreases v, 2
  {
    assert v == OfArray(es);
    ArrayRendered(es, RenderElements(es, fmt), v, q, fmt, stod, text, i, j);
  }

  lemma {:induction false} ObjectTreeAt(v: JsonValue, ms: seq<Member>, q: nat, fmt: Fmt, stod: Stod, text: string, i: nat, j: nat)
    requires Tree(v) && v.data_ == ObjectData(ms)
    requires i <= j && At(text, j, Render(v, fmt)) && SkipWs(text, i) == j
    requires q == j + |Render(v, fmt)|
    ensures ValueAt(text, i, stod) == Ok((v, q))
    decreases v, 2
  {
    assert v == OfObject(ms);
    ObjectRendered(ms, RenderMembers(ms, fmt), v, q, fmt, stod, text, i, j);
  }

  /** Where `o`, `body`, `c` stand at `j`: the opening character, then `body` and `c` right after it. */
  lemma EnclosedLayout(text: string, j: nat, o: char, body: string, c: char)
    requires At(text, j, [o] + body + [c])
    ensures j + 1 < |text| && text[j] == o && At(text, j + 1, body + [c])
    ensures text[j + 1] == if body == [] then c else body[0]
  {
    assert [o] + body + [c] == [o] + (body + [c]);
    AtSplit(text, j, [o], body + [c]);
    AtIndex(text, j, [o], 0);
    AtIndex(text, j + 1, body + [c], 0);
  }

  /** `parseArray` on `[`, the elements the visitor wrote, `]`. */
  lemma {:induction false} ArrayRendered(es: seq<JsonValue>, body: string, v: JsonValue, q: nat,
                                         fmt: Fmt, stod: Stod, text: string, i: nat, j: nat)
    requires forall k | 0 <= k < |es| :: Tree(es[k])
    requires body == RenderElements(es, fmt) && v == OfArray(es)
    requires i <= j && At(text, j, "[" + body + "]") && SkipWs(text, i) == j
    requires q == j + |body| + 2
    ensures ValueAt(text, i, stod) == Ok((v, q))
    decreases es, 2
  {
    EnclosedLayout(text, j, '[', body, ']');
    if es == [] {
      ArrayEmptyStep(text, i, j, stod, v);
    } else {
      ElementsStart(es, fmt);
      assert [] + es == es;
      ElementsAt(es, [], es, q, fmt, stod, text, j + 1);
      ArrayStep(text, i, j, stod, es, v, q);
    }
  }

  /** `parseObject` on `{`, the members the visitor wrote, `}`. */
  lemma {:induction false} ObjectRendered(ms: seq<Member>, body: string, v: JsonValue, q: nat,
                                          fmt: Fmt, stod: Stod, text: string, i: nat, j: nat)
    requires UniqueKeys(ms) && forall k | 0 <= k < |ms| :: Tree(ms[k].value)
    requires body == RenderMembers(ms, fmt) && v == OfObject(ms)
    requires i <= j && At(text, j, "{" + body + "}") && SkipWs(text, i) == j
    requires q == j + |body| + 2
    ensures ValueAt(text, i, stod) == Ok((v, q))
    decreases ms, 2
  {
    EnclosedLayout(text, j, '{', body, '}');
    if ms == [] {
      ObjectEmptyStep(text, i, j, stod, v);
    } else {
      MembersStart(ms, fmt);
      assert [] + ms == ms;
      MembersAt(ms, [], ms, q, fmt, stod, text, j + 1);
      ObjectStep(text, i, j, stod, ms, v, q);
    }
  }

  /** The text of a non-empty run of elements starts with the first element's. */
  lemma ElementsStart(es: seq<JsonValue>, fmt: Fmt)
    requires es != [] && forall k | 0 <= k < |es| :: PortableTree(es[k])
    ensures |RenderElements(es, fmt)| > 0 && !IsSpace(RenderElements(es, fmt)[0])
  {
    assert es == [es[0]] + es[1..];
    RenderElementsCons(es[0], es[1..], fmt);
    RenderStart(es[0], fmt);
  }

  /** The text of a non-empty run of members starts with a quote. */
  lemma MembersStart(ms: seq<Member>, fmt: Fmt)
    requires ms != []
    ensures |RenderMembers(ms, fmt)| > 0 && RenderMembers(ms, fmt)[0] == '"'
  {
    assert ms == [ms[0]] + ms[1..];
    RenderMembersCons(ms[0], ms[1..], fmt);
  }

  /** `RenderElementsCons` stated on `es` itself, when it has more than one element. */
  lemma ElementsHead(es: seq<JsonValue>, fmt: Fmt)
    requires |es| > 1
    ensures RenderElements(es, fmt) == Render(es[0], fmt) + (", " + RenderElements(es[1..], fmt))
  {
    var x, rest := es[0], es[1..];
    assert es == [x] + rest;
    RenderElementsCons(x, rest, fmt);
  }

  /** `RenderMembersCons` stated on `ms` itself, when it has more than one entry. */
  lemma MembersHead(ms: seq<Member>, fmt: Fmt)
    requires |ms| > 1
    ensures RenderMembers(ms, fmt) == RenderMember(ms[0], fmt) + (", " + RenderMembers(ms[1..], fmt))
  {
    var m, rest := ms[0], ms[1..];
    assert ms == [m] + rest;
    RenderMembersCons(m, rest, fmt);
  }

  /** A single element's text, then `]`. */
  lemma ElementsOne(es: seq<JsonValue>, fmt: Fmt)
    requires |es| == 1
    ensures RenderElements(es, fmt) + "]" == Render(es[0], fmt) + "]"
    ensures |RenderElements(es, fmt)| == |Render(es[0], fmt)|
  {
    assert es[..|es| - 1] == [];
    assert RenderElements(es, fmt) == "" + "" + Render(es[0], fmt);
  }

  /** The first element's text, `", "`, the others, then `]`. */
  lemma ElementsMore(es: seq<JsonValue>, fmt: Fmt)
    requires |es| > 1
    ensures RenderElements(es, fmt) + "]" == Render(es[0], fmt) + (", " + (RenderElements(es[1..], fmt) + "]"))
    ensures |RenderElements(es, fmt)| == |Render(es[0], fmt)| + 2 + |RenderElements(es[1..], fmt)|
  {
    ElementsHead(es, fmt);
    var a, b := Render(es[0], fmt), RenderElements(es[1..], fmt);
    assert (a + (", " + b)) + "]" == a + (", " + (b + "]"));
  }

  /** A single entry's text, then `}`. */
  lemma MembersOne(ms: seq<Member>, fmt: Fmt)
    requires |ms| == 1
    ensures RenderMembers(ms, fmt) + "}" == RenderMember(ms[0], fmt) + "}"
    ensures |RenderMembers(ms, fmt)| == |RenderMember(ms[0], fmt)|
  {
    assert ms[..|ms| - 1] == [];
    assert RenderMembers(ms, fmt) == "" + "" + RenderMember(ms[0], fmt);
  }

  /** The first entry's text, `", "`, the others, then `}`. */
  lemma MembersMore(ms: seq<Member>, fmt: Fmt)
    requires |ms| > 1
    ensures RenderMembers(ms, fmt) + "}" == RenderMember(ms[0], fmt) + (", " + (RenderMembers(ms[1..], fmt) + "}"))
    ensures |RenderMembers(ms, fmt)| == |RenderMember(ms[0], fmt)| + 2 + |RenderMembers(ms[1..], fmt)|
  {
    MembersHead(ms, fmt);
    var a, b := RenderMember(ms[0], fmt), RenderMembers(ms[1..], fmt);
    assert (a + (", " + b)) + "}" == a + (", " + (b + "}"));
  }

  /** Where a last entry `head` stands, then the closing `c`. */
  lemma HeadLast(text: string, p: nat, head: string, c: string)
    requires c == "]" || c == "}"
    requires At(text, p, head + c)
    ensures At(text, p, head) && p + |head| < |text| && text[p + |head|] == c[0] && Delimited(text, p + |head|)
  {
    AtSplit(text, p, head, c);
    AtIndex(text, p + |head|, c, 0);
  }

  /** Where an entry `head` stands, then `", "` and the others `rest`, which do not start with whitespace. */
  lemma HeadMore(text: string, p: nat, head: string, rest: string)
    requires |rest| > 0 && !IsSpace(rest[0])
    requires At(text, p, head + (", " + rest))
    ensures var e := p + |head|;
      && At(text, p, head) && e + 2 <= |text| && text[e] == ',' && Delimited(text, e)
      && SkipWs(text, e + 1) == e + 2 && At(text, e + 2, rest)
  {
    AtSplit(text, p, head, ", " + rest);
    var e := p + |head|;
    AtSplit(text, e, ", ", rest);
    AtIndex(text, e, ", ", 0);
    AtIndex(text, e, ", ", 1);
    SkipSeparator(text, e, rest);
  }

  /** Where a text that does not start with whitespace stands, the reader does not move before it. */
  lemma NoLeadingSpace(text: string, p: nat, head: string)
    requires At(text, p, head) && |head| > 0 && !IsSpace(head[0])
    ensures p < |text| && SkipWs(text, p) == p
  {
    AtIndex(text, p, head, 0);
  }

  /**
   * Where the elements the visitor wrote stand, followed by `]`: the
   * first element's text, then the bracket or `", "` and the others.
   */
  lemma ElementsLayout(es: seq<JsonValue>, fmt: Fmt, text: string, p: nat)
    requires es != [] && forall k | 0 <= k < |es| :: PortableTree(es[k])
    requires At(text, p, RenderElements(es, fmt) + "]")
    ensures At(text, p, Render(es[0], fmt)) && p < |text| && SkipWs(text, p) == p
    ensures var e := p + |Render(es[0], fmt)|;
      && e < |text| && Delimited(text, e)
      && (|es| == 1 ==> text[e] == ']' && |RenderElements(es, fmt)| == |Render(es[0], fmt)|)
      && (|es| > 1 ==>
           && text[e] == ',' && e + 2 <= |text| && SkipWs(text, e + 1) == e + 2
           && At(text, e + 2, RenderElements(es[1..], fmt) + "]")
           && |RenderElements(es, fmt)| == |Render(es[0], fmt)| + 2 + |RenderElements(es[1..], fmt)|)
  {
    var head := Render(es[0], fmt);
    RenderStart(es[0], fmt);
    if |es| == 1 {
      ElementsOne(es, fmt);
      HeadLast(text, p, head, "]");
    } else {
      var rest := RenderElements(es[1..], fmt) + "]";
      ElementsMore(es, fmt);
      ElementsStart(es[1..], fmt);
      HeadMore(text, p, head, rest);
    }
    NoLeadingSpace(text, p, head);
  }

  /**
   * Where the members the visitor wrote stand, followed by `}`: the
   * first entry's text, then the brace or `", "` and the others.
   */
  lemma MembersLayout(ms: seq<Member>, fmt: Fmt, text: string, p: nat)
    requires ms != []
    requires At(text, p, RenderMembers(ms, fmt) + "}")
    ensures At(text, p, RenderMember(ms[0], fmt))
    ensures var e := p + |RenderMember(ms[0], fmt)|;
      && e < |text| && Delimited(text, e)
      && (|ms| == 1 ==> text[e] == '}' && |RenderMembers(ms, fmt)| == |RenderMember(ms[0], fmt)|)
      && (|ms| > 1 ==>
           && text[e] == ',' && e + 2 <= |text| && SkipWs(text, e + 1) == e + 2
           && At(text, e + 2, RenderMembers(ms[1..], fmt) + "}")
           && |RenderMembers(ms, fmt)| == |RenderMember(ms[0], fmt)| + 2 + |RenderMembers(ms[1..], fmt)|)
  {
    var head := RenderMember(ms[0], fmt);
    if |ms| == 1 {
      MembersOne(ms, fmt);
      HeadLast(text, p, head, "}");
    } else {
      var rest := RenderMembers(ms[1..], fmt) + "}";
      MembersMore(ms, fmt);
      MembersStart(ms[1..], fmt);
      HeadMore(text, p, head, rest);
    }
  }

  /** Appending a non-empty `s` is appending its head, then its tail. */
  lemma AppendHead<T>(acc: seq<T>, s: seq<T>)
    requires s != []
    ensures acc + s == (acc + [s[0]]) + s[1..]
    ensures |s| == 1 ==> acc + s == acc + [s[0]]
  {
    assert s == [s[0]] + s[1..];
  }

  /**
   * The array loop of `parseArray` on the elements the visitor wrote,
   * followed by the closing bracket: it appends every element to `acc`
   * (giving `all`) and stops after the bracket (at `q`).
   */
  lemma {:induction false} ElementsAt(es: seq<JsonValue>, acc: seq<JsonValue>, all: seq<JsonValue>, q: nat,
                                      fmt: Fmt, stod: Stod, text: string, p: nat)
    requires es != [] && forall k | 0 <= k < |es| :: Tree(es[k])
    requires At(text, p, RenderElements(es, fmt) + "]")
    requires all == acc + es && q == p + |RenderElements(es, fmt)| + 1
    ensures ElementsFrom(text, p, acc, stod) == Ok((all, q))
    decreases es, 1
  {
    assert es[0] in es;
    ElementsLayout(es, fmt, text, p);
    AppendHead(acc, es);
    if |es| == 1 {
      HeadThenBracket(es[0], acc, p + |Render(es[0], fmt)|, all, q, fmt, stod, text, p);
    } else {
      ElementsTail(es, acc, p + |Render(es[0], fmt)| + 2, all, q, fmt, stod, text, p);
    }
  }

  /** The first of several elements, then `", "` and the others. */
  lemma {:induction false} ElementsTail(es: seq<JsonValue>, acc: seq<JsonValue>, r: nat, all: seq<JsonValue>, q: nat,
                                        fmt: Fmt, stod: Stod, text: string, p: nat)
    requires |es| > 1 && forall k | 0 <= k < |es| :: Tree(es[k])
    requires At(text, p, Render(es[0], fmt)) && p < |text| && SkipWs(text, p) == p
    requires r == p + |Render(es[0], fmt)| + 2 && r <= |text|
    requires text[r - 2] == ',' && SkipWs(text, r - 1) == r
    requires At(text, r, RenderElements(es[1..], fmt) + "]")
    requires q == r + |RenderElements(es[1..], fmt)| + 1
    requires all == (acc + [es[0]]) + es[1..]
    ensures ElementsFrom(text, p, acc, stod) == Ok((all, q))
    decreases es, 0
  {
    HeadThenComma(es[0], acc, r - 2, r, fmt, stod, text, p);
    ElementsAt(es[1..], acc + [es[0]], all, q, fmt, stod, text, r);
  }

  /** The last element, then `]`. */
  lemma {:induction false} HeadThenBracket(x: JsonValue, acc: seq<JsonValue>, e: nat, all: seq<JsonValue>, q: nat,
                                           fmt: Fmt, stod: Stod, text: string, p: nat)
    requires Tree(x)
    requires At(text, p, Render(x, fmt)) && p < |text| && SkipWs(text, p) == p
    requires e == p + |Render(x, fmt)| && e < |text| && text[e] == ']'
    requires all == acc + [x] && q == e + 1
    ensures ElementsFrom(text, p, acc, stod) == Ok((all, q))
    decreases x, 4
  {
    TreeAt(x, e, fmt, stod, text, p, p);
    ElementsLast(text, p, acc, stod, x, e);
  }

  /** An element, then `", "` and the others from `r` on, which the loop reads as `(all, q)`. */
  lemma {:induction false} HeadThenComma(x: JsonValue, acc: seq<JsonValue>, e: nat, r: nat,
                                         fmt: Fmt, stod: Stod, text: string, p: nat)
    requires Tree(x)
    requires At(text, p, Render(x, fmt)) && p < |text| && SkipWs(text, p) == p
    requires e == p + |Render(x, fmt)| && r == e + 2
    requires r <= |text| && text[e] == ',' && SkipWs(text, e + 1) == r
    ensures ElementsFrom(text, p, acc, stod) == ElementsFrom(text, r, acc + [x], stod)
    decreases x, 4
  {
    TreeAt(x, e, fmt, stod, text, p, p);
    ElementsNext(text, p, acc, stod, x, e, r);
  }

  /**
   * The object loop of `parseObject` on the members the visitor wrote,
   * followed by the closing brace: every key is new, so `Put` appends
   * each member to `acc` in turn (giving `all`), and the loop stops after
   * the brace (at `q`).
   */
  lemma {:induction false} MembersAt(ms: seq<Member>, acc: seq<Member>, all: seq<Member>, q: nat,
                                     fmt: Fmt, stod: Stod, text: string, p: nat)
    requires ms != [] && forall k | 0 <= k < |ms| :: Tree(ms[k].value)
    requires At(text, p, RenderMembers(ms, fmt) + "}")
    requires all == acc + ms && UniqueKeys(all) && q == p + |RenderMembers(ms, fmt)| + 1
    ensures MembersFrom(text, p, acc, stod) == Ok((all, q))
    decreases ms, 1
  {
    assert ms[0] in ms;
    MembersLayout(ms, fmt, text, p);
    NewKeyAppends(acc, ms, all);
    if |ms| == 1 {
      MemberThenBrace(ms[0], acc, p + |RenderMember(ms[0], fmt)|, all, q, fmt, stod, text, p);
    } else {
      MembersTail(ms, acc, p + |RenderMember(ms[0], fmt)| + 2, all, q, fmt, stod, text, p);
    }
  }

  /** The first of several entries, then `", "` and the others. */
  lemma {:induction false} MembersTail(ms: seq<Member>, acc: seq<Member>, r: nat, all: seq<Member>, q: nat,
                                       fmt: Fmt, stod: Stod, text: string, p: nat)
    requires |ms| > 1 && forall k | 0 <= k < |ms| :: Tree(ms[k].value)
    requires At(text, p, RenderMember(ms[0], fmt))
    requires r == p + |RenderMember(ms[0], fmt)| + 2 && r <= |text|
    requires text[r - 2] == ',' && SkipWs(text, r - 1) == r
    requires At(text, r, RenderMembers(ms[1..], fmt) + "}")
    requires q == r + |RenderMembers(ms[1..], fmt)| + 1
    requires all == (acc + [ms[0]]) + ms[1..] && UniqueKeys(all)
    requires Put(acc, ms[0].key, ms[0].value) == acc + [ms[0]]
    ensures MembersFrom(text, p, acc, stod) == Ok((all, q))
    decreases ms, 0
  {
    MemberThenComma(ms[0], acc, r - 2, r, fmt, stod, text, p);
    MembersAt(ms[1..], acc + [ms[0]], all, q, fmt, stod, text, r);
  }

  /** The last entry, then `}`. */
  lemma {:induction false} MemberThenBrace(m: Member, acc: seq<Member>, e: nat, all: seq<Member>, q: nat,
                                           fmt: Fmt, stod: Stod, text: string, p: nat)
    requires Tree(m.value)
    requires At(text, p, RenderMember(m, fmt))
    requires e == p + |RenderMember(m, fmt)| && e < |text| && text[e] == '}'
    requires all == Put(acc, m.key, m.value) && q == e + 1
    ensures MembersFrom(text, p, acc, stod) == Ok((all, q))
    decreases m, 2
  {
    MemberAtRendered(m, e, fmt, stod, text, p);
    MembersLast(text, p, acc, stod, m, e);
  }

  /** An entry, then `", "` and the others from `r` on, which the loop reads as `(all, q)`. */
  lemma {:induction false} MemberThenComma(m: Member, acc: seq<Member>, e: nat, r: nat,
                                           fmt: Fmt, stod: Stod, text: string, p: nat)
    requires Tree(m.value)
    requires At(text, p, RenderMember(m, fmt))
    requires e == p + |RenderMember(m, fmt)| && r == e + 2
    requires r <= |text| && text[e] == ',' && SkipWs(text, e + 1) == r
    ensures MembersFrom(text, p, acc, stod) == MembersFrom(text, r, Put(acc, m.key, m.value), stod)
    decreases m, 2
  {
    MemberAtRendered(m, e, fmt, stod, text, p);
    MembersNext(text, p, acc, stod, m, e, r);
  }

  /**
   * With distinct keys in `all == acc + ms`, putting the first of `ms`
   * into `acc` appends it, and the rest of `ms` follows.
   */
  lemma NewKeyAppends(acc: seq<Member>, ms: seq<Member>, all: seq<Member>)
    requires ms != [] && all == acc + ms && UniqueKeys(all)
    ensures Put(acc, ms[0].key, ms[0].value) == acc + [ms[0]]
    ensures all == (acc + [ms[0]]) + ms[1..]
    ensures |ms| == 1 ==> all == Put(acc, ms[0].key, ms[0].value)
  {
    assert ms[0].key !in Keys(acc) by {
      assert forall i | 0 <= i < |acc| :: acc[i] == all[i];
      assert ms[0] == all[|acc|];
    }
    PutNewKey(acc, ms[0].key, ms[0].value);
    AppendHead(acc, ms);
  }

  /**
   * Where one entry of `dumpObject` stands: the key's escaped text between
   * quotes, the colon, a blank, and the value's text.
   */
  lemma MemberLayout(m: Member, fmt: Fmt, text: string, p: nat)
    requires PortableTree(m.value)
    requires At(text, p, RenderMember(m, fmt))
    ensures var ek := Escape(m.key); var e := p + |ek| + 2;
      && p + |ek| + 1 < |text| && text[p] == '"' && At(text, p + 1, ek) && text[p + 1 + |ek|] == '"'
      && e + 1 < |text| && text[e] == ':' && SkipWs(text, e + 1) == e + 2
      && At(text, e + 2, Render(m.value, fmt))
      && |RenderMember(m, fmt)| == |ek| + 4 + |Render(m.value, fmt)|
  {
    var ek := Escape(m.key);
    var tv := Render(m.value, fmt);
    KeyValueRegroup(ek, tv);
    AtSplit(text, p, "\"" + ek + "\"", ": " + tv);
    QuotedLayout(text, p, ek);
    RenderStart(m.value, fmt);
    ColonLayout(text, p + |ek| + 2, tv);
  }

  /** The entry's text read as the quoted key, then `": "` and the value. */
  lemma KeyValueRegroup(ek: string, tv: string)
    ensures "\"" + ek + "\": " + tv == ("\"" + ek + "\"") + (": " + tv)
  {
  }

  /** Where `": "` and a text that does not start with whitespace stand at `e`. */
  lemma ColonLayout(text: string, e: nat, t: string)
    requires At(text, e, ": " + t) && |t| > 0 && !IsSpace(t[0])
    ensures e + 1 < |text| && text[e] == ':' && SkipWs(text, e + 1) == e + 2 && At(text, e + 2, t)
  {
    AtSplit(text, e, ": ", t);
    AtIndex(text, e, ": ", 0);
    AtIndex(text, e, ": ", 1);
    SkipSeparator(text, e, t);
  }

  /**
   * One entry of `dumpObject`, read back by `parseObject`'s member step:
   * the key string, the colon, and the value after the blank.
   */
  lemma {:induction false} MemberAtRendered(m: Member, q: nat, fmt: Fmt, stod: Stod, text: string, p: nat)
    requires Tree(m.value)
    requires At(text, p, RenderMember(m, fmt))
    requires q == p + |RenderMember(m, fmt)| && Delimited(text, q)
    ensures MemberAt(text, p, stod) == Ok((m, q))
    decreases m, 1
  {
    MemberLayout(m, fmt, text, p);
    KeyColonValue(m, p + |Escape(m.key)| + 2, q, fmt, stod, text, p);
  }

  /** A quoted key, `:`, and a value the parser reads back, laid out from `p`. */
  lemma {:induction false} KeyColonValue(m: Member, e: nat, q: nat, fmt: Fmt, stod: Stod, text: string, p: nat)
    requires Tree(m.value)
    requires p + |Escape(m.key)| + 1 < |text| && text[p] == '"' && At(text, p + 1, Escape(m.key))
    requires text[p + 1 + |Escape(m.key)|] == '"'
    requires e == p + |Escape(m.key)| + 2 && e + 1 < |text| && text[e] == ':' && SkipWs(text, e + 1) == e + 2
    requires At(text, e + 2, Render(m.value, fmt)) && q == e + 2 + |Render(m.value, fmt)| && Delimited(text, q)
    ensures MemberAt(text, p, stod) == Ok((m, q))
    decreases m, 0
  {
    KeyThenColon(text, p, stod, m.key, e);
    TreeAt(m.value, q, fmt, stod, text, e + 1, e + 2);
  }

  /** A quoted key followed directly by `:` leaves the member to the value after the colon. */
  lemma KeyThenColon(text: string, p: nat, stod: Stod, key: string, e: nat)
    requires p + |Escape(key)| + 1 < |text| && text[p] == '"' && At(text, p + 1, Escape(key))
    requires text[p + 1 + |Escape(key)|] == '"'
    requires e == p + |Escape(key)| + 2 && e < |text| && text[e] == ':'
    ensures MemberAt(text, p, stod) == MemberOf(key, ValueAt(text, e + 1, stod))
  {
    StringRoundTrip(text, p, key);
    MemberStep(text, p, stod, key, e);
  }

  /** `Parser::parse` on what `JsonDumper::dump` wrote for a tree without doubles gives back the tree. */
  lemma DumpThenParseTree(v: JsonValue, fmt: Fmt, stod: Stod)
    requires Wf(v) && PortableTree(v)
    ensures Document(Render(v, fmt), stod) == Ok(v)
  {
    var t := Render(v, fmt);
    RenderStart(v, fmt);
    assert At(t, 0, t) by {
      assert t[0..|t|] == t;
      AtStartsWith(t, 0, t);
    }
    TreeAt(v, |t|, fmt, stod, t, 0, 0);
  }
}
