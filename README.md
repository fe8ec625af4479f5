# jsson-cpp / jasson-cpp core, modelled in Dafny

This project models the core of the two C++ JSON libraries jsson-cpp and
jasson-cpp and proves properties of the model. The core has six parts.

- **The recursive-descent reader** (`jsson-cpp/src/load.cpp`) is module `Load`.
  - The shared `std::string_view&` cursor becomes an index `pos` into the text.
  - Each parser is a specification function (`ValueAt`, `ObjectAt`, `StringAt`, ...) that returns the value and the new cursor, or the `std::runtime_error` it throws.
  - Where the C++ loops, a method keeps the loop and is proved equal to that function (`ParseValue`, `ParseString`, `ParseObject`, ...).
  - Recursion ends because the remaining length of the text shrinks.
- **The UTF-8 routines** (`jsson-cpp/src/utf.cpp`) are module `Utf8`.
  - `isValid`, `encode` and `decode` are methods with their loops.
  - They are specified by `SequenceAt`, which reproduces the code's arithmetic exactly, including its masking of the lead byte.
- **The value trees.**
  - jsson's `JsonValue` (`jsson-cpp/include/json_value.hpp`) is module `JsonValues`. It holds a tag `type_` and a variant `data_`. An object is a list of members with distinct keys.
  - jasson's `Value` (`jasson-cpp/include/jasson/value.hpp`) is module `JassonValues`, with tag-checked accessors. Its `ValuePtr` shared pointer is the class `ValueCell`.
- **The text serializer** (`jsson-cpp/src/dump.cpp`) is module `Dump`.
  - The output stream is the string written so far. `Render` is what each visitor case appends.
  - `RoundTrip` proves that the reader reads back what the writer wrote: for strings, for `null`/`true`/`false`, and for integers that a `double` holds exactly.
  - `TreeRoundTrip` extends that to arrays and objects built from those values, nested to any depth.
- **The binary TLV codec** has two versions.
  - The big-endian one, with explicit shifts, is `jsson-cpp/include/pack_unpack.hpp`, module `PackUnpackHeader`.
  - The host-order one, with `memcpy`, is `jsson-cpp/src/pack_unpack.cpp`, module `PackUnpackHost`.
  - Both share the tag table of `BinaryTypes` and the byte arithmetic of `Bytes`.
  - `pack` followed by `unpack` gives back the item and leaves the cursor right after it.
- **Two in-place structures.**
  - `StringBuffer` (`jsson-cpp/src/strbuffer.cpp`) is a class over an `array<char>` (the storage of `buffer_`), a `length` field (`buffer_.size()`) and a `size` field (`size_`), with a NUL terminator. `memmove` and `memcpy` are methods specified by the sequence functions `Moved` and `Copied`. The value `Storage` and the functions `Reserved`, `Appended` and `Prepended` state what `ensure_capacity`, `append` and `prepend` do to that state; a thrown `std::out_of_range` is `None`.
  - The key/value tables (`jsson-cpp/src/hashtable_impl.hpp`, `jsson-cpp/src/hashtable.cpp`) are classes over a `map`.

Conventions:
- A character stands for one byte of a `std::string`. The UTF-8 code reads it as `(c as int) % 256`, the `static_cast<unsigned char>`.
- Fixed-width integers are subset types of `int` (`int32`, `int64`, `uint8`, `uint32`, `uint64`).
- `std::stod` and `out << double` are function parameters (`stod`, `fmt`). A `double` is an opaque 64-bit pattern `Float64`.
- In pack_unpack.cpp the host byte order is the parameter `host: Endian`.

Where the source's comments and documentation disagree with its code, the model follows the code.
- A `\u` escape is not checked for hexadecimal digits. Every letter counts its alphabet position plus 10, so `\uzzzz` stands for 0x25553. The four-byte branch of the escape encoder is therefore reachable, although the branch `value <= 0xFFFF` at load.cpp:158 suggests that a 16-bit value was expected (`Load.NonHexEscapeValue`).
- `JsonStringHashTable::insert` and `HashTable::insert` are documented as "inserts or assigns", but `emplace` never overwrites (see Findings).
- `StringBuffer::prepend` is commented as shifting the content right, but it moves only the terminator (see Findings).
- `StringBuffer::ensure_capacity` is commented as copying the existing characters, but `append(buffer_, size_)` copies the characters after them, or throws (see Findings).
- jasson's `value.hpp` declares two constructors with the same parameter list `std::vector<ValuePtr>`, one for arrays and one for objects, which C++ rejects. The model gives each tag its own constructor, `OfArray` and `OfObject`.
- The data members of a jasson `Value` that a constructor does not set are indeterminate. `Blank` fixes them to `false`, `0` and the zero bit pattern.

## Model

| member | source | states |
|---|---|---|
| Load.SkipWs | jsson-cpp/src/load.cpp:29-33 | the cursor after the whitespace at `pos` lies between `pos` and the end |
| Load.SkipWsSpec | jsson-cpp/src/load.cpp:29-33 | every skipped character is `isspace` (space, \t, \n, \v, \f, \r) and the cursor stops at the end or at a non-space |
| Load.SkipWsIdempotent | jsson-cpp/src/load.cpp:29-33 | skipping whitespace twice is skipping it once |
| Load.SkipWhitespace | jsson-cpp/src/load.cpp:29-33 | the `find_if` loop returns the cursor of the first non-space character, or the end |
| Load.AtStartsWith | jsson-cpp/src/load.cpp:39-45 | reading a word character by character agrees with the `substr(0, n) ==` comparison the reader uses |
| Load.LiteralAt | jsson-cpp/src/load.cpp:36-51 | a literal that is read moves the cursor forward and stays inside the text |
| Load.LiteralAtSpec | jsson-cpp/src/load.cpp:36-51 | accepted iff `true`, `false` or `null` follows the whitespace; consumes exactly that word; gives Boolean(true), Boolean(false) or Null; otherwise fails with "Invalid literal" |
| Load.DigitsEnd | jsson-cpp/src/load.cpp:69 | the end of the digit run lies between its start and the end of the text |
| Load.FractionEnd | jsson-cpp/src/load.cpp:72-75 | the optional `.digit*` ends inside the text, no earlier than it starts |
| Load.ExponentEnd | jsson-cpp/src/load.cpp:78-84 | the optional `[eE][+-]?digit*` ends inside the text, no earlier than it starts |
| Load.NumberEnd | jsson-cpp/src/load.cpp:65-84 | the greedy capture `-?digit*(.digit*)?([eE][+-]?digit*)?` ends inside the text |
| Load.ClassifyNumberSpec | jsson-cpp/src/load.cpp:86-105 | fails with "Failed to parse JSON number" iff `stod` finds no mantissa digit; an integer result only for a literal without `.`, `e`, `E` whose `to_string` is the literal itself (int64 range, exact in a double); any other literal gives the double `stod(lex)` |
| Load.NumberAt | jsson-cpp/src/load.cpp:54-106 | a number that is read advances the cursor and stays inside the text |
| Load.IntLiteralRoundTrip | jsson-cpp/src/load.cpp:91-97 | the decimal text of any int64 that a double holds exactly is classified as that integer |
| Load.IntegerExample | jsson-cpp/src/load.cpp:91-97 | `42` becomes integer 42 |
| Load.NonCanonicalExamples | jsson-cpp/src/load.cpp:91-97 | `007` and `-0` fall back to the double from `stod` |
| Load.ShapeExamples | jsson-cpp/src/load.cpp:86-105 | `42.0` is a double; a lone `-` is rejected |
| Load.ConsumeDigits | jsson-cpp/src/load.cpp:69 | the digit loop stops at the end of the run and appends exactly the digits it passed to `numStr` |
| Load.ConsumeFraction | jsson-cpp/src/load.cpp:72-75 | the fraction step consumes exactly the fraction and appends it to `numStr` |
| Load.ConsumeExponent | jsson-cpp/src/load.cpp:78-84 | the exponent step consumes exactly the exponent and appends it to `numStr` |
| Load.CaptureNumber | jsson-cpp/src/load.cpp:59-84 | `numStr` is exactly the text from the start to the end of the greedy capture |
| Load.ParseNumber | jsson-cpp/src/load.cpp:54-106 | the method returns exactly `NumberAt`: the captured literal, classified |
| Load.HexDigitValue | jsson-cpp/src/load.cpp:144-151 | one character of a `\u` escape adds at most 35 (a digit its value, a letter 10 to 35, anything else 0) |
| Load.HexToInt | jsson-cpp/src/load.cpp:143-151 | the shift-and-add loop computes `HexValue` of the four characters |
| Load.HexValueBound | jsson-cpp/src/load.cpp:143-151 | the value of four escape characters is at most 35 times 0x1111, and below 16^4 when all are hex digits |
| Load.NonHexEscapeValue | jsson-cpp/src/load.cpp:144-151 | `zzzz` is accepted and gives 0x25553, beyond 0xFFFF; `00e9` gives 0xE9 |
| Load.EscapeAt | jsson-cpp/src/load.cpp:120-171 | an escape that is read advances the cursor and stays inside the text |
| Load.DecodeEscape | jsson-cpp/src/load.cpp:120-171 | the `switch` on the escape letter returns exactly `EscapeAt` |
| Load.EscapeAtSpec | jsson-cpp/src/load.cpp:120-171 | each of `\" \\ \/ \b \f \n \r \t` gives one byte and advances by 1; any other letter fails with "Invalid escape sequence"; `\u` with fewer than 4 characters left fails with "Invalid Unicode escape"; otherwise `\u` gives the 1 to 4 UTF-8 bytes of its value and advances by 5 |
| Load.CharsFrom | jsson-cpp/src/load.cpp:117-178 | a string body that is read advances the cursor and stays inside the text |
| Load.CharsAfterEscape | jsson-cpp/src/load.cpp:120-172 | the rest of the body after an escape advances the cursor and stays inside the text |
| Load.CharsFromErrors | jsson-cpp/src/load.cpp:117-178 | a failing string body fails only with running off the end, "Unexpected end of string", "Invalid escape sequence" or "Invalid Unicode escape" |
| Load.CharsFromCloses | jsson-cpp/src/load.cpp:117-178 | a string body that is read ends just after a closing quote |
| Load.CharsFromPlain | jsson-cpp/src/load.cpp:173-178 | characters other than quote and backslash are copied unchanged up to the closing quote |
| Load.ParseChars | jsson-cpp/src/load.cpp:117-178 | the `while` loop over the body returns exactly `CharsFrom` |
| Load.StringAt | jsson-cpp/src/load.cpp:109-180 | a string literal that is read advances the cursor and stays inside the text |
| Load.ParseString | jsson-cpp/src/load.cpp:109-180 | the method returns exactly `StringAt` |
| Load.StringAtSpec | jsson-cpp/src/load.cpp:109-180 | fails with "Expected string literal" iff no quote follows the whitespace; a string that is read is a String value that ends at a closing quote |
| Load.MemberAt | jsson-cpp/src/load.cpp:200-214 | a `key : value` member that is read advances the cursor and stays inside the text |
| Load.MemberAfterKey | jsson-cpp/src/load.cpp:201-213 | the colon and value after a key advance the cursor and stay inside the text |
| Load.MembersFrom | jsson-cpp/src/load.cpp:198-227 | the member loop advances the cursor and stays inside the text |
| Load.MembersAfter | jsson-cpp/src/load.cpp:214-226 | the rest of a round of the member loop advances the cursor and stays inside the text |
| Load.ObjectAt | jsson-cpp/src/load.cpp:183-228 | an object that is read advances the cursor and stays inside the text |
| Load.ElementsFrom | jsson-cpp/src/load.cpp:246-261 | the element loop advances the cursor and stays inside the text |
| Load.ElementsAfter | jsson-cpp/src/load.cpp:248-260 | the rest of a round of the element loop advances the cursor and stays inside the text |
| Load.ArrayAt | jsson-cpp/src/load.cpp:231-262 | an array that is read advances the cursor and stays inside the text |
| Load.ValueAt | jsson-cpp/src/load.cpp:265-285 | a value that is read advances the cursor and stays inside the text |
| Load.ValueAtWf | jsson-cpp/src/load.cpp:265-285 | every value the reader builds is well formed: the tag matches the payload at every node and object keys are distinct |
| Load.ObjectAtWf | jsson-cpp/src/load.cpp:183-228 | `parseObject` builds a well-formed Object |
| Load.MembersFromWf | jsson-cpp/src/load.cpp:198-227 | the member loop keeps the members well formed |
| Load.MembersAfterWf | jsson-cpp/src/load.cpp:213-226 | one round of the member loop keeps the members well formed |
| Load.MemberAtWf | jsson-cpp/src/load.cpp:200-214 | the value of a member that is read is well formed |
| Load.MemberAfterKeyWf | jsson-cpp/src/load.cpp:206-214 | the value after a key and colon is well formed |
| Load.ArrayAtWf | jsson-cpp/src/load.cpp:231-262 | `parseArray` builds a well-formed Array |
| Load.ElementsFromWf | jsson-cpp/src/load.cpp:246-261 | the element loop keeps the elements well formed |
| Load.ElementsAfterWf | jsson-cpp/src/load.cpp:247-260 | one round of the element loop keeps the elements well formed |
| Load.ValueAtDispatch | jsson-cpp/src/load.cpp:265-285 | fails with "Unexpected end of input" on empty input and "Unexpected character" on any other first character; otherwise the kind of value is fixed by the first character: `{` Object, `[` Array, `"` String, `t`/`f`/`n` Boolean or Null, `-` or a digit Number (each in both directions) |
| Load.WrittenMembers | jsson-cpp/src/load.cpp:198-227 | the members as written, repeats included, end inside the text |
| Load.MembersFromPutAll | jsson-cpp/src/load.cpp:198-227 | the member loop succeeds iff the written members are read, and then yields them put into the object one after another; errors agree |
| Load.ObjectLastWriteWins | jsson-cpp/src/load.cpp:213-214 | in an object that is read, every key maps to the value of its last occurrence in the text |
| Load.ElementsFromAppend | jsson-cpp/src/load.cpp:246-248 | the element loop only appends: elements already read stay first, in order |
| Load.ElementsAfterAppend | jsson-cpp/src/load.cpp:247-258 | one round of the element loop only appends to what was read before |
| Load.ElementsAfterAppendComma | jsson-cpp/src/load.cpp:255-258 | after a `,` the element loop only appends to what was read before |
| Load.ElementsAfterComma | jsson-cpp/src/load.cpp:255-258 | after a `,` the loop continues with the element pushed at the end |
| Load.ElementsFromFirst | jsson-cpp/src/load.cpp:246-248 | the first element of an array is the value at its first position |
| Load.ElementsAfterFirst | jsson-cpp/src/load.cpp:247-253 | the first element pushed is the element just read |
| Load.EmptyContainers | jsson-cpp/src/load.cpp:193-196 | `{}` is the empty object and `[ ]` the empty array |
| Load.TrailingInput | jsson-cpp/src/load.cpp:297-300 | anything but whitespace after the root fails with "Extra data"; `\v` and `\f` count as whitespace |
| Load.ParseMember | jsson-cpp/src/load.cpp:200-214 | key, colon and value, returned exactly as `MemberAt` |
| Load.MemberRound | jsson-cpp/src/load.cpp:198-227 | one round either finishes with the result of the whole loop or continues at a later cursor with the same remaining result |
| Load.ParseMembers | jsson-cpp/src/load.cpp:198-227 | the `while (true)` loop returns exactly `MembersFrom` from the empty object |
| Load.ParseObject | jsson-cpp/src/load.cpp:183-228 | the method returns exactly `ObjectAt` |
| Load.ElementRound | jsson-cpp/src/load.cpp:246-261 | one round either finishes with the result of the whole loop or continues at a later cursor with the same remaining result |
| Load.ParseElements | jsson-cpp/src/load.cpp:246-261 | the `while (true)` loop returns exactly `ElementsFrom` from the empty array |
| Load.ParseArray | jsson-cpp/src/load.cpp:231-262 | the method returns exactly `ArrayAt` |
| Load.ParseValue | jsson-cpp/src/load.cpp:265-285 | the method returns exactly `ValueAt` |
| Load.Document | jsson-cpp/src/load.cpp:288-302 | parsing succeeds iff one value is read and only whitespace follows it; the result is well formed |
| Load.Parse | jsson-cpp/src/load.cpp:288-302 | `Parser::parse` on the file content returns exactly `Document` |
| Utf8.Utf8Of2 | jsson-cpp/src/utf.cpp:63-66 | a two-byte encoding is `0xC0 + cp/64, 0x80 + cp%64`, and those parts give back `cp` |
| Utf8.Utf8Of3 | jsson-cpp/src/utf.cpp:67-71 | a three-byte encoding is lead `0xE0 + cp/4096` and two continuation bytes, whose parts give back `cp` |
| Utf8.Utf8Of4 | jsson-cpp/src/utf.cpp:72-77 | a four-byte encoding is lead `0xF0 + cp/262144` and three continuation bytes, whose parts give back `cp` |
| Utf8.Utf8OfLength | jsson-cpp/src/utf.cpp:60-78 | the encoding has 1, 2, 3 or 4 bytes for cp ≤ 0x7F, ≤ 0x7FF, ≤ 0xFFFF or larger; a surrogate leads with 0xED |
| Utf8.LeadLength | jsson-cpp/src/utf.cpp:90-100 | the sequence length is at most 4, and 0 (invalid lead) exactly for 0x80–0xBF and 0xF5–0xFF |
| Utf8.SequenceLength | jsson-cpp/src/utf.cpp:13-23 | the lead-byte classification returns `LeadLength` |
| Utf8.CheckContinuations | jsson-cpp/src/utf.cpp:107-112 | the loop says yes iff every byte after the lead is in 0x80–0xBF |
| Utf8.Accumulate | jsson-cpp/src/utf.cpp:115-118 | the loop computes `cp = (cp << 6) + (b & 0x3F)` over all bytes, the lead included |
| Utf8.SequenceAt | jsson-cpp/src/utf.cpp:83-131 | a sequence that is read has 1 to 4 bytes inside the string |
| Utf8.IsValid | jsson-cpp/src/utf.cpp:6-52 | `isValid` returns true iff every sequence, one after another, reads to the end of the string |
| Utf8.Decode | jsson-cpp/src/utf.cpp:81-131 | returns none and leaves `index` unchanged when `index ≥ size` or the sequence is malformed; otherwise returns the computed code point and advances `index` by exactly the sequence length |
| Utf8.ValidRejects | jsson-cpp/src/utf.cpp:13-35 | `isValid("")` holds; a lead in 0x80–0xBF or 0xF5–0xFF, a sequence that runs past the end, or a bad continuation byte makes the string invalid |
| Utf8.FourByteRejected | jsson-cpp/src/utf.cpp:38-47 | every four-byte sequence computes cp ≥ 0xC00000 and is rejected by both `decode` and `isValid` |
| Utf8.AsciiMasked | jsson-cpp/src/utf.cpp:115-118 | a one-byte character reads as its low six bits, so from 0x40 on it does not read as itself |
| Utf8.EncodeDecodeExact | jsson-cpp/src/utf.cpp:114-131 | for cp < 0x40 and 0x80 ≤ cp < 0x800, decoding the encoding gives cp back with its full length |
| Utf8.ThreeByteOffset | jsson-cpp/src/utf.cpp:114-131 | every three-byte encoding decodes to cp + 0x20000 and passes `isValid`, surrogates included |
| Utf8.IntendedSequenceAt | jsson-cpp/src/utf.cpp:83-131 | with the lead byte masked by its sequence length, a sequence that is read has 1 to 4 bytes inside the string |
| Utf8.IntendedRoundTrip | jsson-cpp/src/utf.cpp:60-131 | with that mask, decoding the encoding of any cp ≤ 0x10FFFF gives cp back with its length, except that surrogates are rejected |
| Utf8.IntendedTwoBytes | jsson-cpp/src/utf.cpp:63-66 | with that mask, two-byte encodings decode to their code point |
| Utf8.IntendedThreeBytes | jsson-cpp/src/utf.cpp:67-71 | with that mask, three-byte encodings decode to their code point, and surrogates are rejected |
| Utf8.IntendedFourBytes | jsson-cpp/src/utf.cpp:72-77 | with that mask, four-byte encodings decode to their code point |
| Utf8.FourBytePayload | jsson-cpp/src/utf.cpp:72-77 | the lead bits and continuation payloads of a four-byte encoding put back together give the code point |
| Utf8.Encode | jsson-cpp/src/utf.cpp:54-79 | fails with `out_of_range` and leaves `out` as it was for cp < 0 or cp > 0x10FFFF; otherwise appends exactly the 1 to 4 encoding bytes, keeps the earlier contents, and returns their count |
| JsonValues.ExactlyOneKind | jsson-cpp/include/json_value.hpp:81-99 | `isX()` holds iff `type() == X`, and exactly one of the six predicates holds |
| JsonValues.Default | jsson-cpp/include/json_value.hpp:41 | the default value is Null with the monostate payload |
| JsonValues.OfBool | jsson-cpp/include/json_value.hpp:44 | Boolean holding the bool |
| JsonValues.OfDouble | jsson-cpp/include/json_value.hpp:47 | Number holding the double alternative |
| JsonValues.OfInt | jsson-cpp/include/json_value.hpp:50 | Number holding the int64 alternative |
| JsonValues.OfString | jsson-cpp/include/json_value.hpp:53-56 | String holding the characters |
| JsonValues.OfObject | jsson-cpp/include/json_value.hpp:59-62 | Object owning the members; well formed iff the members are |
| JsonValues.OfArray | jsson-cpp/include/json_value.hpp:65-68 | Array owning the elements in order; well formed iff they are |
| JsonValues.Find | jsson-cpp/include/json_value.hpp:159-181 | lookup finds a value iff some member has the key, and the member holding it has exactly that key and value |
| JsonValues.PutFind | jsson-cpp/src/load.cpp:214 | after `obj.keys()[key] = v` the key maps to `v` and every other key keeps its value |
| JsonValues.PutKeys | jsson-cpp/src/load.cpp:214 | the assignment adds exactly the key to the key set |
| JsonValues.PutNewKey | jsson-cpp/src/load.cpp:214 | a new key is added after the existing members |
| JsonValues.PutWf | jsson-cpp/include/json_value.hpp:161 | the assignment keeps the keys distinct and the values well formed |
| JsonValues.PutAllFind | jsson-cpp/src/load.cpp:198-227 | after assigning a list of entries, a key in the list maps to its last value and any other key keeps its value |
| JassonValues.ValueCell.constructor | jasson-cpp/include/jasson/value.hpp:28 | a new shared cell holds the value |
| JassonValues.Blank | jasson-cpp/include/jasson/value.hpp:95-102 | a value with the given tag and empty string, array and object members |
| JassonValues.NewNull | jasson-cpp/include/jasson/value.hpp:33 | tag Null |
| JassonValues.OfBool | jasson-cpp/include/jasson/value.hpp:34 | tag Boolean with the bool |
| JassonValues.OfInt | jasson-cpp/include/jasson/value.hpp:35 | tag Integer with the `int` |
| JassonValues.OfDouble | jasson-cpp/include/jasson/value.hpp:36 | tag Double with the double |
| JassonValues.OfString | jasson-cpp/include/jasson/value.hpp:38 | tag String with the characters |
| JassonValues.CString | jasson-cpp/include/jasson/value.hpp:37 | the characters of a C string are those before its first NUL |
| JassonValues.OfCString | jasson-cpp/include/jasson/value.hpp:37 | tag String with the characters up to the terminator |
| JassonValues.OfChars | jasson-cpp/include/jasson/value.hpp:39-41 | tag String with exactly `length` characters from the pointer |
| JassonValues.OfArray | jasson-cpp/include/jasson/value.hpp:42 | tag Array with the elements |
| JassonValues.OfObject | jasson-cpp/include/jasson/value.hpp:43 | tag Object with the members |
| JassonValues.AsBool | jasson-cpp/include/jasson/value.hpp:58-61 | returns the payload iff the tag is Boolean, otherwise `bad_variant_access` |
| JassonValues.AsInteger | jasson-cpp/include/jasson/value.hpp:63-66 | returns the payload iff the tag is Integer, otherwise `bad_variant_access` |
| JassonValues.AsDouble | jasson-cpp/include/jasson/value.hpp:68-71 | returns the payload iff the tag is Double, otherwise `bad_variant_access` |
| JassonValues.AsString | jasson-cpp/include/jasson/value.hpp:73-76 | returns the payload iff the tag is String, otherwise `bad_variant_access` |
| JassonValues.AsArray | jasson-cpp/include/jasson/value.hpp:78-81 | returns the payload iff the tag is Array, otherwise `bad_variant_access` |
| JassonValues.AsObject | jasson-cpp/include/jasson/value.hpp:83-86 | returns the payload iff the tag is Object, otherwise `bad_variant_access` |
| JassonValues.OneAccessor | jasson-cpp/include/jasson/value.hpp:58-86 | a Null value answers no accessor; any other value answers exactly one |
| JassonValues.ConstructThenAccess | jasson-cpp/include/jasson/value.hpp:33-86 | each constructor's payload comes back from the matching accessor, and mismatched accessors throw |
| JassonValues.CharsKeepNul | jasson-cpp/include/jasson/value.hpp:37-41 | the `(ptr, length)` constructor keeps NULs that the `const char*` constructor stops at |
| JassonValues.NullValue | jasson-cpp/include/jasson/value.hpp:89-93 | returns the one shared instance on every call, with its tag reset to Null and nothing else changed |
| Dump.EscapeAppend | jsson-cpp/src/dump.cpp:77-84 | escaping works character by character: escaping a concatenation concatenates the escapes |
| Dump.EscapeLength | jsson-cpp/src/dump.cpp:77-84 | the escape is one character longer per `\` or `"`; every other character, control characters included, is copied |
| Dump.EscapeNoBareQuote | jsson-cpp/src/dump.cpp:77-84 | every quote in the escaped text follows a backslash |
| Dump.EscapeString | jsson-cpp/src/dump.cpp:77-84 | the loop of `escape` returns `Escape(s)` |
| Dump.CharsFromEscape | jsson-cpp/src/dump.cpp:77-84 | the reader's string loop (load.cpp:117-178) reads the escaped text up to a quote back as the original string, for every string |
| Dump.CharsPlain | jsson-cpp/src/load.cpp:173-175 | the reader copies a character that is neither quote nor backslash |
| Dump.CharsEscaped | jsson-cpp/src/load.cpp:127-128 | the reader turns `\"` and `\\` back into `"` and `\` |
| Dump.RenderMembersCons | jsson-cpp/src/dump.cpp:92-97 | read from the front, object entries are the first entry, then `", "` and the rest only if there is a rest: no separator before the first or after the last |
| Dump.RenderElementsCons | jsson-cpp/src/dump.cpp:106-109 | read from the front, array elements are the first element, then `", "` and the rest only if there is a rest |
| Dump.DumpValue | jsson-cpp/src/dump.cpp:44-74 | appends to the stream exactly `Render(v)`: `null`, `true`/`false`, the decimal int64, `"` + escape(s) + `"`, `{..}` or `[..]` |
| Dump.DumpObject | jsson-cpp/src/dump.cpp:89-99 | appends `{`, the entries `"key": value` with `", "` between them, then `}`; `{}` when empty |
| Dump.DumpArray | jsson-cpp/src/dump.cpp:104-111 | appends `[`, the elements in index order with `", "` between them, then `]`; `[]` when empty |
| Dump.DumpToString | jsson-cpp/src/dump.cpp:32-34 | `dump` on an empty stream writes exactly `Render(v)` |
| RoundTrip.ScalarText | jsson-cpp/src/dump.cpp:44-62 | the text of null, a boolean, an integer or a string is never empty and does not start with whitespace |
| RoundTrip.RenderScalar | jsson-cpp/src/dump.cpp:44-62 | for these values the visitor writes `ScalarText`, whatever the double format |
| RoundTrip.NumberEndInt | jsson-cpp/src/load.cpp:65-84 | the number scan takes exactly the decimal text of an integer when nothing numeric follows it |
| RoundTrip.IntRoundTrip | jsson-cpp/src/load.cpp:54-106 | `parseNumber` reads back the integer that `out << i` wrote (dump.cpp:56-58) as that int64, when a double holds it exactly |
| RoundTrip.StringRoundTrip | jsson-cpp/src/load.cpp:109-180 | `parseString` reads back `"` + escape(s) + `"` (dump.cpp:60-62) as the string `s`, for every `s` |
| RoundTrip.StringValueRoundTrip | jsson-cpp/src/load.cpp:265-285 | `parseValue` reads the written string back as the same value and moves past it |
| RoundTrip.LiteralValueRoundTrip | jsson-cpp/src/load.cpp:265-285 | `parseValue` reads `null`, `true`, `false` back as the same value |
| RoundTrip.IntValueRoundTrip | jsson-cpp/src/load.cpp:265-285 | `parseValue` reads the written integer back as the same value |
| RoundTrip.ScalarRoundTrip | jsson-cpp/src/load.cpp:265-285 | `parseValue` reads back the text the visitor wrote for any null, boolean, exact integer or string, and moves past exactly that text |
| RoundTrip.ScalarDocument | jsson-cpp/src/load.cpp:288-302 | `parse` on that text gives the value back |
| RoundTrip.DumpThenParse | jsson-cpp/src/load.cpp:288-302 | `parse` of what `dump` wrote (dump.cpp:32-34) gives back the value, for null, booleans, strings and integers a double holds exactly |
| TreeRoundTrip.DumpThenParseTree | jsson-cpp/src/load.cpp:288-302 | `parse` of what `dump` wrote gives back any well-formed tree of arrays and objects whose leaves have no double |
| TreeRoundTrip.RenderStart | jsson-cpp/src/dump.cpp:44-111 | the text of such a tree is never empty and never starts with whitespace |
| TreeRoundTrip.TreeAt | jsson-cpp/src/load.cpp:265-285 | `parseValue` after whitespace reads the tree's text back as the tree and stops right after it |
| TreeRoundTrip.ArrayTreeAt | jsson-cpp/src/load.cpp:231-262 | `parseArray` reads the text of `dumpArray` (dump.cpp:104-111) back as the same array |
| TreeRoundTrip.ObjectTreeAt | jsson-cpp/src/load.cpp:183-228 | `parseObject` reads the text of `dumpObject` (dump.cpp:89-99) back as the same object |
| TreeRoundTrip.ElementsAt | jsson-cpp/src/load.cpp:246-261 | the element loop reads the elements written with `", "` between them, appends them in order and stops after `]` |
| TreeRoundTrip.MembersAt | jsson-cpp/src/load.cpp:198-227 | the member loop reads the members written with `", "` between them, appends them in order when the keys are distinct, and stops after `}` |
| TreeRoundTrip.MemberAtRendered | jsson-cpp/src/load.cpp:200-214 | one `"key": value` entry is read back as that member and the reader stops right after it |
| TreeRoundTrip.NewKeyAppends | jsson-cpp/src/load.cpp:214 | with distinct keys, `obj->keys()[key] = value` for the next written member appends it after those already read |
| Bytes.BigEndianRoundTrip | jsson-cpp/include/pack_unpack.hpp:97-100 | reading the big-endian bytes of `x` gives back `x` |
| Bytes.LittleEndianRoundTrip | jsson-cpp/src/pack_unpack.cpp:17-34 | reading the little-endian bytes of `x` gives back `x` |
| Bytes.BytesRoundTrip | jsson-cpp/src/pack_unpack.cpp:17-34 | whatever the host's byte order, `memcpy` back of what was copied out gives the value |
| Bytes.FromBytesBound | jsson-cpp/src/pack_unpack.cpp:25-33 | `n` copied bytes read as a value below 256^n |
| Bytes.BigEndianAt | jsson-cpp/include/pack_unpack.hpp:36-43 | byte `k` of the big-endian image is the value shifted right by 8(n−1−k) bits and masked with 0xFF |
| Bytes.Unsigned | jsson-cpp/include/pack_unpack.hpp:34 | the two's complement image of a signed value lies below 256^n |
| Bytes.TwosComplementRoundTrip | jsson-cpp/include/pack_unpack.hpp:34-43 | reading the two's complement image back as signed gives the value |
| Decimal.NatToString | jsson-cpp/src/dump.cpp:56-58 | the digits are non-empty decimal digits without a leading zero, and "0" exactly for 0 |
| Decimal.NatToStringRoundTrip | jsson-cpp/src/load.cpp:95 | reading the digits back gives the number |
| Decimal.IntToStringRoundTrip | jsson-cpp/src/load.cpp:95 | `std::to_string` starts with `-` iff the number is negative, and reading it back gives the number |
| BinaryTypes.TagByte | jsson-cpp/include/pack_unpack.hpp:15-22 | the tag byte of each kind reads back as that kind |
| BinaryTypes.TagTypeInverse | jsson-cpp/include/pack_unpack.hpp:15-22 | a byte names a kind only if it is that kind's tag, and names none iff it is not one of `i d b s N E` |
| BinaryTypes.SignedField | jsson-cpp/include/pack_unpack.hpp:97-102 | an `n`-byte field read as signed lies in the signed range of `n` bytes |
| BinaryTypes.SignedRoundTrip | jsson-cpp/include/pack_unpack.hpp:34-43 | writing a signed value as two's complement bytes and reading them back as signed gives the value |
| PackUnpackHeader.Encoded | jsson-cpp/include/pack_unpack.hpp:30-82 | the tag comes first; Integer and Real take 9 bytes; Boolean is `['b', 1 or 0]`; String is 5 + \|s\| bytes ending with `s`; Null and Error are the tag alone |
| PackUnpackHeader.Decoded | jsson-cpp/include/pack_unpack.hpp:86-150 | a successful unpack advances the cursor and stays inside the buffer |
| PackUnpackHeader.Pack | jsson-cpp/include/pack_unpack.hpp:30-82 | `pack` builds exactly `Encoded(item)` |
| PackUnpackHeader.PackInteger | jsson-cpp/include/pack_unpack.hpp:33-44 | the eight shifts write the Integer encoding |
| PackUnpackHeader.PackReal | jsson-cpp/include/pack_unpack.hpp:46-54 | the byte loop writes the Real encoding |
| PackUnpackHeader.PackString | jsson-cpp/include/pack_unpack.hpp:62-70 | the length bytes and the characters write the String encoding |
| PackUnpackHeader.ShiftedBytesAreBigEndian | jsson-cpp/include/pack_unpack.hpp:36-43 | the shifted bytes of `v`, most significant first, are the big-endian bytes of its n-byte image |
| PackUnpackHeader.ShiftedUnsigned | jsson-cpp/include/pack_unpack.hpp:36-43 | shifting the signed value or its unsigned image gives the same low byte |
| PackUnpackHeader.Unpack | jsson-cpp/include/pack_unpack.hpp:86-150 | `unpack` returns exactly `Decoded`: `pos ≥ size` and short payloads fail with out_of_range, the tag byte is consumed first, Integer/Real advance by 8, String by 4 + length, Null by nothing; Error and unknown tags fail with runtime_error |
| PackUnpackHeader.ReadBigEndian | jsson-cpp/include/pack_unpack.hpp:97-100 | the shift-and-or loop computes the big-endian value of the `n` bytes |
| PackUnpackHeader.PackThenUnpack | jsson-cpp/include/pack_unpack.hpp:30-150 | `unpack` from 0 reads back what `pack` wrote, whatever follows, and moves past exactly those bytes; an Error item is refused (strings shorter than 2^32) |
| PackUnpackHeader.IntegerThenUnpack | jsson-cpp/include/pack_unpack.hpp:93-103 | an Integer comes back with `pos = 9` |
| PackUnpackHeader.RealThenUnpack | jsson-cpp/include/pack_unpack.hpp:104-115 | a Real bit pattern comes back with `pos = 9` |
| PackUnpackHeader.StringThenUnpack | jsson-cpp/include/pack_unpack.hpp:124-139 | a String comes back with `pos = 5 + \|s\|` |
| PackUnpackHost.EncodedHost | jsson-cpp/src/pack_unpack.cpp:41-81 | the tag comes first; Integer and Real take 9 bytes; Boolean is `['b', 1 or 0]`; String is 5 + \|s\| bytes ending with `s`; Null is the tag alone; Error takes 5 bytes |
| PackUnpackHost.DecodedHost | jsson-cpp/src/pack_unpack.cpp:84-123 | a successful unpack advances the cursor and stays inside the buffer |
| PackUnpackHost.AppendToBuffer | jsson-cpp/src/pack_unpack.cpp:17-21 | appends exactly the `n` bytes of the object in host order |
| PackUnpackHost.ReadFromBuffer | jsson-cpp/src/pack_unpack.cpp:25-34 | fails with "Buffer too small" and leaves `pos` when `pos + size > buffer.size()`; otherwise returns those bytes and advances `pos` by exactly `size` |
| PackUnpackHost.Pack | jsson-cpp/src/pack_unpack.cpp:41-81 | `pack` builds exactly `EncodedHost(host, item)` |
| PackUnpackHost.Unpack | jsson-cpp/src/pack_unpack.cpp:84-123 | `unpack` returns exactly `DecodedHost`: `pos ≥ size` fails with "No more data", the tag byte is consumed first, String fails when `pos + length > size`, Error reads an `int`, unknown tags fail with invalid_argument |
| PackUnpackHost.HostPackThenUnpack | jsson-cpp/src/pack_unpack.cpp:41-123 | with the byte order fixed, `unpack` from 0 reads back every item `pack` wrote, Error included, and moves past exactly its bytes |
| PackUnpackHost.HostIntegerThenUnpack | jsson-cpp/src/pack_unpack.cpp:95-96 | an Integer comes back with `pos = 9` |
| PackUnpackHost.HostRealThenUnpack | jsson-cpp/src/pack_unpack.cpp:98-99 | a Real bit pattern comes back with `pos = 9` |
| PackUnpackHost.HostStringThenUnpack | jsson-cpp/src/pack_unpack.cpp:104-111 | a String comes back with `pos = 5 + \|s\|` |
| PackUnpackHost.HostErrorThenUnpack | jsson-cpp/src/pack_unpack.cpp:116-117 | an error code comes back with `pos = 5` |
| PackUnpackHost.BigEndianHostAgrees | jsson-cpp/src/pack_unpack.cpp:41-81 | on a big-endian host, `pack` writes the same bytes as the header version, except the Error payload that only this version has |
| StringBuffers.Removed | jsson-cpp/src/strbuffer.cpp:45-55 | nothing is removed when `index ≥ size`; otherwise `count` is clamped to `size − index` and the content is `old[..index] + old[index+count..]` |
| StringBuffers.RemovedClamped | jsson-cpp/src/strbuffer.cpp:47-49 | with the clamped count `c`, the result is `old[..index] + old[index+c..]` |
| StringBuffers.ShiftedLeft | jsson-cpp/src/strbuffer.cpp:51 | after the `memmove` of `remove`, the first `size − c` characters are the content without the `c` at `index` |
| StringBuffers.RemovedRestore | jsson-cpp/src/strbuffer.cpp:45-55 | putting the removed characters back in place gives the original content |
| StringBuffers.PrependLosesContent | jsson-cpp/src/strbuffer.cpp:33-43 | as written, prepending non-empty data to content that holds no NUL never gives `data + old` |
| StringBuffers.PrependExample | jsson-cpp/src/strbuffer.cpp:37 | `"ab"` prepended to `"xyz"` reads `a`, `b`, `z`, NUL, not `abxyz` |
| StringBuffers.Moved | jsson-cpp/src/strbuffer.cpp:37 | `memmove` keeps the length of the storage |
| StringBuffers.MovedAt | jsson-cpp/src/strbuffer.cpp:51 | after `memmove` the `len` characters at `dst` are those that stood at `src`, and every other character is unchanged |
| StringBuffers.Memmove | jsson-cpp/src/strbuffer.cpp:51 | the array afterwards is `Moved(old)`, correct also when the ranges overlap |
| StringBuffers.CopyForward | jsson-cpp/src/strbuffer.cpp:51 | the front-to-back copy (dst ≤ src) moves the range and leaves the rest |
| StringBuffers.CopyBackward | jsson-cpp/src/strbuffer.cpp:37 | the back-to-front copy (src < dst) moves the range and leaves the rest |
| StringBuffers.Copied | jsson-cpp/src/strbuffer.cpp:22 | `memcpy` keeps the length of the storage |
| StringBuffers.CopiedAt | jsson-cpp/src/strbuffer.cpp:22 | after `memcpy` the data stands at `dst` and every other character is unchanged |
| StringBuffers.Memcpy | jsson-cpp/src/strbuffer.cpp:22 | the array afterwards is `Copied(old)`: the data at `dst`, nothing else changed |
| StringBuffers.CopiedAtEnd | jsson-cpp/src/strbuffer.cpp:22-23 | copying data at the end of the content gives the content followed by the data |
| StringBuffers.TerminatorMovedThenCopied | jsson-cpp/src/strbuffer.cpp:37-39 | moving the character at the size and then copying the data to the front gives the as-written prepend result, with that character after the data |
| StringBuffers.ShiftedThenCopied | jsson-cpp/src/strbuffer.cpp:36-38 | shifting content and terminator right by \|data\| and then copying the data to the front gives `data + old` |
| StringBuffers.MoveThenCopy | jsson-cpp/src/strbuffer.cpp:37-38 | the array afterwards is the old one with the one character moved, then the data copied to the front |
| StringBuffers.Initial | jsson-cpp/src/strbuffer.cpp:7-13 | a new buffer: terminated, empty content, `buffer_.size()` is `initial_size`, and `initial_size + 1` characters of storage |
| StringBuffers.Reallocated | jsson-cpp/src/strbuffer.cpp:82-85 | the new block has `minCapacity + 1` characters; it starts with the characters of the old one from `size_` up to `buffer_.size()` |
| StringBuffers.Reserved | jsson-cpp/src/strbuffer.cpp:79-87 | throws exactly when the capacity is too small and `size_` exceeds `buffer_.size()`; otherwise the state is sound, `size_` is kept and the capacity exceeds the minimum; nothing changes when the capacity suffices |
| StringBuffers.Kept | jsson-cpp/src/strbuffer.cpp:79-87 | the first `size_` characters after `ensure_capacity`, as many as before |
| StringBuffers.Appended | jsson-cpp/src/strbuffer.cpp:19-27 | `append` throws exactly when the data is not empty and `ensure_capacity` throws; otherwise the size grows by \|data\| |
| StringBuffers.Prepended | jsson-cpp/src/strbuffer.cpp:33-43 | `prepend` throws exactly when the data is not empty and `ensure_capacity` throws; otherwise the size grows by \|data\| |
| StringBuffers.AppendedContents | jsson-cpp/src/strbuffer.cpp:19-27 | after a successful `append`, the content is what `ensure_capacity` kept followed by `data`, with the terminator after it |
| StringBuffers.AppendInPlace | jsson-cpp/src/strbuffer.cpp:19-27 | when the capacity suffices, `append` succeeds and the content becomes `old + data` |
| StringBuffers.GrowthLosesContent | jsson-cpp/src/strbuffer.cpp:84 | a reallocation of a non-empty buffer leaves a NUL as the first character, so content without NUL is lost |
| StringBuffers.PrependedContents | jsson-cpp/src/strbuffer.cpp:33-43 | after a successful `prepend`, the data stands in front of what `ensure_capacity` kept, as written, and the content is terminated |
| StringBuffers.PrependInPlace | jsson-cpp/src/strbuffer.cpp:33-43 | when the capacity suffices, `prepend` succeeds and the character it moves is the terminator |
| StringBuffers.GrowthExample | jsson-cpp/src/strbuffer.cpp:84 | `sb(16)`, then `"abc"`, then forty characters (a capacity of 44, beyond what `sb(16)` starts with): the content reads three NULs and the forty characters |
| StringBuffers.ThrowExample | jsson-cpp/src/strbuffer.cpp:84 | with the model's exact capacity, `sb(16)`, then 10, 10 and 30 characters: the third `append` throws |
| StringBuffers.ThrowWithSlack | jsson-cpp/src/strbuffer.cpp:84 | the same calls when `resize(16)` leaves any capacity from 21 to 50 (30 in libstdc++, 22 in libc++): the first two appends fit and the third throws |
| StringBuffers.RemovedState | jsson-cpp/src/strbuffer.cpp:45-55 | the state `remove` leaves: terminated, same block and `buffer_.size()`, the size of `Removed`, and no change when `index ≥ size` |
| StringBuffers.RemovedStateContents | jsson-cpp/src/strbuffer.cpp:45-55 | the content of that state is `Removed` of the old content |
| StringBuffers.StringBuffer.Contents | jsson-cpp/src/strbuffer.cpp:57-59 | the content has exactly `size` characters |
| StringBuffers.StringBuffer.Size | jsson-cpp/src/strbuffer.cpp:65-67 | `size()` is the length of the content |
| StringBuffers.StringBuffer.constructor | jsson-cpp/src/strbuffer.cpp:7-13 | a new buffer is `Initial(initial_size)`: empty, with `initial_size` characters of capacity |
| StringBuffers.StringBuffer.EnsureCapacity | jsson-cpp/src/strbuffer.cpp:79-87 | as written: reports failure exactly when `Reserved` throws, and then changes nothing; otherwise the state becomes `Reserved(old state)`, in a new block only when the old one was too small |
| StringBuffers.StringBuffer.AppendChars | jsson-cpp/src/strbuffer.cpp:19-27 | as written: fails exactly when `ensure_capacity` throws, changing nothing; otherwise the state becomes `Appended(old state)`; when the capacity suffices the content becomes `old + data`; the storage is the old one or a new one |
| StringBuffers.StringBuffer.Append | jsson-cpp/src/strbuffer.cpp:15-17 | appending `c` is `Appended` of the one-character data; on failure nothing changes; the storage is the old one or a new one |
| StringBuffers.StringBuffer.PrependChars | jsson-cpp/src/strbuffer.cpp:33-43 | as written: fails exactly when `ensure_capacity` throws, changing nothing; otherwise the state becomes `Prepended(old state)`; when the capacity suffices the first \|data\| characters are `data`, the rest is what stood there before, and the old terminator follows; the storage is the old one or a new one |
| StringBuffers.StringBuffer.Prepend | jsson-cpp/src/strbuffer.cpp:29-31 | prepending `c` is `Prepended` of the one-character data; on failure nothing changes; the storage is the old one or a new one |
| StringBuffers.StringBuffer.EnsureCapacityCopying | jsson-cpp/src/strbuffer.cpp:79-87 | the `ensure_capacity` the comments at lines 81 and 84 describe: content and size kept, capacity at least the minimum, a new block of exactly the minimum only when the old one was too small |
| StringBuffers.StringBuffer.AppendCopying | jsson-cpp/src/strbuffer.cpp:19-27 | `append` over the copying `ensure_capacity`: the content becomes `old + data` whatever the capacity; empty data changes nothing; the storage is the old one or a new one |
| StringBuffers.StringBuffer.PrependShifted | jsson-cpp/src/strbuffer.cpp:33-43 | the prepend the comment at line 36 describes: the content becomes `data + old`; the storage is the old one or a new one |
| StringBuffers.StringBuffer.Remove | jsson-cpp/src/strbuffer.cpp:45-55 | the state becomes `RemovedState(old)`, in the same storage, so the content is `Removed(old, index, count)` and `buffer_.size()` is kept |
| StringBuffers.StringBuffer.Clear | jsson-cpp/src/strbuffer.cpp:69-72 | the size is 0 and the block is the old one with a NUL at 0, in the same storage; `buffer_.size()` is kept |
| StringBuffers.ChainExample | jsson-cpp/src/strbuffer.cpp:19-72 | calls chain on one buffer: `sb(16)`, `append("ab")`, `append("cd")` and `remove(0, 1)` give `"bcd"`; then `clear()` and `append("x")` give `"x"` |
| HashTables.Emplaced | jsson-cpp/src/hashtable_impl.hpp:7 | `emplace` adds the key; an existing value is kept, a new key gets `v` and the size grows by 1; other keys are unchanged |
| HashTables.Assigned | jsson-cpp/include/hashtable.hpp:23-29 | the documented "insert or assign": the key maps to `v` afterwards and the other keys are unchanged |
| HashTables.Erased | jsson-cpp/src/hashtable_impl.hpp:11-20 | the key is gone, the other entries are unchanged, and the size drops by 1 iff the key was present |
| HashTables.EraseUndoesInsert | jsson-cpp/src/hashtable_impl.hpp:5-20 | erasing a key that insertion just added gives back the table as it was |
| HashTables.EmplaceKeepsOldValue | jsson-cpp/src/hashtable_impl.hpp:7-8 | inserting over an existing key keeps the old value, unlike the documented assignment |
| HashTables.HashTable.constructor | jsson-cpp/include/hashtable.hpp:18 | a new table is empty |
| HashTables.HashTable.Insert | jsson-cpp/src/hashtable_impl.hpp:5-9 | returns true iff the key was absent; the table becomes `Emplaced(old)` |
| HashTables.HashTable.InsertOrAssign | jsson-cpp/include/hashtable.hpp:23-29 | the documented behaviour: the result says whether the key was absent; the key maps to the new value |
| HashTables.HashTable.Erase | jsson-cpp/src/hashtable_impl.hpp:11-20 | returns true iff the key was present; the table becomes `Erased(old)` |
| HashTables.HashTable.Find | jsson-cpp/src/hashtable_impl.hpp:22-30 | returns the stored value iff the key is present, and changes nothing |
| HashTables.HashTable.Clear | jsson-cpp/src/hashtable_impl.hpp:32-36 | no entries remain |
| HashTables.HashTable.Size | jsson-cpp/src/hashtable_impl.hpp:38-42 | zero exactly when the table is empty; `Insert` and `Erase` state how it changes |
| HashTables.JsonStringHashTable.constructor | jsson-cpp/src/hashtable.cpp:13 | a new table is empty |
| HashTables.JsonStringHashTable.Insert | jsson-cpp/src/hashtable.cpp:23-30 | never throws, because the guard is always false; empty keys are accepted; returns true iff the key was absent; an existing value is kept |
| HashTables.JsonStringHashTable.Erase | jsson-cpp/src/hashtable.cpp:37-45 | returns true iff the key was present; afterwards the key is absent |
| HashTables.JsonStringHashTable.Find | jsson-cpp/src/hashtable.cpp:53-60 | returns the owned pointer iff the key is present |
| HashTables.JsonStringHashTable.Clear | jsson-cpp/src/hashtable.cpp:63-66 | no entries remain |
| HashTables.JsonStringHashTable.Size | jsson-cpp/src/hashtable.cpp:72-75 | zero exactly when the table is empty; `Insert` and `Erase` state how it changes |

## Left out

- Reading the file in `readFile` and the filename handling of `Parser::parse` (load.cpp:13-26, 290) are I/O. `Parse` takes the file content as text.
- `std::stod` is the parameter `stod`. Its `out_of_range` for literals beyond the range of a double is not modelled: every literal with a mantissa digit converts.
- Load.ClassifyNumberSpec: the int64 test (load.cpp:94-95) assumes that `stod` converts an integer literal to the nearest double. Under that assumption `to_string` of the cast equals the literal exactly when `IsInt64Literal` holds. Out-of-range casts, which C++ leaves undefined, count as "not an integer".
- The source reads `view.front()` on an empty view in several places (load.cpp:66, 193, 207, 217, 241, 251) and removes the closing quote of an unterminated string (load.cpp:178). These are undefined behaviour; the model fails with `TruncatedInput` there.
- `out << d` for a double (dump.cpp:52-54) and `jsson-cpp/src/dtoa.cpp` are floating-point formatting. The text is the parameter `fmt`, and doubles are outside the dump/parse round trip.
- Several lines of load.cpp and dump.cpp do not compile as written against json_value.hpp. The model reads each as storing, or visiting, the value the pointer points at, and `Load.ObjectLastWriteWins` and `TreeRoundTrip.DumpThenParseTree` rest on that reading:
  - load.cpp:214 assigns the `std::shared_ptr<JsonValue>` that `parseValue` returns to the `JsonValue` that `Map` holds (json_value.hpp:161), and `JsonValue` has no assignment from a pointer;
  - load.cpp:248 pushes that pointer into a `std::vector<JsonValue>` (json_value.hpp:189), whose element constructors are all explicit;
  - load.cpp:195, 219, 243 and 253 build the result with `std::make_shared<JsonValue>(*obj)` and `(*arr)`, which copies the container and so every `JsonValue` in it; the copy constructor defaulted at json_value.hpp:71 is deleted, because `data_` holds `std::unique_ptr`s;
  - dump.cpp:120 calls `raw_variant()`, which json_value.hpp does not declare; the model visits `data_`;
  - dump.cpp:96 and 108 pass a `JsonValue` to `dumpValue`, which takes a `const std::shared_ptr<JsonValue>&`.
- The `const char*` visitor case (dump.cpp:64-66) has no alternative in `data_` (json_value.hpp:151-152) and cannot be reached.
- RoundTrip.DumpThenParse and TreeRoundTrip.DumpThenParseTree leave out doubles, whose text is the parameter `fmt`.
- TreeRoundTrip.DumpThenParseTree: an object is a sequence of members, and `Put` appends a new key. That order stands for the iteration order of `std::unordered_map`, which C++ leaves unspecified. Equality of member sequences is therefore stronger than the source's map equality, and the round trip holds only under this abstraction: the model's `dumpObject` writes the members in the order the parser stored them.
- The `reinterpret_cast` between `double` and `uint64_t` (pack_unpack.hpp:49, 113) is the identity on the opaque bit pattern `RealItem(bits)`.
- Host byte order is the parameter `host`.
- The `default: throw std::invalid_argument` of `pack` (pack_unpack.cpp:76-78) is not modelled, and neither is the header `pack` (pack_unpack.hpp:30-82) returning an empty buffer for a tag outside its switch. `enum class BinaryType : char` can hold any `char`, but the model's kinds are closed: an `Item` always has one of the six.
- The header `unpack` (pack_unpack.hpp:99, 120, 130, 136) mixes `std::byte` with integers: `(result << 8) | buffer[pos + i]`, `buffer[pos] != 0`, and a `std::string` built from byte iterators. As written these do not compile once the template is instantiated. The model reads each byte as its value 0..255.
- The template parameter `T` of `unpack`, and the conversion of the decoded payload to `T`, are not modelled. `unpack` returns the decoded `Item`. A `bool` byte other than 0 or 1 reads as true.
- PackUnpackHeader.PackThenUnpack: requires strings shorter than 2^32 bytes. Longer strings have their length truncated to 32 bits by both encoders, so they do not round-trip.
- `StringBuffer::value()`, `str()` and `steal()` (strbuffer.cpp:57-63, 74-77) hand out the storage. `value()` reads it as a C string, up to the first NUL. `str()` returns all `buffer_.size()` characters. `Contents` stands for `value()` when the content holds no NUL; `str()`, and the moves of `steal()`, are not modelled.
- The storage `buffer_` of strbuffer.cpp is a `std::string` whose capacity the library chooses. The model gives the array exactly the requested capacity, so small-string storage is not modelled. Also, strbuffer.hpp declares no `size_` field, although strbuffer.cpp uses one; the model has a `size` field.
- StringBuffers.Reallocated: the characters of the new storage after the copied tail and its NUL lie beyond the string's size. The source leaves them unspecified; the model fills them with NUL.
- `append` and `prepend` write between `buffer_.size()` and its capacity (strbuffer.cpp:22, 24, 37-40). Such writes are undefined behaviour in C++ and never change `buffer_.size()`. The model treats them as plain writes to the storage block.
- The `std::shared_mutex` locks of both hash tables only serve concurrency and are left out.
- `JsonStringHashTable` owns `std::shared_ptr<void*>` values. The model keeps the pointer as an address `Pointer`; reference counts are not modelled.
- `NullValue`'s function-local static is the caller-supplied `shared` cell, which stands for the one instance every call returns.
- The assignment operators of `JsonValue` (json_value.hpp:139-147), the accessors `asObject`/`asArray`/`asBoolean`/`asNumber`/`asString` (105-127) and `toString` are declared without bodies in the headers that were modelled. They are not part of this model.
- `memory.hpp`/`memory.cpp` (allocation wrappers), `error.cpp`, `examples/example.cpp`, `version.hpp`, jasson's unfilled `utf.cpp` template, jasson's `hashtable.hpp` and the declaration-only headers are not part of this model.

## Findings

| source | as written | input that shows it | evidently intended | confidence | as-written member | corrected member |
|---|---|---|---|---|---|---|
| jsson-cpp/src/utf.cpp:40, 117 | `cp = (cp << 6) + (b & 0x3F)` masks the lead byte with 0x3F, like the continuation bytes | `"A"` (0x41) decodes to 0x01; `E0 A0 80` (U+0800) decodes to 0x20800; every four-byte sequence computes at least 0xC00000 and is rejected | mask the lead byte by its sequence length (0x7F, 0x1F, 0x0F, 0x07), so that decoding the encoding of any scalar value gives it back | not executed | Utf8.AsciiMasked, Utf8.ThreeByteOffset, Utf8.FourByteRejected | Utf8.IntendedSequenceAt, Utf8.IntendedRoundTrip |
| jsson-cpp/src/strbuffer.cpp:37 | `prepend` moves only the terminator, then copies the data over the front | `"ab"` prepended to `"xyz"` gives `a b z NUL` | shift the content and terminator right by the data's length first, giving `data + old` | not executed | StringBuffers.PrependLosesContent, StringBuffers.PrependExample, StringBuffers.StringBuffer.PrependChars | StringBuffers.StringBuffer.PrependShifted |
| jsson-cpp/src/strbuffer.cpp:84 | `new_buffer.append(buffer_, size_)` is `append(str, pos)`: it copies the characters of `buffer_` from `size_` to its end, or throws `std::out_of_range` when `size_` exceeds `buffer_.size()` | `sb(16)`, `append("abc")`, then 40 more characters (a capacity of 44, more than `sb(16)` starts with in libstdc++ or libc++): the content reads three NULs, then the 40; `sb(16)` with 10, 10, then 30 characters: the third `append` throws, with any initial capacity up to 50 | `append(buffer_, 0, size_)`: copy the content, then the NUL, so that `append` always gives `old + data` | not executed | StringBuffers.GrowthLosesContent, StringBuffers.GrowthExample, StringBuffers.ThrowExample, StringBuffers.ThrowWithSlack, StringBuffers.StringBuffer.EnsureCapacity | StringBuffers.StringBuffer.EnsureCapacityCopying, StringBuffers.StringBuffer.AppendCopying |
| jsson-cpp/src/hashtable_impl.hpp:5-9 | `insert` uses `emplace`, which keeps an existing value | inserting `(k, 2)` into `{k: 1}` leaves `{k: 1}` | the documented "inserts or assigns": afterwards `k` maps to 2 | not executed | HashTables.EmplaceKeepsOldValue, HashTables.HashTable.Insert | HashTables.HashTable.InsertOrAssign |
