/**
 * `jasson::Value` of jasson/value.hpp: a tag `type_` beside one member per
 * payload kind, with separate Integer and Double tags.  Arrays and objects
 * hold `ValuePtr`s, shared pointers to other values, modelled as
 * references to `ValueCell` objects.
 */
module JassonValues {
  import opened Wrappers
  import opened Bytes
  import JsonValues

  /** `enum class ValueType`. */
  datatype ValueType = Null | Boolean | Integer | Double | String | Object | Array

  /** `std::bad_variant_access`, thrown by an accessor whose tag does not match. */
  datatype BadVariantAccess = BadVariantAccess

  /** `std::shared_ptr<Value>`: a value several holders share and see changes to. */
  class ValueCell {
    var value: Value

    constructor (v: Value)
      ensures value == v
    {
      value := v;
    }
  }

  /**
   * The members of a `Value`.  The constructors initialise the tag and the
   * member it names; `boolean_`, `integer_` and `double_` are otherwise
   * left indeterminate, modelled here as false, 0 and the bits 0.
   */
  datatype Value = Value(
    type_: ValueType,
    boolean_: bool,
    integer_: int32,
    double_: JsonValues.Float64,
    string_: string,
    array_: seq<ValueCell>,
    object_: seq<ValueCell>)

  function Blank(t: ValueType): (v: Value)
    ensures v.type_ == t && v.string_ == [] && v.array_ == [] && v.object_ == []
  {
    Value(t, false, 0, JsonValues.Float64(0), [], [], [])
  }

  /** `Value()`. */
  function NewNull(): (v: Value)
    ensures v.type_ == Null
  {
    Blank(Null)
  }

  /** `Value(bool)`. */
  function OfBool(b: bool): (v: Value)
    ensures v.type_ == Boolean && v.boolean_ == b
  {
    Blank(Boolean).(boolean_ := b)
  }

  /** `Value(int)`. */
  function OfInt(i: int32): (v: Value)
    ensures v.type_ == Integer && v.integer_ == i
  {
    Blank(Integer).(integer_ := i)
  }

  /** `Value(double)`. */
  function OfDouble(d: JsonValues.Float64): (v: Value)
    ensures v.type_ == Double && v.double_ == d
  {
    Blank(Double).(double_ := d)
  }

  /** `Value(const std::string&)`. */
  function OfString(s: string): (v: Value)
    ensures v.type_ == String && v.string_ == s
  {
    Blank(String).(string_ := s)
  }

  /** The characters of a C string: those before the first NUL. */
  function CString(mem: string): (s: string)
    requires '\0' in mem
    ensures '\0' !in s && |s| < |mem| && s == mem[..|s|] && mem[|s|] == '\0'
  {
    if mem[0] == '\0' then [] else [mem[0]] + CString(mem[1..])
  }

  /** `Value(const char*)`: the text up to the terminator of the string at the pointer, whose memory is `mem`. */
  function OfCString(mem: string): (v: Value)
    requires '\0' in mem
    ensures v.type_ == String && v.string_ == CString(mem)
  {
    OfString(CString(mem))
  }

  /** `Value(const char*, size_t)`: exactly `length` characters from the pointer, NULs included. */
  function OfChars(mem: string, length: nat): (v: Value)
    requires length <= |mem|
    ensures v.type_ == String && |v.string_| == length
    ensures forall k | 0 <= k < length :: v.string_[k] == mem[k]
  {
    OfString(mem[..length])
  }

  /** `Value(std::vector<ValuePtr>)` for an array. */
  function OfArray(elements: seq<ValueCell>): (v: Value)
    ensures v.type_ == Array && v.array_ == elements
  {
    Blank(Array).(array_ := elements)
  }

  /**
   * The object constructor.  It has the same parameter list as the array
   * constructor; this is the one the tag `Object` evidently calls for.
   */
  function OfObject(members: seq<ValueCell>): (v: Value)
    ensures v.type_ == Object && v.object_ == members
  {
    Blank(Object).(object_ := members)
  }

  /** `as_bool()`. */
  function AsBool(v: Value): (r: Result<bool, BadVariantAccess>)
    ensures r.Ok? <==> v.type_ == Boolean
    ensures r.Ok? ==> r.value == v.boolean_
  {
    if v.type_ != Boolean then Err(BadVariantAccess) else Ok(v.boolean_)
  }

  /** `as_integer()`. */
  function AsInteger(v: Value): (r: Result<int32, BadVariantAccess>)
    ensures r.Ok? <==> v.type_ == Integer
    ensures r.Ok? ==> r.value == v.integer_
  {
    if v.type_ != Integer then Err(BadVariantAccess) else Ok(v.integer_)
  }

  /** `as_double()`. */
  function AsDouble(v: Value): (r: Result<JsonValues.Float64, BadVariantAccess>)
    ensures r.Ok? <==> v.type_ == Double
    ensures r.Ok? ==> r.value == v.double_
  {
    if v.type_ != Double then Err(BadVariantAccess) else Ok(v.double_)
  }

  /** `as_string()`. */
  function AsString(v: Value): (r: Result<string, BadVariantAccess>)
    ensures r.Ok? <==> v.type_ == String
    ensures r.Ok? ==> r.value == v.string_
  {
    if v.type_ != String then Err(BadVariantAccess) else Ok(v.string_)
  }

  /** `as_array()`. */
  function AsArray(v: Value): (r: Result<seq<ValueCell>, BadVariantAccess>)
    ensures r.Ok? <==> v.type_ == Array
    ensures r.Ok? ==> r.value == v.array_
  {
    if v.type_ != Array then Err(BadVariantAccess) else Ok(v.array_)
  }

  /** `as_object()`. */
  function AsObject(v: Value): (r: Result<seq<ValueCell>, BadVariantAccess>)
    ensures r.Ok? <==> v.type_ == Object
    ensures r.Ok? ==> r.value == v.object_
  {
    if v.type_ != Object then Err(BadVariantAccess) else Ok(v.object_)
  }

  /** How many of the six accessors return instead of throwing. */
  function Readable(v: Value): nat
  {
    (if AsBool(v).Ok? then 1 else 0) + (if AsInteger(v).Ok? then 1 else 0)
    + (if AsDouble(v).Ok? then 1 else 0) + (if AsString(v).Ok? then 1 else 0)
    + (if AsArray(v).Ok? then 1 else 0) + (if AsObject(v).Ok? then 1 else 0)
  }

  /** A null value answers no accessor; any other value exactly one. */
  lemma OneAccessor(v: Value)
    ensures Readable(v) == if v.type_ == Null then 0 else 1
  {
  }

  /** Each constructor's payload comes back from the matching accessor. */
  lemma ConstructThenAccess(b: bool, i: int32, d: JsonValues.Float64, s: string, cells: seq<ValueCell>)
    ensures AsBool(OfBool(b)) == Ok(b) && AsInteger(OfInt(i)) == Ok(i) && AsDouble(OfDouble(d)) == Ok(d)
    ensures AsString(OfString(s)) == Ok(s) && AsArray(OfArray(cells)) == Ok(cells) && AsObject(OfObject(cells)) == Ok(cells)
    ensures AsInteger(OfDouble(d)).Err? && AsDouble(OfInt(i)).Err? && AsArray(OfObject(cells)).Err?
  {
  }

  /** The `(pointer, length)` constructor keeps characters a C string would stop at. */
  lemma CharsKeepNul(mem: string, length: nat)
    requires length <= |mem| && '\0' in mem[..length]
    ensures AsString(OfChars(mem, length)) == Ok(mem[..length])
    ensures '\0' in AsString(OfChars(mem, length)).value && '\0' !in AsString(OfCString(mem)).value
  {
    assert OfChars(mem, length).string_ == mem[..length];
  }

  /**
   * `NullValue()`: the function-local static `shared`, created on the first
   * call as `Value()`, has its tag set back to Null and is returned, the
   * same instance every time; its other members are left as they were.
   */
  method NullValue(shared: ValueCell) returns (p: ValueCell)
    modifies shared
    ensures p == shared && p.value.type_ == Null
    ensures p.value == old(shared.value).(type_ := Null)
  {
    shared.value := shared.value.(type_ := Null);
    p := shared;
  }
}
