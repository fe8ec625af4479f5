/**
 * The jsson value tree (json_value.hpp): a `JsonValue` holds a type tag
 * `type_` and a `std::variant` payload `data_`.  `JsonObject` is a map from
 * key to value and `JsonArray` an ordered sequence; both are owned by the
 * enclosing value, so the tree is a plain datatype here.
 */
module JsonValues {
  import opened Wrappers
  import opened Bytes

  /** `JsonValue::Type`. */
  datatype Type = Null | Boolean | Number | String | Object | Array

  /** A `double`, kept as its IEEE-754 bit pattern; no floating-point arithmetic is modelled. */
  datatype Float64 = Float64(bits: uint64)

  /**
   * One key/value entry of a `JsonObject`.  An object is a sequence of
   * entries with pairwise distinct keys; the order of the sequence stands
   * for the iteration order of the `std::unordered_map`.
   */
  datatype Member = Member(key: string, value: JsonValue)

  /** The alternatives of `data_`: monostate, bool, double, int64_t, string, object, array. */
  datatype Data =
    | Monostate
    | BoolData(b: bool)
    | DoubleData(d: Float64)
    | IntData(i: int64)
    | StringData(s: string)
    | ObjectData(members: seq<Member>)
    | ArrayData(elements: seq<JsonValue>)

  datatype JsonValue = JsonValue(type_: Type, data_: Data)
  {
    /** `type()`. */
    function TypeOf(): Type { type_ }

    predicate IsNull() { type_ == Type.Null }
    predicate IsBoolean() { type_ == Type.Boolean }
    predicate IsNumber() { type_ == Type.Number }
    predicate IsString() { type_ == Type.String }
    predicate IsObject() { type_ == Type.Object }
    predicate IsArray() { type_ == Type.Array }
  }

  /** The tag that belongs to each payload alternative. */
  function TagOf(d: Data): Type
  {
    match d
    case Monostate => Type.Null
    case BoolData(_) => Type.Boolean
    case DoubleData(_) => Type.Number
    case IntData(_) => Type.Number
    case StringData(_) => Type.String
    case ObjectData(_) => Type.Object
    case ArrayData(_) => Type.Array
  }

  predicate UniqueKeys(ms: seq<Member>)
  {
    forall i, j | 0 <= i < j < |ms| :: ms[i].key != ms[j].key
  }

  /**
   * The invariant every constructor establishes: at every node the tag
   * agrees with the payload, and every object has distinct keys.
   */
  predicate Wf(v: JsonValue)
    decreases v
  {
    && v.type_ == TagOf(v.data_)
    && match v.data_
       case ObjectData(ms) => UniqueKeys(ms) && forall i | 0 <= i < |ms| :: Wf(ms[i].value)
       case ArrayData(es) => forall i | 0 <= i < |es| :: Wf(es[i])
       case _ => true
  }

  predicate AllWf(es: seq<JsonValue>)
  {
    forall i | 0 <= i < |es| :: Wf(es[i])
  }

  predicate MembersWf(ms: seq<Member>)
  {
    UniqueKeys(ms) && forall i | 0 <= i < |ms| :: Wf(ms[i].value)
  }

  /** Every value's tag answers exactly one of the `isX()` queries, the one named by `type()`. */
  lemma ExactlyOneKind(v: JsonValue)
    ensures v.IsNull() <==> v.TypeOf() == Type.Null
    ensures v.IsBoolean() <==> v.TypeOf() == Type.Boolean
    ensures v.IsNumber() <==> v.TypeOf() == Type.Number
    ensures v.IsString() <==> v.TypeOf() == Type.String
    ensures v.IsObject() <==> v.TypeOf() == Type.Object
    ensures v.IsArray() <==> v.TypeOf() == Type.Array
    ensures (if v.IsNull() then 1 else 0) + (if v.IsBoolean() then 1 else 0)
          + (if v.IsNumber() then 1 else 0) + (if v.IsString() then 1 else 0)
          + (if v.IsObject() then 1 else 0) + (if v.IsArray() then 1 else 0) == 1
  {
  }

  /** `JsonValue()`: the default value is null. */
  function Default(): (r: JsonValue)
    ensures r.IsNull() && Wf(r) && r.data_.Monostate?
  {
    JsonValue(Type.Null, Monostate)
  }

  /** `JsonValue(bool)`. */
  function OfBool(b: bool): (r: JsonValue)
    ensures r.IsBoolean() && Wf(r) && r.data_.BoolData? && r.data_.b == b
  {
    JsonValue(Type.Boolean, BoolData(b))
  }

  /** `JsonValue(double)`: a number whose payload is the double alternative. */
  function OfDouble(d: Float64): (r: JsonValue)
    ensures r.IsNumber() && Wf(r) && r.data_.DoubleData? && r.data_.d == d
  {
    JsonValue(Type.Number, DoubleData(d))
  }

  /** `JsonValue(int64_t)`: also a number, with the integer alternative. */
  function OfInt(i: int64): (r: JsonValue)
    ensures r.IsNumber() && Wf(r) && r.data_.IntData? && r.data_.i == i
  {
    JsonValue(Type.Number, IntData(i))
  }

  /** `JsonValue(const std::string&)` and `JsonValue(std::string&&)`. */
  function OfString(s: string): (r: JsonValue)
    ensures r.IsString() && Wf(r) && r.data_.StringData? && r.data_.s == s
  {
    JsonValue(Type.String, StringData(s))
  }

  /** `JsonValue(const JsonObject&)` and `JsonValue(JsonObject&&)`: the copy owns its members. */
  function OfObject(ms: seq<Member>): (r: JsonValue)
    ensures r.IsObject() && r.data_.ObjectData? && r.data_.members == ms
    ensures Wf(r) <==> MembersWf(ms)
  {
    JsonValue(Type.Object, ObjectData(ms))
  }

  /** `JsonValue(const JsonArray&)` and `JsonValue(JsonArray&&)`. */
  function OfArray(es: seq<JsonValue>): (r: JsonValue)
    ensures r.IsArray() && r.data_.ArrayData? && r.data_.elements == es
    ensures Wf(r) <==> AllWf(es)
  {
    JsonValue(Type.Array, ArrayData(es))
  }

  /** The value stored under `key`, if any. */
  function Find(ms: seq<Member>, key: string): (r: Option<JsonValue>)
    ensures r.Some? <==> exists i | 0 <= i < |ms| :: ms[i].key == key
    ensures r.Some? ==> exists i | 0 <= i < |ms| :: ms[i] == Member(key, r.value)
  {
    if ms == [] then None
    else if ms[0].key == key then Some(ms[0].value)
    else
      var r := Find(ms[1..], key);
      assert forall i | 0 <= i < |ms| - 1 :: ms[1..][i] == ms[i + 1];
      r
  }

  function Keys(ms: seq<Member>): set<string>
  {
    set i | 0 <= i < |ms| :: ms[i].key
  }

  lemma KeysCons(m: Member, ms: seq<Member>)
    ensures Keys([m] + ms) == {m.key} + Keys(ms)
  {
    var r := [m] + ms;
    assert r[0].key == m.key;
    forall k | k in Keys(r) ensures k in {m.key} + Keys(ms) {
      var i :| 0 <= i < |r| && r[i].key == k;
      if i > 0 { assert ms[i - 1].key == k; }
    }
    forall k | k in Keys(ms) ensures k in Keys(r) {
      var i :| 0 <= i < |ms| && ms[i].key == k;
      assert r[i + 1].key == k;
    }
  }

  /**
   * `obj.keys()[key] = value`: a repeated key is overwritten in place, a
   * new key goes last (see PutFind and PutNewKey).
   */
  function Put(ms: seq<Member>, key: string, v: JsonValue): seq<Member>
  {
    if ms == [] then [Member(key, v)]
    else if ms[0].key == key then [Member(key, v)] + ms[1..]
    else [ms[0]] + Put(ms[1..], key, v)
  }

  /** After Put the key maps to `v` and every other key keeps its value. */
  lemma {:induction false} PutFind(ms: seq<Member>, key: string, v: JsonValue)
    ensures Find(Put(ms, key, v), key) == Some(v)
    ensures forall k | k != key :: Find(Put(ms, key, v), k) == Find(ms, k)
  {
    if ms != [] && ms[0].key != key {
      var r := Put(ms, key, v);
      assert r[1..] == Put(ms[1..], key, v);
      PutFind(ms[1..], key, v);
    }
  }

  /** Put adds exactly `key` to the key set. */
  lemma {:induction false} PutKeys(ms: seq<Member>, key: string, v: JsonValue)
    ensures Keys(Put(ms, key, v)) == Keys(ms) + {key}
  {
    if ms == [] {
      KeysCons(Member(key, v), []);
    } else {
      assert ms == [ms[0]] + ms[1..];
      KeysCons(ms[0], ms[1..]);
      if ms[0].key == key {
        KeysCons(Member(key, v), ms[1..]);
      } else {
        PutKeys(ms[1..], key, v);
        KeysCons(ms[0], Put(ms[1..], key, v));
      }
    }
  }

  /** A key not yet present is appended after the existing members. */
  lemma {:induction false} PutNewKey(ms: seq<Member>, key: string, v: JsonValue)
    requires key !in Keys(ms)
    ensures Put(ms, key, v) == ms + [Member(key, v)]
  {
    if ms != [] {
      assert ms == [ms[0]] + ms[1..];
      KeysCons(ms[0], ms[1..]);
      PutNewKey(ms[1..], key, v);
    }
  }

  /** Put keeps the keys distinct and every value well formed. */
  lemma {:induction false} PutWf(ms: seq<Member>, key: string, v: JsonValue)
    requires UniqueKeys(ms)
    ensures UniqueKeys(Put(ms, key, v))
    ensures MembersWf(ms) && Wf(v) ==> MembersWf(Put(ms, key, v))
  {
    if ms != [] {
      var r := Put(ms, key, v);
      if ms[0].key == key {
        assert forall i | 0 < i < |r| :: r[i] == ms[i];
      } else {
        var rest := Put(ms[1..], key, v);
        PutWf(ms[1..], key, v);
        PutKeys(ms[1..], key, v);
        assert forall i | 0 < i < |r| :: r[i] == rest[i - 1];
        forall j | 0 < j < |r| ensures r[0].key != r[j].key {
          var k := r[j].key;
          assert k in Keys(rest);
          if k != key {
            assert k in Keys(ms[1..]);
            var m :| 0 <= m < |ms[1..]| && ms[1..][m].key == k;
            assert ms[m + 1].key == k;
          }
        }
      }
    }
  }
  /** The members `written` put into `ms` one after the other, as the object loop of the reader does. */
  function PutAll(ms: seq<Member>, written: seq<Member>): seq<Member>
    decreases |written|
  {
    if written == [] then ms else PutAll(Put(ms, written[0].key, written[0].value), written[1..])
  }

  /** The value of the last entry for `key` in a list that may repeat keys. */
  function FindLast(written: seq<Member>, key: string): Option<JsonValue>
  {
    if written == [] then None
    else if written[|written| - 1].key == key then Some(written[|written| - 1].value)
    else FindLast(written[..|written| - 1], key)
  }

  lemma {:induction false} FindLastCons(m: Member, rest: seq<Member>, key: string)
    ensures FindLast([m] + rest, key)
         == if FindLast(rest, key).Some? then FindLast(rest, key)
            else if m.key == key then Some(m.value) else None
  {
    var w := [m] + rest;
    if rest != [] {
      assert w[|w| - 1] == rest[|rest| - 1];
      assert w[..|w| - 1] == [m] + rest[..|rest| - 1];
      FindLastCons(m, rest[..|rest| - 1], key);
    }
  }

  /**
   * Last write wins: after putting a list of entries, a key written in
   * the list maps to its last value, and any other key keeps its value.
   */
  lemma {:induction false} PutAllFind(ms: seq<Member>, written: seq<Member>, key: string)
    ensures Find(PutAll(ms, written), key)
         == if FindLast(written, key).Some? then FindLast(written, key) else Find(ms, key)
    decreases |written|
  {
    if written != [] {
      var m := written[0];
      assert written == [m] + written[1..];
      PutAllFind(Put(ms, m.key, m.value), written[1..], key);
      PutFind(ms, m.key, m.value);
      FindLastCons(m, written[1..], key);
    }
  }
}
