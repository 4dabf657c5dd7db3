/**
 * The enum type converter (ComponentModel/TypeConverters/EnumConverter.cs).
 *
 * `TEnum` is a finite table of named 64-bit values. `ConvertFrom` tries, in
 * order: null, string, int, enum, enumerable of strings; anything else goes to
 * the base converter. A list of names converts to the bitwise OR of their
 * values. `CanConvertFrom` says which source types the converter claims.
 */
module EnumConverter {
  import opened Options
  import TI = TypeInference

  /** A boxed `int`. */
  newtype int32 = x: int | -0x8000_0000 <= x < 0x8000_0000

  datatype EnumMember = EnumMember(name: string, value: bv64)

  /**
   * The converter's `TEnum`: whether it is an enum at all (the generic
   * constraint admits any struct), and its named values in the order
   * reflection lists them.
   */
  datatype EnumType = EnumType(isEnum: bool, members: seq<EnumMember>)

  /** The data carried by a non-null input, according to its runtime type. */
  datatype Payload =
    | Text(text: string)
    | Int32Value(int32Value: int32)
    | EnumValue(enumValue: bv64)
    | Strings(items: seq<string>)
    | Opaque

  /** The object handed to `ConvertFrom`: `null`, or a value of a runtime type of the graph. */
  datatype Input = Null | Object(runtimeType: TI.TypeId, payload: Payload)

  /**
   * What `ConvertFrom` does: return an enum value, hand the input to
   * `base.ConvertFrom`, or throw (an `InvalidCastException` from the cast to
   * `IEnumerable<string>`, an `ArgumentException` when `TEnum` is not an
   * enum).
   */
  datatype Outcome = Converted(value: bv64) | DeferredToBase | InvalidCast | ArgumentError

  /** What `CanConvertFrom` does: claim the type, ask `base.CanConvertFrom`, or throw `IndexOutOfRangeException`. */
  datatype Acceptance = Accepted | AskBase | IndexOutOfRange

  // Enum.TryParse and Enum.IsDefined, abstracted

  function LowerAscii(c: char): char {
    if 'A' <= c <= 'Z' then (c as int + 32) as char else c
  }

  /** Ordinal comparison ignoring case. */
  predicate EqualsIgnoreCase(a: string, b: string) {
    |a| == |b| && forall i :: 0 <= i < |a| ==> LowerAscii(a[i]) == LowerAscii(b[i])
  }

  /** The position of the first member named `text`, ignoring case. */
  function FindMember(members: seq<EnumMember>, text: string): (r: Option<nat>)
    ensures r.Some? ==> r.value < |members| && EqualsIgnoreCase(members[r.value].name, text)
    ensures r.Some? ==> forall j :: 0 <= j < r.value ==> !EqualsIgnoreCase(members[j].name, text)
    ensures r.None? ==> forall j :: 0 <= j < |members| ==> !EqualsIgnoreCase(members[j].name, text)
  {
    if |members| == 0 then None
    else if EqualsIgnoreCase(members[0].name, text) then Some(0)
    else match FindMember(members[1..], text)
      case None => None
      case Some(i) => Some(i + 1)
  }

  /**
   * Case-insensitive parsing of a member name, keeping the out value
   * whether or not parsing succeeded: the value of the first member whose
   * name matches ignoring case, and `default(TEnum)`, zero, when none does.
   */
  function TryParse(target: EnumType, text: string): (r: bv64)
    ensures (forall j :: 0 <= j < |target.members| ==> !EqualsIgnoreCase(target.members[j].name, text)) ==> r == 0
    ensures forall j :: (0 <= j < |target.members| && EqualsIgnoreCase(target.members[j].name, text)
      && (forall i :: 0 <= i < j ==> !EqualsIgnoreCase(target.members[i].name, text))) ==> r == target.members[j].value
  {
    match FindMember(target.members, text)
    case None => 0
    case Some(i) => target.members[i].value
  }

  /** Whether some member of `TEnum` has the value `v`. */
  predicate IsDefined(target: EnumType, v: bv64) {
    exists i :: 0 <= i < |target.members| && target.members[i].value == v
  }

  /** An `int` widened to the 64-bit representation of enum values (sign-extended). */
  function Int32Bits(n: int32): bv64 {
    if n >= 0 then (n as int) as bv64 else ((n as int) + 0x1_0000_0000_0000_0000) as bv64
  }

  lemma {:induction false} FindMemberIgnoresCase(members: seq<EnumMember>, a: string, b: string)
    requires EqualsIgnoreCase(a, b)
    ensures FindMember(members, a) == FindMember(members, b)
    decreases |members|
  {
    if |members| > 0 {
      FindMemberIgnoresCase(members[1..], a, b);
    }
  }

  /** Names that differ only in letter case parse to the same value. */
  lemma ParseIgnoresCase(target: EnumType, a: string, b: string)
    requires EqualsIgnoreCase(a, b)
    ensures TryParse(target, a) == TryParse(target, b)
  {
    FindMemberIgnoresCase(target.members, a, b);
  }

  // The flags fold

  /** The bitwise OR of the parsed values of the names, accumulated from the first to the last. */
  function FlagsValue(target: EnumType, names: seq<string>): bv64
    decreases |names|
  {
    if |names| == 0 then 0
    else FlagsValue(target, names[..|names| - 1]) | TryParse(target, names[|names| - 1])
  }

  /** Every listed name's value is contained in the result. */
  lemma {:induction false} FlagsContainEach(target: EnumType, names: seq<string>, x: string)
    requires x in names
    ensures FlagsValue(target, names) | TryParse(target, x) == FlagsValue(target, names)
    decreases |names|
  {
    var init := names[..|names| - 1];
    if x != names[|names| - 1] {
      assert x in init;
      FlagsContainEach(target, init, x);
    }
  }

  /** The result of a list is contained in that of any list holding all its names. */
  lemma {:induction false} FlagsMonotone(target: EnumType, a: seq<string>, b: seq<string>)
    requires forall x :: x in a ==> x in b
    ensures FlagsValue(target, a) | FlagsValue(target, b) == FlagsValue(target, b)
    decreases |a|
  {
    if |a| > 0 {
      var init := a[..|a| - 1];
      assert forall x :: x in init ==> x in a;
      FlagsMonotone(target, init, b);
      FlagsContainEach(target, b, a[|a| - 1]);
    }
  }

  /**
   * The result depends only on which names are listed: reordering or
   * repeating names changes nothing.
   */
  lemma FlagsIgnoreOrderAndRepeats(target: EnumType, a: seq<string>, b: seq<string>)
    requires forall x :: x in a <==> x in b
    ensures FlagsValue(target, a) == FlagsValue(target, b)
  {
    FlagsMonotone(target, a, b);
    FlagsMonotone(target, b, a);
  }

  /** A name that matches no member adds nothing. */
  lemma UnparsableNameAddsNothing(target: EnumType, names: seq<string>, x: string)
    requires forall j :: 0 <= j < |target.members| ==> !EqualsIgnoreCase(target.members[j].name, x)
    ensures FlagsValue(target, names + [x]) == FlagsValue(target, names)
  {
    assert (names + [x])[..|names|] == names;
  }

  // ConvertFrom

  /** The enumerable element type of `t`, as `IsEnumerableType` finds it. */
  function ElementType(ts: TI.TypeSystem, t: TI.TypeId): Option<TI.TypeId>
    requires TI.WellFormed(ts) && t in ts.types
  {
    TI.TryGetElementType(ts, t, ts.enumerableDefinition)
  }

  /** What reflection guarantees about `string` and `int`: distinct, not enums, and `int` is not enumerable. */
  predicate ConverterTypes(ts: TI.TypeSystem) {
    && TI.WellFormed(ts)
    && ts.stringType != ts.int32Type
    && !ts.types[ts.stringType].isEnum
    && !ts.types[ts.int32Type].isEnum
    && !TI.IsEnumerableType(ts, ts.int32Type)
  }

  predicate OtherType(ts: TI.TypeSystem, t: TI.TypeId) {
    t != ts.stringType && t != ts.int32Type
  }

  /** An input's payload is what a value of its runtime type carries. */
  predicate Fits(ts: TI.TypeSystem, value: Input)
    requires ConverterTypes(ts)
  {
    match value
    case Null => true
    case Object(rt, payload) =>
      rt in ts.types &&
      match payload
      case Text(_) => rt == ts.stringType
      case Int32Value(_) => rt == ts.int32Type
      case EnumValue(_) => OtherType(ts, rt) && ts.types[rt].isEnum
      case Strings(_) => OtherType(ts, rt) && !ts.types[rt].isEnum && ElementType(ts, rt) == Some(ts.stringType)
      case Opaque => OtherType(ts, rt) && !ts.types[rt].isEnum && ElementType(ts, rt) != Some(ts.stringType)
  }

  /** The result of `ConvertFrom`, branch by branch in the order the source tries them. */
  function Conversion(ts: TI.TypeSystem, target: EnumType, value: Input): Outcome
    requires ConverterTypes(ts) && Fits(ts, value)
  {
    match value
    case Null => Converted(0)
    case Object(rt, payload) =>
      if rt == ts.stringType then
        (if target.isEnum then Converted(TryParse(target, payload.text)) else ArgumentError)
      else if rt == ts.int32Type && (!target.isEnum || IsDefined(target, Int32Bits(payload.int32Value))) then
        (if target.isEnum then Converted(Int32Bits(payload.int32Value)) else ArgumentError)
      else if ts.types[rt].isEnum then
        (if target.isEnum then Converted(payload.enumValue) else ArgumentError)
      else if TI.IsEnumerableType(ts, rt) then
        (if ElementType(ts, rt) != Some(ts.stringType) then InvalidCast
         else if |payload.items| == 0 then Converted(0)
         else if target.isEnum then Converted(FlagsValue(target, payload.items))
         else ArgumentError)
      else
        DeferredToBase
  }

  /** The `foreach` of `ConvertFrom` that ORs the parsed names together. */
  method OrNames(target: EnumType, enumerable: seq<string>) returns (convertedValue: bv64)
    ensures convertedValue == FlagsValue(target, enumerable)
  {
    convertedValue := 0;
    for k := 0 to |enumerable|
      invariant convertedValue == FlagsValue(target, enumerable[..k])
    {
      assert enumerable[..k + 1][..k] == enumerable[..k];
      convertedValue := convertedValue | TryParse(target, enumerable[k]);
    }
    assert enumerable[..|enumerable|] == enumerable;
  }

  /** `ConvertFrom`, trying the input's kinds in the source's order. */
  method ConvertFrom(ts: TI.TypeSystem, target: EnumType, value: Input) returns (r: Outcome)
    requires ConverterTypes(ts) && Fits(ts, value)
    ensures r == Conversion(ts, target, value)
  {
    if value.Null? {
      return Converted(0);
    }
    var rt := value.runtimeType;
    var payload := value.payload;

    if rt == ts.stringType {
      if !target.isEnum {
        return ArgumentError;
      }
      return Converted(TryParse(target, payload.text));
    }

    if rt == ts.int32Type {
      if !target.isEnum {
        return ArgumentError;
      }
      var bits := Int32Bits(payload.int32Value);
      if IsDefined(target, bits) {
        return Converted(bits);
      }
    }

    if ts.types[rt].isEnum {
      if !target.isEnum {
        return ArgumentError;
      }
      return Converted(payload.enumValue);
    }

    if TI.IsEnumerableType(ts, rt) {
      if ElementType(ts, rt) != Some(ts.stringType) {
        return InvalidCast;
      }
      var enumerable := payload.items;
      if |enumerable| > 0 {
        if !target.isEnum {
          return ArgumentError;
        }
        var convertedValue := OrNames(target, enumerable);
        return Converted(convertedValue);
      }
      return Converted(0);
    }

    return DeferredToBase;
  }

  /** `null` converts to `default(TEnum)`, zero, whatever `TEnum` is. */
  lemma NullIsDefault(ts: TI.TypeSystem, target: EnumType)
    requires ConverterTypes(ts)
    ensures Conversion(ts, target, Null) == Converted(0)
  {
  }

  /**
   * A string is parsed ignoring case, and one that names no member gives zero
   * rather than an error; it never reaches the enumerable branch, although
   * `string` is itself enumerable.
   */
  lemma StringIsParsed(ts: TI.TypeSystem, target: EnumType, s: string)
    requires ConverterTypes(ts) && target.isEnum
    ensures Conversion(ts, target, Object(ts.stringType, Text(s))) == Converted(TryParse(target, s))
    ensures (forall j :: 0 <= j < |target.members| ==> !EqualsIgnoreCase(target.members[j].name, s)) ==>
      Conversion(ts, target, Object(ts.stringType, Text(s))) == Converted(0)
  {
  }

  /** A defined `int` is that enum value; an undefined one is neither enum nor enumerable, so the base converter gets it. */
  lemma IntIsCheckedAgainstMembers(ts: TI.TypeSystem, target: EnumType, n: int32)
    requires ConverterTypes(ts) && target.isEnum
    ensures IsDefined(target, Int32Bits(n)) ==> Conversion(ts, target, Object(ts.int32Type, Int32Value(n))) == Converted(Int32Bits(n))
    ensures !IsDefined(target, Int32Bits(n)) ==> Conversion(ts, target, Object(ts.int32Type, Int32Value(n))) == DeferredToBase
  {
  }

  /**
   * A list of names converts to the OR of their values; the empty list's
   * `default(TEnum)` is the same as the empty fold.
   */
  lemma NamesAreOred(ts: TI.TypeSystem, target: EnumType, rt: TI.TypeId, names: seq<string>)
    requires ConverterTypes(ts) && target.isEnum && Fits(ts, Object(rt, Strings(names)))
    ensures Conversion(ts, target, Object(rt, Strings(names))) == Converted(FlagsValue(target, names))
  {
  }

  /** Reordering or repeating the names of a list does not change what it converts to. */
  lemma ListOrderIrrelevant(ts: TI.TypeSystem, target: EnumType, rt: TI.TypeId, a: seq<string>, b: seq<string>)
    requires ConverterTypes(ts) && Fits(ts, Object(rt, Strings(a))) && Fits(ts, Object(rt, Strings(b)))
    requires forall x :: x in a <==> x in b
    ensures Conversion(ts, target, Object(rt, Strings(a))) == Conversion(ts, target, Object(rt, Strings(b)))
  {
    if |a| > 0 {
      assert a[0] in b;
    }
    if |b| > 0 {
      assert b[0] in a;
    }
    FlagsIgnoreOrderAndRepeats(target, a, b);
  }

  // CanConvertFrom

  /**
   * `CanConvertFrom` as written: for an enumerable source it reads the
   * source type's own first generic argument, which a non-generic type
   * such as `string[]` does not have.
   */
  function CanConvertFrom(ts: TI.TypeSystem, target: EnumType, source: TI.TypeId): Acceptance
    requires TI.WellFormed(ts) && source in ts.types
  {
    if !target.isEnum then AskBase
    else if source == ts.stringType || source == ts.int32Type || ts.types[source].isEnum then Accepted
    else if TI.IsEnumerableType(ts, source) then
      (if |ts.types[source].genericArguments| == 0 then IndexOutOfRange
       else if ts.types[source].genericArguments[0] == ts.stringType then Accepted
       else AskBase)
    else AskBase
  }

  /** `CanConvertFrom` testing the enumerable element type, the type `ConvertFrom` casts to. */
  function CanConvertFromElementType(ts: TI.TypeSystem, target: EnumType, source: TI.TypeId): Acceptance
    requires TI.WellFormed(ts) && source in ts.types
  {
    if target.isEnum
      && (source == ts.stringType || source == ts.int32Type || ts.types[source].isEnum
          || ElementType(ts, source) == Some(ts.stringType))
    then Accepted
    else AskBase
  }

  /** Only an enum `TEnum` claims any source type, in either version. */
  lemma AcceptsOnlyForEnums(ts: TI.TypeSystem, target: EnumType, source: TI.TypeId)
    requires TI.WellFormed(ts) && source in ts.types && !target.isEnum
    ensures CanConvertFrom(ts, target, source) == AskBase
    ensures CanConvertFromElementType(ts, target, source) == AskBase
  {
  }

  /**
   * The corrected test claims exactly the source types, other than `int`,
   * whose values `ConvertFrom` converts itself; `int` is claimed although an
   * undefined value goes to the base converter.
   */
  lemma ElementTypeTestMatchesConversion(ts: TI.TypeSystem, target: EnumType, value: Input)
    requires ConverterTypes(ts) && target.isEnum && Fits(ts, value)
    requires value.Object? && value.runtimeType != ts.int32Type
    ensures CanConvertFromElementType(ts, target, value.runtimeType) == Accepted <==>
      Conversion(ts, target, value).Converted?
  {
    var rt := value.runtimeType;
    if rt != ts.stringType && !ts.types[rt].isEnum && ElementType(ts, rt) == Some(ts.stringType) {
      assert TI.IsEnumerableType(ts, rt);
    }
  }

  /** A value of an enum type converts to its own bits, or throws when `TEnum` is not an enum. */
  lemma EnumValueConverted(ts: TI.TypeSystem, target: EnumType, rt: TI.TypeId, v: bv64)
    requires ConverterTypes(ts) && Fits(ts, Object(rt, EnumValue(v)))
    ensures Conversion(ts, target, Object(rt, EnumValue(v))) == (if target.isEnum then Converted(v) else ArgumentError)
  {
  }

  /**
   * A value that is neither a string, an `int`, an enum nor an enumerable of
   * strings fails the cast when its type is enumerable, and goes to the base
   * converter otherwise.
   */
  lemma OtherValues(ts: TI.TypeSystem, target: EnumType, rt: TI.TypeId)
    requires ConverterTypes(ts) && Fits(ts, Object(rt, Opaque))
    ensures Conversion(ts, target, Object(rt, Opaque)) ==
      (if TI.IsEnumerableType(ts, rt) then InvalidCast else DeferredToBase)
  {
  }

  /**
   * When `TEnum` is not an enum, every input that reaches an `Enum` call
   * throws `ArgumentException`; only `null` and an empty list give
   * `default(TEnum)` without one.
   */
  lemma NonEnumTargetThrows(ts: TI.TypeSystem, target: EnumType, value: Input)
    requires ConverterTypes(ts) && Fits(ts, value) && !target.isEnum
    ensures value.Object? && (value.payload.Text? || value.payload.Int32Value? || value.payload.EnumValue?) ==>
      Conversion(ts, target, value) == ArgumentError
    ensures value.Object? && value.payload.Strings? ==>
      Conversion(ts, target, value) == (if |value.payload.items| == 0 then Converted(0) else ArgumentError)
  {
  }

  /**
   * The test as written and the element-type test agree on every source
   * type whose first own generic argument is its enumerable element type;
   * they can differ only where that fails.
   */
  lemma AsWrittenAgreesWithElementTest(ts: TI.TypeSystem, target: EnumType, s: TI.TypeId)
    requires TI.WellFormed(ts) && s in ts.types
    requires TI.IsEnumerableType(ts, s) ==>
      |ts.types[s].genericArguments| > 0 && Some(ts.types[s].genericArguments[0]) == ElementType(ts, s)
    ensures CanConvertFrom(ts, target, s) == CanConvertFromElementType(ts, target, s)
  {
  }

  /**
   * An enumerable whose first own generic argument is `string` but whose
   * element type is not (a `Dictionary<string, X>`) is claimed by the test
   * as written, while `ConvertFrom` throws `InvalidCastException` on it.
   */
  lemma ClaimedButNotCast(ts: TI.TypeSystem, target: EnumType, rt: TI.TypeId)
    requires ConverterTypes(ts) && target.isEnum && rt in ts.types && OtherType(ts, rt) && !ts.types[rt].isEnum
    requires TI.IsEnumerableType(ts, rt) && ElementType(ts, rt) != Some(ts.stringType)
    requires |ts.types[rt].genericArguments| > 0 && ts.types[rt].genericArguments[0] == ts.stringType
    ensures CanConvertFrom(ts, target, rt) == Accepted
    ensures Fits(ts, Object(rt, Opaque)) && Conversion(ts, target, Object(rt, Opaque)) == InvalidCast
  {
  }

  // A graph with `string[]`: it implements `IEnumerable<string>` but has no generic arguments.

  const ObjectId: TI.TypeId := 0
  const EnumerableId: TI.TypeId := 1
  const CollectionId: TI.TypeId := 2
  const StringId: TI.TypeId := 3
  const Int32Id: TI.TypeId := 4
  const EnumerableOfStringId: TI.TypeId := 5
  const StringArrayId: TI.TypeId := 6

  function StringArrayWorld(): TI.TypeSystem {
    TI.TypeSystem(
      map[
        ObjectId := TI.TypeInfo(None, [], None, [], false, false, false),
        EnumerableId := TI.TypeInfo(None, [], Some(EnumerableId), [], true, true, false),
        CollectionId := TI.TypeInfo(None, [], Some(CollectionId), [], true, true, false),
        StringId := TI.TypeInfo(Some(ObjectId), [], None, [], false, false, false),
        Int32Id := TI.TypeInfo(Some(ObjectId), [], None, [], false, false, false),
        EnumerableOfStringId := TI.TypeInfo(None, [], Some(EnumerableId), [StringId], false, true, false),
        StringArrayId := TI.TypeInfo(Some(ObjectId), [EnumerableOfStringId], None, [], false, false, false)
      ],
      CollectionId, EnumerableId, StringId, Int32Id)
  }

  lemma StringArrayWorldIsWellFormed()
    ensures TI.WellFormed(StringArrayWorld())
  {
    var w := StringArrayWorld();
    forall t | t in w.types
      ensures TI.TypeWellFormed(w, t)
    {
    }
  }

  /** `int` has no enumerable implementation in this graph. */
  lemma Int32IsNotEnumerable()
    ensures TI.WellFormed(StringArrayWorld())
    ensures TI.GetGenericTypeImplementations(StringArrayWorld(), Int32Id, EnumerableId) == []
  {
    StringArrayWorldIsWellFormed();
    var w := StringArrayWorld();
    assert TI.Candidates(w, Int32Id, EnumerableId) == [];
    assert [] + [Int32Id] == [Int32Id] && [Int32Id][..0] == [];
    assert TI.Distinct([Int32Id]) == [Int32Id];
  }

  lemma StringArrayWorldIsConverterTypes()
    ensures ConverterTypes(StringArrayWorld())
  {
    Int32IsNotEnumerable();
  }

  /** `string[]` has exactly one enumerable implementation, `IEnumerable<string>`. */
  lemma StringArrayImplementations()
    ensures TI.WellFormed(StringArrayWorld())
    ensures TI.GetGenericTypeImplementations(StringArrayWorld(), StringArrayId, EnumerableId) == [EnumerableOfStringId]
  {
    StringArrayWorldIsWellFormed();
    var w := StringArrayWorld();
    assert TI.Candidates(w, StringArrayId, EnumerableId) == [EnumerableOfStringId];
    var both := [EnumerableOfStringId] + [StringArrayId];
    assert both[..1] == [EnumerableOfStringId] && both[..1][..0] == [];
    assert TI.Distinct([EnumerableOfStringId]) == [EnumerableOfStringId];
    assert TI.Distinct(both) == both;
  }

  lemma StringArrayEnumeratesStrings()
    ensures ConverterTypes(StringArrayWorld())
    ensures ElementType(StringArrayWorld(), StringArrayId) == Some(StringId)
  {
    StringArrayWorldIsConverterTypes();
    StringArrayImplementations();
  }

  /** A `string[]` value is converted by `ConvertFrom`: the names are ORed together. */
  lemma StringArrayIsConverted()
    ensures ConverterTypes(StringArrayWorld())
    ensures Fits(StringArrayWorld(), Object(StringArrayId, Strings(["a"])))
    ensures Conversion(StringArrayWorld(), EnumType(true, [EnumMember("A", 1)]), Object(StringArrayId, Strings(["a"]))) == Converted(1)
  {
    StringArrayEnumeratesStrings();
    assert EqualsIgnoreCase("A", "a");
    assert FlagsValue(EnumType(true, [EnumMember("A", 1)]), ["a"]) == 1;
  }

  /**
   * For `string[]`, whose values `ConvertFrom` converts, the source's
   * `CanConvertFrom` throws, while the element-type test claims the type.
   */
  lemma StringArrayIsRejectedByThrowing()
    ensures ConverterTypes(StringArrayWorld())
    ensures CanConvertFrom(StringArrayWorld(), EnumType(true, [EnumMember("A", 1)]), StringArrayId) == IndexOutOfRange
    ensures CanConvertFromElementType(StringArrayWorld(), EnumType(true, [EnumMember("A", 1)]), StringArrayId) == Accepted
  {
    StringArrayEnumeratesStrings();
  }
}
