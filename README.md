# Ditto core in Dafny

This project models three pieces of Ditto, the Umbraco library that maps
published content onto .NET objects:

- **The proxy argument marshaller.** `ArgumentHandler.PushArguments` emits the IL that packs a
  method's arguments into an `object[]` for the interceptor.
  - It is modelled in `argument_handler.dfy`.
  - The IL generator is a class whose instruction buffer `Emit` appends to.
  - `PushArguments` is a loop over the parameters. It is proved to append exactly `PushedCode(parameters)`.
  - The lemmas then state what that code means:
    - Each parameter has one block, in parameter order.
    - `out` parameters are nulled and never read.
    - By-ref parameters are dereferenced through the opcode table.
    - Value types and generic parameters are boxed.
    - There is one array store per parameter, and the code has a known total length.
- **Generic-interface inference.** `TypeInferenceExtensions` answers, over a type graph, "which `T`
  does this type implement `I<T>` with" (`type_inference.dfy`).
  - Reflection is replaced by a finite map from type identifiers to what reflection reports.
  - A base type always has a smaller identifier than its subtype, so base chains are acyclic.
  - `GetBaseTypes` is a loop proved against the spec function `BaseTypes`.
  - `TryGetElementType` is proved equivalent to a set-based definition: it answers exactly when
    there is one implementation, and gives up on two.
- **The enum type converter.** `EnumConverter<TEnum>` turns `null`, strings, `int`s, enum values and
  lists of names into an enum value (`enum_converter.dfy`).
  - `TEnum` is a table of named 64-bit values.
  - `ConvertFrom` is a method proved equal to the branch-by-branch function `Conversion`.
  - The lemmas state each branch's result: `null`, string, `int` (defined, or falling through to
    the base converter), enum value, list of names, the failed cast of another enumerable, and the
    `ArgumentException` every `Enum` call throws when `TEnum` is not an enum.
  - A list of names converts to the OR of their values, independent of order and repetition.
  - `CanConvertFrom` is modelled as written, next to a corrected version that agrees with what
    `ConvertFrom` converts for every source type other than `int` (see Findings). The two are proved
    to agree wherever a type's first own generic argument is its enumerable element type.

`options.dfy` holds the `Option` type used for .NET `null`. `sequences.dfy` holds three
concatenation and slicing facts used by the proofs.

## Model

| member | source | states |
|---|---|---|
| ArgumentHandler.LoadFor | src/Our.Umbraco.Ditto/Proxy/ArgumentHandler.cs:63-90 | the load is `Ldind_Ref` exactly when the by-ref type name is not a key of the opcode table |
| ArgumentHandler.ReflectionNamesMissTable | src/Our.Umbraco.Ditto/Proxy/ArgumentHandler.cs:65-88 | the names reflection gives by-ref `Boolean`, `Byte`, `SByte`, `UInt16`, `UInt32`, `UInt64`, `Single`, `Double` and `IntPtr` miss the table and are loaded with `Ldind_Ref`; `Int16&`, `Int32&` and `Int64&` hit it |
| ArgumentHandler.BlockShape | src/Our.Umbraco.Ditto/Proxy/ArgumentHandler.cs:46-98 | a parameter's block starts with `Ldloc_S 0; Ldc_I4 index` and ends with its only `Stelem_Ref`. An `out` block is exactly load array, load index, `Ldnull`, store. Otherwise argument `index + 1` comes third, the indirect load fourth when by-ref, and the box just before the store when boxed. Its length is counted independently |
| ArgumentHandler.BlockMembers | src/Our.Umbraco.Ditto/Proxy/ArgumentHandler.cs:50-96 | a block's `Ldarg`, `Ldind` and `Box` are only its own argument, the table's load for a by-ref parameter and the box of its own stripped type, none of them for `out` |
| ArgumentHandler.PushedCode | src/Our.Umbraco.Ditto/Proxy/ArgumentHandler.cs:21-32 | the code allocates `object[n]` into local 0 (`n` is 0 for a null parameter list), ends by loading local 0, and is exactly those four instructions when `n` is 0 |
| ArgumentHandler.BlockPlacement | src/Our.Umbraco.Ditto/Proxy/ArgumentHandler.cs:35-102 | block `k` lies at its offset in the emitted code and block `k + 1` follows it directly |
| ArgumentHandler.InBlocks | src/Our.Umbraco.Ditto/Proxy/ArgumentHandler.cs:39-102 | an instruction occurs among the blocks exactly when it occurs in some parameter's block |
| ArgumentHandler.InPushedCode | src/Our.Umbraco.Ditto/Proxy/ArgumentHandler.cs:24-105 | an instruction other than the frame's occurs in the code exactly when it occurs in some parameter's block |
| ArgumentHandler.ArgumentLoads | src/Our.Umbraco.Ditto/Proxy/ArgumentHandler.cs:35-59 | `Ldarg m` is emitted exactly when `1 <= m <= n` and parameter `m - 1` is not `out`; `isStatic` shifts nothing |
| ArgumentHandler.LoadsOnlyForByRef | src/Our.Umbraco.Ditto/Proxy/ArgumentHandler.cs:63-91 | every indirect load belongs to a by-ref, non-`out` parameter and is the table's load for its type name |
| ArgumentHandler.ByRefLoaded | src/Our.Umbraco.Ditto/Proxy/ArgumentHandler.cs:59-91 | every by-ref, non-`out` parameter's argument is followed directly by the table's load for its type name |
| ArgumentHandler.BoxedSlots | src/Our.Umbraco.Ditto/Proxy/ArgumentHandler.cs:41-96 | `Box t` is emitted exactly when some non-`out` parameter's by-ref-stripped type `t` is a value type or a generic parameter |
| ArgumentHandler.StoreCount | src/Our.Umbraco.Ditto/Proxy/ArgumentHandler.cs:39-102 | the blocks hold one `Stelem_Ref` per parameter |
| ArgumentHandler.StoresPerParameter | src/Our.Umbraco.Ditto/Proxy/ArgumentHandler.cs:21-105 | the whole code stores into the array exactly `n` times, so every slot is written once |
| ArgumentHandler.BlocksLength | src/Our.Umbraco.Ditto/Proxy/ArgumentHandler.cs:39-102 | the blocks are as long as the sum of the per-parameter lengths (4 for `out`, plus one for a load and one for a box) |
| ArgumentHandler.CodeLength | src/Our.Umbraco.Ditto/Proxy/ArgumentHandler.cs:19-106 | the code is four instructions longer than the sum of the block lengths |
| ArgumentHandler.ILGenerator.Emit | src/Our.Umbraco.Ditto/Proxy/ArgumentHandler.cs:24-26 | emitting appends one instruction and changes nothing else |
| ArgumentHandler.EmitArgument | src/Our.Umbraco.Ditto/Proxy/ArgumentHandler.cs:59-96 | emits the argument load, the table's indirect load when by-ref, and the box when boxed, in that order |
| ArgumentHandler.EmitSlot | src/Our.Umbraco.Ditto/Proxy/ArgumentHandler.cs:41-98 | one loop iteration appends exactly the parameter's block, leaving early after `null` for an `out` parameter |
| ArgumentHandler.PushArguments | src/Our.Umbraco.Ditto/Proxy/ArgumentHandler.cs:19-106 | appends exactly `PushedCode(parameters)` to the generator, including the early return for zero parameters; after each iteration the code holds the blocks of the parameters visited so far |
| TypeInference.BaseChainShape | src/Our.Umbraco.Ditto/Extensions/TypeInferenceExtensions.cs:84-91 | the chain starts at the given type, each element's base is the next one, the last has no base, and identifiers strictly decrease along it |
| TypeInference.BaseTypesShape | src/Our.Umbraco.Ditto/Extensions/TypeInferenceExtensions.cs:82-92 | the ancestors exclude the type itself and have no duplicates. There are none exactly when the type has no base. The first is the immediate base |
| TypeInference.GetBaseTypes | src/Our.Umbraco.Ditto/Extensions/TypeInferenceExtensions.cs:82-92 | the loop yields exactly `BaseTypes` |
| TypeInference.Distinct | src/Our.Umbraco.Ditto/Extensions/TypeInferenceExtensions.cs:70 | `Union` keeps the same elements as the concatenation, each once |
| TypeInference.WhereConstructs | src/Our.Umbraco.Ditto/Extensions/TypeInferenceExtensions.cs:71 | `Where` keeps exactly the elements constructed from the queried definition, and keeps them free of duplicates |
| TypeInference.GetGenericTypeImplementations | src/Our.Umbraco.Ditto/Extensions/TypeInferenceExtensions.cs:65-75 | nothing for a generic type definition. Otherwise, exactly the candidates (interfaces or base types) and the type itself that are constructed from the query, each once |
| TypeInference.ImplementationsListed | src/Our.Umbraco.Ditto/Extensions/TypeInferenceExtensions.cs:65-75 | for a type that is not a generic type definition, the LINQ pipeline lists exactly the set of implementations, defined directly as the candidates and the type itself that are constructed from the query |
| TypeInference.TryGetElementType | src/Our.Umbraco.Ditto/Extensions/TypeInferenceExtensions.cs:44-54 | a generic type definition has no element type |
| TypeInference.ElementTypeFound | src/Our.Umbraco.Ditto/Extensions/TypeInferenceExtensions.cs:44-54 | the element type is `e` exactly when the type is not a generic type definition and its set of implementations is a single type whose first generic argument is `e` |
| TypeInference.AmbiguousImplementations | src/Our.Umbraco.Ditto/Extensions/TypeInferenceExtensions.cs:48-50 | two different implementations make the element type `null` |
| TypeInference.CollectionTypeMeaning | src/Our.Umbraco.Ditto/Extensions/TypeInferenceExtensions.cs:18-21 | a collection type is exactly a non-definition with one `ICollection<>` implementation that has a generic argument |
| TypeInference.EnumerableTypeMeaning | src/Our.Umbraco.Ditto/Extensions/TypeInferenceExtensions.cs:28-31 | an enumerable type is exactly a non-definition with one `IEnumerable<>` implementation that has a generic argument |
| EnumConverter.FindMember | src/Our.Umbraco.Ditto/ComponentModel/TypeConverters/EnumConverter.cs:63 | the result is the first member whose name equals the text ignoring case, and there is no result only when no member's name matches |
| EnumConverter.TryParse | src/Our.Umbraco.Ditto/ComponentModel/TypeConverters/EnumConverter.cs:62-64 | a string naming no member leaves `default(TEnum)`, zero; otherwise the value is the first matching member's |
| EnumConverter.ParseIgnoresCase | src/Our.Umbraco.Ditto/ComponentModel/TypeConverters/EnumConverter.cs:63 | names that differ only in letter case parse to the same value |
| EnumConverter.FlagsContainEach | src/Our.Umbraco.Ditto/ComponentModel/TypeConverters/EnumConverter.cs:90-97 | every listed name's value is contained in the ORed result |
| EnumConverter.FlagsMonotone | src/Our.Umbraco.Ditto/ComponentModel/TypeConverters/EnumConverter.cs:90-97 | a list's result is contained in that of any list holding all its names |
| EnumConverter.FlagsIgnoreOrderAndRepeats | src/Our.Umbraco.Ditto/ComponentModel/TypeConverters/EnumConverter.cs:88-99 | two lists with the same names give the same value, whatever their order and repetitions |
| EnumConverter.UnparsableNameAddsNothing | src/Our.Umbraco.Ditto/ComponentModel/TypeConverters/EnumConverter.cs:92-96 | a name that matches no member leaves the accumulated value unchanged |
| EnumConverter.OrNames | src/Our.Umbraco.Ditto/ComponentModel/TypeConverters/EnumConverter.cs:84-99 | the `foreach` accumulates the OR of the parsed values of all names, in list order |
| EnumConverter.ConvertFrom | src/Our.Umbraco.Ditto/ComponentModel/TypeConverters/EnumConverter.cs:53-106 | the method's result is `Conversion`, including the fall-through of an undefined `int` and the exceptions |
| EnumConverter.NullIsDefault | src/Our.Umbraco.Ditto/ComponentModel/TypeConverters/EnumConverter.cs:55-58 | `null` converts to zero for every `TEnum` |
| EnumConverter.StringIsParsed | src/Our.Umbraco.Ditto/ComponentModel/TypeConverters/EnumConverter.cs:60-65 | a string is parsed, never enumerated as characters, and one naming no member gives zero rather than an error |
| EnumConverter.IntIsCheckedAgainstMembers | src/Our.Umbraco.Ditto/ComponentModel/TypeConverters/EnumConverter.cs:67-105 | a defined `int` is that enum value, while an undefined one falls through to the base converter |
| EnumConverter.NamesAreOred | src/Our.Umbraco.Ditto/ComponentModel/TypeConverters/EnumConverter.cs:82-103 | a list of names converts to the OR of their values; the empty list's default is the empty OR |
| EnumConverter.ListOrderIrrelevant | src/Our.Umbraco.Ditto/ComponentModel/TypeConverters/EnumConverter.cs:82-103 | lists with the same names convert to the same outcome |
| EnumConverter.AcceptsOnlyForEnums | src/Our.Umbraco.Ditto/ComponentModel/TypeConverters/EnumConverter.cs:30-42 | a non-enum `TEnum` claims no source type and asks the base converter |
| EnumConverter.ElementTypeTestMatchesConversion | src/Our.Umbraco.Ditto/ComponentModel/TypeConverters/EnumConverter.cs:30-106 | with the element-type test, `CanConvertFrom` claims a source type other than `int` exactly when `ConvertFrom` converts its values |
| EnumConverter.EnumValueConverted | src/Our.Umbraco.Ditto/ComponentModel/TypeConverters/EnumConverter.cs:76-80 | a value of an enum type converts to its own bits, and throws `ArgumentException` when `TEnum` is not an enum |
| EnumConverter.OtherValues | src/Our.Umbraco.Ditto/ComponentModel/TypeConverters/EnumConverter.cs:82-105 | any other value fails the cast to `IEnumerable<string>` with `InvalidCastException` when its type is enumerable, and goes to the base converter otherwise |
| EnumConverter.NonEnumTargetThrows | src/Our.Umbraco.Ditto/ComponentModel/TypeConverters/EnumConverter.cs:60-103 | for a `TEnum` that is not an enum, a string, an `int`, an enum value or a non-empty list of names throws `ArgumentException`, while an empty list still gives `default(TEnum)` |
| EnumConverter.AsWrittenAgreesWithElementTest | src/Our.Umbraco.Ditto/ComponentModel/TypeConverters/EnumConverter.cs:30-42 | `CanConvertFrom` as written gives the same answer as the element-type test for every source type whose first own generic argument is its enumerable element type, so they can differ only where that fails |
| EnumConverter.ClaimedButNotCast | src/Our.Umbraco.Ditto/ComponentModel/TypeConverters/EnumConverter.cs:36 | an enumerable whose first own generic argument is `string` but whose element type is not (a `Dictionary<string, X>`) is claimed as written, while `ConvertFrom` throws `InvalidCastException` on it |
| EnumConverter.StringArrayIsRejectedByThrowing | src/Our.Umbraco.Ditto/ComponentModel/TypeConverters/EnumConverter.cs:36 | for `string[]` the test as written throws `IndexOutOfRangeException`, while the element-type test claims the type |
| EnumConverter.StringArrayIsConverted | src/Our.Umbraco.Ditto/ComponentModel/TypeConverters/EnumConverter.cs:82-99 | a `string[]` value is converted by OR-ing its names |

## Left out

- `ComponentModel/Processors/HtmlStringAttribute.cs` is not part of this model. Its whole behaviour is calls into Umbraco's `HtmlString` and `IHtmlString`, which the model cannot see.
- The runtime meaning of the emitted IL is not modelled. Opcodes are inert tags, and the model does not execute the code or prove it type-safe.
- `ArgumentHandler.PushArguments`: `isStatic` is accepted and unused, as in the source. Argument positions start at 1 for static methods too.
- `ArgumentHandler.Boxed`: drops the source's `parameterType.IsByRef` disjunct. The type is by-ref-stripped first, and the CLR has no by-ref to a by-ref, so that test is always false.
- `ArgumentHandler.EmitSlot` and `ArgumentHandler.EmitArgument` are the loop body of `PushArguments` and its non-`out` part, written as methods. They emit the same instructions in the same order, and the `continue` after an `out` parameter is an early return from `EmitSlot`.
- `TypeInference.GetBaseTypes` returns the whole sequence at once. The laziness of the C# iterator (`yield return`) is not modelled.
- `TypeInference.TypeInfo`: `genericArguments` stands for both `GetGenericArguments()` and `GenericTypeArguments`. These differ only for generic type definitions, which the modelled code never asks about.
- `EnumConverter.TryParse`: does not model the rest of `Enum.TryParse`'s grammar, so numeric strings, comma-separated name lists and surrounding whitespace are not parsed. Case is folded for ASCII letters only, while the library's ordinal ignore-case comparison also folds non-ASCII letters.
- `EnumConverter.Conversion`: the `int` branch does not model an enum whose underlying type is not `int`. For such an enum, `Enum.IsDefined` throws and the unboxing cast is invalid.
- `EnumConverter.Conversion`: the enum branch does not model `Convert.ToInt64` overflowing on a `ulong` enum above `long.MaxValue`. It also does not model `Enum.ToObject` truncating the value to the target's width. Values are 64-bit patterns throughout.
- `EnumConverter.Conversion`: the base converter's own result is not modelled. It is the outcome `DeferredToBase`, and `base.CanConvertFrom` is the outcome `AskBase`.
- `EnumConverter.Payload`: the names of a list cannot be `null`. `Enum.TryParse` fails on a `null` element, so it contributes zero, just as a name that matches no member does (`UnparsableNameAddsNothing`).
- `TypeInference.Distinct`: the contract states membership and the absence of duplicates, not the first-occurrence order that LINQ `Union` also keeps. The body keeps that order, but no modelled caller depends on it, because `TryGetElementType` reads the first implementation only when there is exactly one.
- `TypeInference.WhereConstructs`: the contract likewise leaves out that LINQ `Where` keeps the order of its input.
- Culture, format contexts and `ITypeDescriptorContext` are parameters the modelled code only passes on, so they are left out.

## Findings

| source | as written | input that shows it | evidently intended | confidence | as-written member | corrected member |
|---|---|---|---|---|---|---|
| src/Our.Umbraco.Ditto/ComponentModel/TypeConverters/EnumConverter.cs:36 | for an enumerable source type, `CanConvertFrom` reads the source type's own `GenericTypeArguments[0]` | `string[]`: it implements `IEnumerable<string>` but has no generic type arguments, so `CanConvertFrom` throws `IndexOutOfRangeException` although `ConvertFrom` converts a `string[]` value. Conversely, `Dictionary<string, X>` has `string` as its first generic argument, so `CanConvertFrom` claims it, while `ConvertFrom` throws `InvalidCastException` on it (`ClaimedButNotCast`) | test the enumerable element type, the `IEnumerable<string>` that `ConvertFrom` casts to; it then claims a source type other than `int` exactly when `ConvertFrom` converts its values | not executed | EnumConverter.StringArrayIsRejectedByThrowing | EnumConverter.ElementTypeTestMatchesConversion |

