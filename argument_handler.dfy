/**
 * The proxy's argument marshaller (Proxy/ArgumentHandler.cs).
 *
 * `PushArguments` emits, into an IL generator, the code that builds the
 * `object[]` handed to the interceptor: one slot per parameter, in parameter
 * order, with `out` parameters nulled, by-ref parameters dereferenced and
 * value types and generic parameters boxed. Opcodes are inert tags here; the
 * emitted sequence is a pure function of the parameter list (`PushedCode`),
 * and the lemmas below state its shape.
 */
module ArgumentHandler {
  import opened Options
  import opened Sequences

  /** A CLR type as far as the marshaller inspects it. */
  datatype ClrType = ClrType(name: string, isValueType: bool, isGenericParameter: bool)

  /**
   * A `ParameterInfo`. `typeName` is the `Name` of its `ParameterType`
   * (ending in '&' for a by-ref type); `elementType` is that type with the
   * by-ref stripped, i.e. the type itself when it is not by-ref.
   */
  datatype Parameter = Parameter(isOut: bool, isByRef: bool, typeName: string, elementType: ClrType)

  /** The indirect-load opcodes `Ldind_I1` ... `Ldind_R8` and `Ldind_Ref`. */
  datatype IndirectLoad = LdindI1 | LdindI2 | LdindI4 | LdindI8 | LdindR4 | LdindR8 | LdindRef

  /** The instructions the marshaller emits. `NewarrObject` is `Newarr` with operand `typeof(object)`. */
  datatype Instr =
    | LdcI4(constant: int)
    | NewarrObject
    | StlocS(local: int)
    | LdlocS(local: int)
    | Ldnull
    | Ldarg(position: int)
    | Ldind(load: IndirectLoad)
    | Box(boxed: ClrType)
    | StelemRef

  /**
   * The by-ref opcode table, keys exactly as the source spells them. Several
   * keys are not the names reflection gives (it says "Boolean&", "Byte&",
   * "UInt32&", "Single&", "Double&", "IntPtr&"); such parameters miss the
   * table and get `Ldind_Ref`.
   */
  const LoadOpcodes: map<string, IndirectLoad> := map[
    "Bool&" := LdindI1,
    "Int8&" := LdindI1,
    "Uint8&" := LdindI1,
    "Int16&" := LdindI2,
    "Uint16&" := LdindI2,
    "Uint32&" := LdindI4,
    "Int32&" := LdindI4,
    "IntPtr" := LdindI4,
    "Uint64&" := LdindI8,
    "Int64&" := LdindI8,
    "Float32&" := LdindR4,
    "Float64&" := LdindR8
  ]

  /** The load used to dereference a by-ref parameter whose type is named `typeName`. */
  function LoadFor(typeName: string): (r: IndirectLoad)
    ensures r == LdindRef <==> typeName !in LoadOpcodes
  {
    if typeName in LoadOpcodes then LoadOpcodes[typeName] else LdindRef
  }

  /** Whether the slot value is boxed: the by-ref-stripped type is a value type or a generic parameter. */
  predicate Boxed(p: Parameter) {
    p.elementType.isValueType || p.elementType.isGenericParameter
  }

  /** The dereference of a by-ref parameter, if any. */
  function Loads(p: Parameter): seq<Instr> {
    if p.isByRef then [Ldind(LoadFor(p.typeName))] else []
  }

  /** The box of a `Boxed` parameter, if any. */
  function Boxes(p: Parameter): seq<Instr> {
    if Boxed(p) then [Box(p.elementType)] else []
  }

  /** Argument `position`, dereferenced and boxed as the parameter requires. */
  function Argument(p: Parameter, position: int): seq<Instr> {
    [Ldarg(position)] + Loads(p) + Boxes(p)
  }

  /** The length of a parameter's block, counted independently of the instructions. */
  function BlockLength(p: Parameter): nat {
    if p.isOut then 4 else 4 + (if p.isByRef then 1 else 0) + (if Boxed(p) then 1 else 0)
  }

  /** The number of occurrences of `x` in `s`. */
  function CountOf(s: seq<Instr>, x: Instr): nat {
    if |s| == 0 then 0 else CountOf(s[..|s| - 1], x) + (if s[|s| - 1] == x then 1 else 0)
  }

  lemma {:induction false} CountOfAppend(a: seq<Instr>, b: seq<Instr>, x: Instr)
    ensures CountOf(a + b, x) == CountOf(a, x) + CountOf(b, x)
    decreases |b|
  {
    if |b| == 0 {
      assert a + b == a;
    } else {
      assert (a + b)[..|a + b| - 1] == a + b[..|b| - 1];
      CountOfAppend(a, b[..|b| - 1], x);
    }
  }

  lemma {:induction false} CountOfAbsent(s: seq<Instr>, x: Instr)
    requires x !in s
    ensures CountOf(s, x) == 0
    decreases |s|
  {
    if |s| > 0 {
      CountOfAbsent(s[..|s| - 1], x);
    }
  }

  /**
   * The block `args[index] = argument` for one parameter: load the array and
   * the index, then either `null` (for `out`) or argument `index + 1`,
   * dereferenced when by-ref and boxed when `Boxed`, then store.
   */
  function ParameterBlock(p: Parameter, index: int): seq<Instr> {
    var head := [LdlocS(0), LdcI4(index)];
    var body := if p.isOut then head + [Ldnull] else head + Argument(p, index + 1);
    body + [StelemRef]
  }

  /**
   * A block opens with `Ldloc_S 0; Ldc_I4 index`, closes with its one
   * `Stelem_Ref`, and in between holds `null` for an `out` parameter, or
   * argument `index + 1`, its dereference when by-ref and its box when
   * `Boxed`.
   */
  lemma BlockShape(p: Parameter, index: int)
    ensures var r := ParameterBlock(p, index);
      && |r| == BlockLength(p)
      && r[0] == LdlocS(0) && r[1] == LdcI4(index) && r[|r| - 1] == StelemRef
      && CountOf(r, StelemRef) == 1
      && (p.isOut ==> r == [LdlocS(0), LdcI4(index), Ldnull, StelemRef])
      && (!p.isOut ==> r[2] == Ldarg(index + 1))
      && (!p.isOut && p.isByRef ==> r[3] == Ldind(LoadFor(p.typeName)))
      && (!p.isOut && Boxed(p) ==> r[|r| - 2] == Box(p.elementType))
  {
    var head := [LdlocS(0), LdcI4(index)];
    var body := if p.isOut then head + [Ldnull] else head + Argument(p, index + 1);
    CountOfAppend(body, [StelemRef], StelemRef);
    CountOfAbsent(body, StelemRef);
  }

  /**
   * What a block can contain besides its fixed frame: only its own argument,
   * only the table's load for a by-ref parameter, and only a box of its own
   * stripped type.
   */
  lemma BlockMembers(p: Parameter, index: int, ins: Instr)
    requires ins in ParameterBlock(p, index)
    ensures ins.Ldarg? ==> !p.isOut && ins == Ldarg(index + 1)
    ensures ins.Ldind? ==> !p.isOut && p.isByRef && ins == Ldind(LoadFor(p.typeName))
    ensures ins.Box? ==> !p.isOut && Boxed(p) && ins == Box(p.elementType)
  {
  }

  /** The blocks of all parameters, in parameter order; block `k` stores slot `k`. */
  function Blocks(ps: seq<Parameter>): seq<Instr>
    decreases |ps|
  {
    if |ps| == 0 then [] else Blocks(ps[..|ps| - 1]) + ParameterBlock(ps[|ps| - 1], |ps| - 1)
  }

  /** The number of parameters, zero when there is no parameter list. */
  function ParameterCount(parameters: Option<seq<Parameter>>): nat {
    match parameters
    case None => 0
    case Some(ps) => |ps|
  }

  function ParameterList(parameters: Option<seq<Parameter>>): seq<Parameter> {
    match parameters
    case None => []
    case Some(ps) => ps
  }

  /**
   * Everything `PushArguments` appends: allocate `object[n]` into local 0,
   * fill it, and leave it on the stack.
   */
  function PushedCode(parameters: Option<seq<Parameter>>): (r: seq<Instr>)
    ensures |r| >= 4
    ensures r[..3] == [LdcI4(ParameterCount(parameters)), NewarrObject, StlocS(0)]
    ensures r[|r| - 1] == LdlocS(0)
    ensures ParameterCount(parameters) == 0 ==> r == [LdcI4(0), NewarrObject, StlocS(0), LdlocS(0)]
  {
    var n := ParameterCount(parameters);
    [LdcI4(n), NewarrObject, StlocS(0)] + Blocks(ParameterList(parameters)) + [LdlocS(0)]
  }

  /** Where block `k` starts within `PushedCode(Some(ps))`. */
  function BlockOffset(ps: seq<Parameter>, k: nat): nat
    requires k <= |ps|
  {
    3 + |Blocks(ps[..k])|
  }

  lemma {:induction false} BlocksPrefix(ps: seq<Parameter>, k: nat)
    requires k <= |ps|
    ensures |Blocks(ps[..k])| <= |Blocks(ps)|
    ensures Blocks(ps)[..|Blocks(ps[..k])|] == Blocks(ps[..k])
    decreases |ps|
  {
    if k == |ps| {
      assert ps[..k] == ps;
    } else {
      var init := ps[..|ps| - 1];
      assert init[..k] == ps[..k];
      BlocksPrefix(init, k);
    }
  }

  lemma BlocksSnoc(ps: seq<Parameter>, k: nat)
    requires k < |ps|
    ensures Blocks(ps[..k + 1]) == Blocks(ps[..k]) + ParameterBlock(ps[k], k)
  {
    assert ps[..k + 1][..k] == ps[..k];
    assert ps[..k + 1][k] == ps[k];
  }

  /** Block `k` sits at `BlockOffset(ps, k)` and the next block follows it directly. */
  lemma BlockPlacement(ps: seq<Parameter>, k: nat)
    requires k < |ps|
    ensures BlockOffset(ps, k + 1) == BlockOffset(ps, k) + |ParameterBlock(ps[k], k)|
    ensures BlockOffset(ps, k + 1) <= |PushedCode(Some(ps))|
    ensures PushedCode(Some(ps))[BlockOffset(ps, k)..BlockOffset(ps, k + 1)] == ParameterBlock(ps[k], k)
  {
    var pre := Blocks(ps[..k]);
    var blk := ParameterBlock(ps[k], k);
    BlocksSnoc(ps, k);
    BlocksPrefix(ps, k + 1);
    var all := Blocks(ps);
    SliceAfterPrefix(all, pre, blk);
    SliceOfMiddle([LdcI4(|ps|), NewarrObject, StlocS(0)], all, [LdlocS(0)], |pre|, |pre| + |blk|);
  }

  lemma {:induction false} InSomeBlock(ps: seq<Parameter>, ins: Instr)
    requires ins in Blocks(ps)
    ensures exists k :: 0 <= k < |ps| && ins in ParameterBlock(ps[k], k)
    decreases |ps|
  {
    var init := ps[..|ps| - 1];
    if ins in Blocks(init) {
      InSomeBlock(init, ins);
      var k :| 0 <= k < |init| && ins in ParameterBlock(init[k], k);
      assert init[k] == ps[k];
    } else {
      assert ins in ParameterBlock(ps[|ps| - 1], |ps| - 1);
    }
  }

  lemma {:induction false} BlockInBlocks(ps: seq<Parameter>, k: nat, ins: Instr)
    requires k < |ps| && ins in ParameterBlock(ps[k], k)
    ensures ins in Blocks(ps)
    decreases |ps|
  {
    var init := ps[..|ps| - 1];
    var last := ParameterBlock(ps[|ps| - 1], |ps| - 1);
    assert Blocks(ps) == Blocks(init) + last;
    if k < |init| {
      assert init[k] == ps[k];
      BlockInBlocks(init, k, ins);
    }
  }

  /** An instruction occurs among the blocks exactly when it occurs in some parameter's block. */
  lemma InBlocks(ps: seq<Parameter>, ins: Instr)
    ensures ins in Blocks(ps) <==> exists k :: 0 <= k < |ps| && ins in ParameterBlock(ps[k], k)
  {
    if ins in Blocks(ps) {
      InSomeBlock(ps, ins);
    }
    if k :| 0 <= k < |ps| && ins in ParameterBlock(ps[k], k) {
      BlockInBlocks(ps, k, ins);
    }
  }

  lemma InPushedCode(ps: seq<Parameter>, ins: Instr)
    requires !ins.LdcI4? && !ins.NewarrObject? && !ins.StlocS? && !ins.LdlocS?
    ensures ins in PushedCode(Some(ps)) <==> exists k :: 0 <= k < |ps| && ins in ParameterBlock(ps[k], k)
  {
    InBlocks(ps, ins);
  }

  /**
   * Argument slot `m` is loaded exactly when it belongs to a parameter that is
   * not `out`: an `out` parameter's incoming value is never read, and no flag
   * such as `isStatic` shifts the positions.
   */
  lemma ArgumentLoads(ps: seq<Parameter>, m: int)
    ensures Ldarg(m) in PushedCode(Some(ps)) <==> 1 <= m <= |ps| && !ps[m - 1].isOut
  {
    InPushedCode(ps, Ldarg(m));
    if 1 <= m <= |ps| && !ps[m - 1].isOut {
      assert Ldarg(m) in ParameterBlock(ps[m - 1], m - 1);
    }
  }

  /** Every indirect load belongs to a by-ref, non-`out` parameter and is the table's load for its type name. */
  lemma LoadsOnlyForByRef(ps: seq<Parameter>, ins: Instr)
    requires ins in PushedCode(Some(ps)) && ins.Ldind?
    ensures exists k :: 0 <= k < |ps| && !ps[k].isOut && ps[k].isByRef && ins.load == LoadFor(ps[k].typeName)
  {
    InPushedCode(ps, ins);
  }

  /** Every by-ref, non-`out` parameter gets its indirect load, placed right after its `Ldarg`. */
  lemma ByRefLoaded(ps: seq<Parameter>, k: nat)
    requires k < |ps| && !ps[k].isOut && ps[k].isByRef
    ensures BlockOffset(ps, k) + 3 < |PushedCode(Some(ps))|
    ensures PushedCode(Some(ps))[BlockOffset(ps, k) + 3] == Ldind(LoadFor(ps[k].typeName))
  {
    BlockPlacement(ps, k);
    BlockShape(ps[k], k);
    var blk := ParameterBlock(ps[k], k);
    assert blk[3] == Ldind(LoadFor(ps[k].typeName));
    assert PushedCode(Some(ps))[BlockOffset(ps, k) + 3] == blk[3];
  }

  /**
   * `Box t` is emitted exactly for the non-`out` parameters whose stripped
   * type `t` is a value type or a generic parameter; a by-ref reference type
   * is not boxed.
   */
  lemma BoxedSlots(ps: seq<Parameter>, t: ClrType)
    ensures Box(t) in PushedCode(Some(ps)) <==>
      exists k :: 0 <= k < |ps| && !ps[k].isOut && Boxed(ps[k]) && ps[k].elementType == t
  {
    InPushedCode(ps, Box(t));
    if exists k :: 0 <= k < |ps| && !ps[k].isOut && Boxed(ps[k]) && ps[k].elementType == t {
      var k :| 0 <= k < |ps| && !ps[k].isOut && Boxed(ps[k]) && ps[k].elementType == t;
      assert Box(t) in ParameterBlock(ps[k], k);
    }
  }

  /** One `Stelem_Ref` per parameter, so the array is filled exactly `n` times. */
  lemma {:induction false} StoreCount(ps: seq<Parameter>)
    ensures CountOf(Blocks(ps), StelemRef) == |ps|
    decreases |ps|
  {
    if |ps| > 0 {
      StoreCount(ps[..|ps| - 1]);
      BlockShape(ps[|ps| - 1], |ps| - 1);
      CountOfAppend(Blocks(ps[..|ps| - 1]), ParameterBlock(ps[|ps| - 1], |ps| - 1), StelemRef);
    }
  }

  lemma StoresPerParameter(parameters: Option<seq<Parameter>>)
    ensures CountOf(PushedCode(parameters), StelemRef) == ParameterCount(parameters)
  {
    var ps := ParameterList(parameters);
    var prologue := [LdcI4(ParameterCount(parameters)), NewarrObject, StlocS(0)];
    StoreCount(ps);
    CountOfAppend(prologue + Blocks(ps), [LdlocS(0)], StelemRef);
    CountOfAppend(prologue, Blocks(ps), StelemRef);
    CountOfAppend(prologue[..2], [StlocS(0)], StelemRef);
    CountOfAppend([LdcI4(ParameterCount(parameters))], [NewarrObject], StelemRef);
    assert prologue == prologue[..2] + [StlocS(0)];
    assert prologue[..2] == [LdcI4(ParameterCount(parameters))] + [NewarrObject];
  }

  /** The total of the per-parameter block lengths. */
  function TotalBlockLength(ps: seq<Parameter>): nat {
    if |ps| == 0 then 0 else BlockLength(ps[0]) + TotalBlockLength(ps[1..])
  }

  lemma {:induction false} TotalBlockLengthSnoc(ps: seq<Parameter>, p: Parameter)
    ensures TotalBlockLength(ps + [p]) == TotalBlockLength(ps) + BlockLength(p)
    decreases |ps|
  {
    if |ps| == 0 {
      assert [p][1..] == [];
    } else {
      assert (ps + [p])[1..] == ps[1..] + [p];
      TotalBlockLengthSnoc(ps[1..], p);
    }
  }

  lemma {:induction false} BlocksLength(ps: seq<Parameter>)
    ensures |Blocks(ps)| == TotalBlockLength(ps)
    decreases |ps|
  {
    if |ps| > 0 {
      var init := ps[..|ps| - 1];
      BlocksLength(init);
      TotalBlockLengthSnoc(init, ps[|ps| - 1]);
      assert init + [ps[|ps| - 1]] == ps;
    }
  }

  /** The emitted code is the four fixed instructions plus each parameter's block length. */
  lemma CodeLength(parameters: Option<seq<Parameter>>)
    ensures |PushedCode(parameters)| == 4 + TotalBlockLength(ParameterList(parameters))
  {
    BlocksLength(ParameterList(parameters));
  }

  /** The reflection names of the primitive by-ref types that miss the table. */
  lemma ReflectionNamesMissTable()
    ensures LoadFor("Boolean&") == LdindRef && LoadFor("Byte&") == LdindRef && LoadFor("SByte&") == LdindRef
    ensures LoadFor("UInt16&") == LdindRef && LoadFor("UInt32&") == LdindRef && LoadFor("UInt64&") == LdindRef
    ensures LoadFor("Single&") == LdindRef && LoadFor("Double&") == LdindRef && LoadFor("IntPtr&") == LdindRef
    ensures LoadFor("Int16&") == LdindI2 && LoadFor("Int32&") == LdindI4 && LoadFor("Int64&") == LdindI8
  {
  }

  /** The `ILGenerator`: an append-only instruction buffer. */
  class ILGenerator {
    var code: seq<Instr>

    constructor ()
      ensures code == []
    {
      code := [];
    }

    method Emit(ins: Instr)
      modifies this
      ensures code == old(code) + [ins]
    {
      code := code + [ins];
    }
  }

  /**
   * The middle of a non-`out` parameter's block: load argument
   * `argumentPosition`, dereference it through the opcode table when the
   * parameter is by-ref, and box it when its stripped type is a value type or
   * a generic parameter.
   */
  method EmitArgument(il: ILGenerator, param: Parameter, argumentPosition: int)
    modifies il
    ensures il.code == old(il.code) + Argument(param, argumentPosition)
  {
    var parameterType := param.elementType;
    il.Emit(Ldarg(argumentPosition));

    var isGeneric := parameterType.isGenericParameter;

    if param.isByRef {
      var referenceInstruction := LdindRef;
      if param.typeName in LoadOpcodes {
        referenceInstruction := LoadOpcodes[param.typeName];
      }
      assert referenceInstruction == LoadFor(param.typeName);
      il.Emit(Ldind(referenceInstruction));
    }
    assert il.code == old(il.code) + [Ldarg(argumentPosition)] + Loads(param);

    if parameterType.isValueType || isGeneric {
      il.Emit(Box(parameterType));
    }
  }

  /**
   * One iteration of the parameter loop: `args[index] = argument`, with
   * `null` for an `out` parameter.
   */
  method EmitSlot(il: ILGenerator, param: Parameter, index: int, argumentPosition: int)
    requires argumentPosition == index + 1
    modifies il
    ensures il.code == old(il.code) + ParameterBlock(param, index)
  {
    var before := il.code;
    il.Emit(LdlocS(0));
    il.Emit(LdcI4(index));
    ghost var block := [LdlocS(0), LdcI4(index)];
    assert il.code == before + block;

    if param.isOut {
      il.Emit(Ldnull);
      AppendAssoc(before, block, [Ldnull]);
      block := block + [Ldnull];
      il.Emit(StelemRef);
      AppendAssoc(before, block, [StelemRef]);
      return;
    }

    EmitArgument(il, param, argumentPosition);
    AppendAssoc(before, block, Argument(param, argumentPosition));
    block := block + Argument(param, argumentPosition);

    il.Emit(StelemRef);
    AppendAssoc(before, block, [StelemRef]);
  }

  /**
   * Emits the code that builds the argument array. `isStatic` is accepted
   * and never read: the result depends on `parameters` alone.
   */
  method PushArguments(parameters: Option<seq<Parameter>>, il: ILGenerator, isStatic: bool)
    modifies il
    ensures il.code == old(il.code) + PushedCode(parameters)
  {
    var parameterCount := if parameters.None? then 0 else |parameters.value|;
    var start := il.code;

    il.Emit(LdcI4(parameterCount));
    il.Emit(NewarrObject);
    il.Emit(StlocS(0));
    var prologue := [LdcI4(parameterCount), NewarrObject, StlocS(0)];

    if parameterCount == 0 {
      il.Emit(LdlocS(0));
      return;
    }

    var index := 0;
    var argumentPosition := 1;
    if parameters.Some? {
      var ps := parameters.value;
      while index < |ps|
        invariant 0 <= index <= |ps|
        invariant argumentPosition == index + 1
        invariant il.code == start + prologue + Blocks(ps[..index])
      {
        BlocksSnoc(ps, index);
        EmitSlot(il, ps[index], index, argumentPosition);
        AppendAssoc(start + prologue, Blocks(ps[..index]), ParameterBlock(ps[index], index));
        index := index + 1;
        argumentPosition := argumentPosition + 1;
      }
      assert ps[..index] == ps;
    }

    il.Emit(LdlocS(0));
  }
}
