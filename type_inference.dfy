/**
 * Generic-interface and base-type inference (Extensions/TypeInferenceExtensions.cs).
 *
 * Reflection is replaced by a finite type graph: every type has an optional
 * base type, a list of interfaces, an optional generic definition and a list
 * of generic arguments. `TryGetElementType` answers "which T does this type
 * implement I<T> with", and answers only when exactly one implementation
 * exists.
 */
module TypeInference {
  import opened Options
  import opened Sequences

  /** A type is named by its identifier in the graph. */
  type TypeId = nat

  /**
   * What reflection reports about one type. `genericDefinition` is
   * `GetGenericTypeDefinition()` when `IsGenericType` holds and `None`
   * otherwise; `genericArguments` are its generic arguments.
   */
  datatype TypeInfo = TypeInfo(
    baseType: Option<TypeId>,
    interfaces: seq<TypeId>,
    genericDefinition: Option<TypeId>,
    genericArguments: seq<TypeId>,
    isGenericTypeDefinition: bool,
    isInterface: bool,
    isEnum: bool)

  /**
   * The type graph, with the well-known types the converters ask about:
   * `ICollection<>`, `IEnumerable<>`, `string` and `int`.
   */
  datatype TypeSystem = TypeSystem(
    types: map<TypeId, TypeInfo>,
    collectionDefinition: TypeId,
    enumerableDefinition: TypeId,
    stringType: TypeId,
    int32Type: TypeId)

  /**
   * The facts reflection guarantees about one type. A base type has a smaller
   * identifier than the type deriving from it: this numbers the types in
   * inheritance order and so states that no base chain is cyclic.
   */
  predicate TypeWellFormed(ts: TypeSystem, t: TypeId)
    requires t in ts.types
  {
    var info := ts.types[t];
    && (info.baseType.Some? ==> info.baseType.value in ts.types && info.baseType.value < t)
    && (forall i :: 0 <= i < |info.interfaces| ==> info.interfaces[i] in ts.types)
    && (info.isGenericTypeDefinition ==> info.genericDefinition == Some(t))
  }

  predicate WellFormed(ts: TypeSystem) {
    && (forall t :: t in ts.types ==> TypeWellFormed(ts, t))
    && ts.collectionDefinition in ts.types
    && ts.enumerableDefinition in ts.types
    && ts.stringType in ts.types
    && ts.int32Type in ts.types
    && ts.types[ts.collectionDefinition].isInterface
    && ts.types[ts.collectionDefinition].isGenericTypeDefinition
    && ts.types[ts.enumerableDefinition].isInterface
    && ts.types[ts.enumerableDefinition].isGenericTypeDefinition
  }

  /** Whether the type is an open generic definition such as `List<>`. */
  predicate IsGenericTypeDefinition(ts: TypeSystem, t: TypeId)
    requires t in ts.types
  {
    ts.types[t].isGenericTypeDefinition
  }

  predicate NoDuplicates(s: seq<TypeId>) {
    forall i, j :: 0 <= i < j < |s| ==> s[i] != s[j]
  }

  /**
   * The base chain starting at `current`: `current`, its base, that type's
   * base, and so on up to the first type without one.
   */
  function BaseChain(ts: TypeSystem, current: Option<TypeId>): (r: seq<TypeId>)
    requires WellFormed(ts)
    requires current.Some? ==> current.value in ts.types
    ensures forall x :: x in r ==> x in ts.types
    decreases if current.Some? then current.value + 1 else 0
  {
    match current
    case None => []
    case Some(t) =>
      assert TypeWellFormed(ts, t);
      [t] + BaseChain(ts, ts.types[t].baseType)
  }

  /**
   * The chain is empty only without a start, starts at `current`, links each
   * type to its base, ends at a type without one, and strictly decreases.
   */
  lemma {:induction false} BaseChainShape(ts: TypeSystem, current: Option<TypeId>)
    requires WellFormed(ts)
    requires current.Some? ==> current.value in ts.types
    ensures var r := BaseChain(ts, current);
      && (current.None? <==> r == [])
      && (current.Some? ==> r[0] == current.value)
      && (forall i :: 0 <= i < |r| - 1 ==> ts.types[r[i]].baseType == Some(r[i + 1]))
      && (|r| > 0 ==> ts.types[r[|r| - 1]].baseType.None?)
      && (forall i, j :: 0 <= i < j < |r| ==> r[j] < r[i])
    decreases if current.Some? then current.value + 1 else 0
  {
    if current.Some? {
      var t := current.value;
      assert TypeWellFormed(ts, t);
      var rest := BaseChain(ts, ts.types[t].baseType);
      BaseChainShape(ts, ts.types[t].baseType);
      assert forall j :: 0 <= j < |rest| ==> rest[j] <= rest[0];
      assert BaseChain(ts, current) == [t] + rest;
    }
  }

  /** The strict ancestors of `t`, nearest first. */
  function BaseTypes(ts: TypeSystem, t: TypeId): (r: seq<TypeId>)
    requires WellFormed(ts) && t in ts.types
    ensures forall x :: x in r ==> x in ts.types
  {
    assert TypeWellFormed(ts, t);
    BaseChain(ts, ts.types[t].baseType)
  }

  /**
   * `t` itself is not among its ancestors and none is repeated; there are
   * none exactly when `t` has no base type, and the first is its immediate
   * base type.
   */
  lemma BaseTypesShape(ts: TypeSystem, t: TypeId)
    requires WellFormed(ts) && t in ts.types
    ensures var r := BaseTypes(ts, t);
      && t !in r && NoDuplicates(r)
      && (forall x :: x in r ==> x < t)
      && (ts.types[t].baseType.None? <==> r == [])
      && (ts.types[t].baseType.Some? ==> r[0] == ts.types[t].baseType.value)
  {
    assert TypeWellFormed(ts, t);
    BaseChainShape(ts, ts.types[t].baseType);
    var r := BaseTypes(ts, t);
    if |r| > 0 {
      assert forall x :: x in r ==> x <= r[0];
    }
  }

  /** `GetBaseTypes`: walk `BaseType` until it is `null`, yielding each type met. */
  method GetBaseTypes(ts: TypeSystem, t: TypeId) returns (bases: seq<TypeId>)
    requires WellFormed(ts) && t in ts.types
    ensures bases == BaseTypes(ts, t)
  {
    assert TypeWellFormed(ts, t);
    var current := ts.types[t].baseType;
    bases := [];
    while current.Some?
      invariant current.Some? ==> current.value in ts.types
      invariant bases + BaseChain(ts, current) == BaseTypes(ts, t)
      decreases if current.Some? then current.value + 1 else 0
    {
      assert TypeWellFormed(ts, current.value);
      var next := ts.types[current.value].baseType;
      assert BaseChain(ts, current) == [current.value] + BaseChain(ts, next);
      AppendAssoc(bases, [current.value], BaseChain(ts, next));
      bases := bases + [current.value];
      current := next;
    }
  }

  /**
   * The first occurrence of each element, in order (LINQ `Distinct`). The
   * contract states membership and the absence of duplicates; the order is
   * kept by the body but not stated, as no caller depends on it.
   */
  function Distinct(s: seq<TypeId>): (r: seq<TypeId>)
    ensures forall x :: x in r <==> x in s
    ensures NoDuplicates(r)
    decreases |s|
  {
    if |s| == 0 then []
    else
      var d := Distinct(s[..|s| - 1]);
      if s[|s| - 1] in d then d else d + [s[|s| - 1]]
  }

  /** LINQ `Union`: the distinct elements of `first`, then those of `second` not met yet. */
  function Union(first: seq<TypeId>, second: seq<TypeId>): seq<TypeId> {
    Distinct(first + second)
  }

  /** Whether `t` is a generic type constructed from the definition `query`. */
  predicate Constructs(ts: TypeSystem, t: TypeId, query: TypeId)
    requires t in ts.types
  {
    ts.types[t].genericDefinition == Some(query)
  }

  /** LINQ `Where` with the `Constructs` test; it keeps order, which the contract does not state. */
  function WhereConstructs(ts: TypeSystem, s: seq<TypeId>, query: TypeId): (r: seq<TypeId>)
    requires forall x :: x in s ==> x in ts.types
    ensures forall x :: x in r <==> x in s && Constructs(ts, x, query)
    ensures NoDuplicates(s) ==> NoDuplicates(r)
    decreases |s|
  {
    if |s| == 0 then []
    else
      var init := WhereConstructs(ts, s[..|s| - 1], query);
      if Constructs(ts, s[|s| - 1], query) then init + [s[|s| - 1]] else init
  }

  /** Where implementations are searched: the interfaces for an interface query, the base types otherwise. */
  function Candidates(ts: TypeSystem, t: TypeId, query: TypeId): (r: seq<TypeId>)
    requires WellFormed(ts) && t in ts.types && query in ts.types
    ensures forall x :: x in r ==> x in ts.types
  {
    assert TypeWellFormed(ts, t);
    if ts.types[query].isInterface then ts.types[t].interfaces else BaseTypes(ts, t)
  }

  /**
   * `GetGenericTypeImplementations`: the types among the candidates and `t`
   * itself that are constructed from `query`, each once; nothing for a
   * generic type definition.
   */
  function GetGenericTypeImplementations(ts: TypeSystem, t: TypeId, query: TypeId): (r: seq<TypeId>)
    requires WellFormed(ts) && t in ts.types && query in ts.types
    ensures IsGenericTypeDefinition(ts, t) ==> r == []
    ensures !IsGenericTypeDefinition(ts, t) ==>
      forall x :: x in r <==> (x in Candidates(ts, t, query) || x == t) && Constructs(ts, x, query)
    ensures NoDuplicates(r)
  {
    if !IsGenericTypeDefinition(ts, t) then
      WhereConstructs(ts, Union(Candidates(ts, t, query), [t]), query)
    else
      []
  }

  /** `FirstOrDefault` over a type list. */
  function FirstOrDefault(s: seq<TypeId>): Option<TypeId> {
    if |s| > 0 then Some(s[0]) else None
  }

  /**
   * `TryGetElementType`: the first generic argument of the one
   * implementation of `query`, or `None` when there is none, when there
   * are several, or when `t` is a generic type definition.
   */
  function TryGetElementType(ts: TypeSystem, t: TypeId, query: TypeId): (r: Option<TypeId>)
    requires WellFormed(ts) && t in ts.types && query in ts.types
    ensures IsGenericTypeDefinition(ts, t) ==> r.None?
  {
    if !IsGenericTypeDefinition(ts, t) then
      var types := GetGenericTypeImplementations(ts, t, query);
      if |types| == 1 then FirstOrDefault(ts.types[types[0]].genericArguments) else None
    else
      None
  }

  /** `IsCollectionType`: the type implements `ICollection<T>` for exactly one `T`. */
  predicate IsCollectionType(ts: TypeSystem, t: TypeId)
    requires WellFormed(ts) && t in ts.types
  {
    TryGetElementType(ts, t, ts.collectionDefinition).Some?
  }

  /** `IsEnumerableType`: the type implements `IEnumerable<T>` for exactly one `T`. */
  predicate IsEnumerableType(ts: TypeSystem, t: TypeId)
    requires WellFormed(ts) && t in ts.types
  {
    TryGetElementType(ts, t, ts.enumerableDefinition).Some?
  }

  // Specification: the implementations as a set

  /** The implementations of `query` that `t` has, defined as a set, independently of the LINQ pipeline. */
  function Implementations(ts: TypeSystem, t: TypeId, query: TypeId): set<TypeId>
    requires WellFormed(ts) && t in ts.types && query in ts.types
  {
    set x | x in Candidates(ts, t, query) + [t] && Constructs(ts, x, query)
  }

  /** `x` is the one implementation of `query` that `t` has. */
  predicate SoleImplementation(ts: TypeSystem, t: TypeId, query: TypeId, x: TypeId)
    requires WellFormed(ts) && t in ts.types && query in ts.types
  {
    Implementations(ts, t, query) == {x}
  }

  /** The elements of `r`, as a set. */
  function Elements(r: seq<TypeId>): set<TypeId> {
    set y | y in r
  }

  lemma {:induction false} DistinctElementsCount(r: seq<TypeId>)
    requires NoDuplicates(r)
    ensures |Elements(r)| == |r|
    decreases |r|
  {
    if |r| > 0 {
      var init := r[..|r| - 1];
      DistinctElementsCount(init);
      assert Elements(r) == Elements(init) + {r[|r| - 1]};
      assert r[|r| - 1] !in Elements(init);
    }
  }

  lemma SingleElement(r: seq<TypeId>, x: TypeId)
    requires NoDuplicates(r)
    ensures r == [x] <==> Elements(r) == {x}
  {
    if Elements(r) == {x} {
      DistinctElementsCount(r);
      assert r[0] in Elements(r);
    }
  }

  /** The LINQ pipeline finds exactly the implementations of the set-based definition. */
  lemma ImplementationsListed(ts: TypeSystem, t: TypeId, query: TypeId)
    requires WellFormed(ts) && t in ts.types && query in ts.types && !IsGenericTypeDefinition(ts, t)
    ensures Elements(GetGenericTypeImplementations(ts, t, query)) == Implementations(ts, t, query)
  {
  }

  lemma ElementTypeOfSole(ts: TypeSystem, t: TypeId, query: TypeId)
    requires WellFormed(ts) && t in ts.types && query in ts.types && !IsGenericTypeDefinition(ts, t)
    requires |GetGenericTypeImplementations(ts, t, query)| == 1
    ensures SoleImplementation(ts, t, query, GetGenericTypeImplementations(ts, t, query)[0])
  {
    var types := GetGenericTypeImplementations(ts, t, query);
    ImplementationsListed(ts, t, query);
    SingleElement(types, types[0]);
  }

  lemma SoleIsListed(ts: TypeSystem, t: TypeId, query: TypeId, x: TypeId)
    requires WellFormed(ts) && t in ts.types && query in ts.types && !IsGenericTypeDefinition(ts, t)
    requires SoleImplementation(ts, t, query, x)
    ensures GetGenericTypeImplementations(ts, t, query) == [x]
  {
    ImplementationsListed(ts, t, query);
    SingleElement(GetGenericTypeImplementations(ts, t, query), x);
  }

  /**
   * `TryGetElementType` finds `e` exactly when `t` is not a generic type
   * definition and has one implementation of `query`, whose first generic
   * argument is `e`.
   */
  lemma ElementTypeFound(ts: TypeSystem, t: TypeId, query: TypeId, e: TypeId)
    requires WellFormed(ts) && t in ts.types && query in ts.types
    ensures TryGetElementType(ts, t, query) == Some(e) <==>
      && !IsGenericTypeDefinition(ts, t)
      && exists x ::
           SoleImplementation(ts, t, query, x) && |ts.types[x].genericArguments| > 0 && ts.types[x].genericArguments[0] == e
  {
    if !IsGenericTypeDefinition(ts, t) {
      var types := GetGenericTypeImplementations(ts, t, query);
      if |types| == 1 {
        ElementTypeOfSole(ts, t, query);
      }
      if x: TypeId :| SoleImplementation(ts, t, query, x) {
        SoleIsListed(ts, t, query, x);
      }
    }
  }

  /** Two different implementations of `query` make `TryGetElementType` give up. */
  lemma AmbiguousImplementations(ts: TypeSystem, t: TypeId, query: TypeId, x: TypeId, y: TypeId)
    requires WellFormed(ts) && t in ts.types && query in ts.types
    requires x != y && x in Implementations(ts, t, query) && y in Implementations(ts, t, query)
    ensures TryGetElementType(ts, t, query).None?
  {
    if !IsGenericTypeDefinition(ts, t) {
      var types := GetGenericTypeImplementations(ts, t, query);
      assert x in Candidates(ts, t, query) + [t] && y in Candidates(ts, t, query) + [t];
      assert x in types && y in types;
    }
  }

  /** `IsCollectionType` holds exactly when `t` has one `ICollection<T>` among its interfaces and itself, with a `T`. */
  lemma CollectionTypeMeaning(ts: TypeSystem, t: TypeId)
    requires WellFormed(ts) && t in ts.types
    ensures IsCollectionType(ts, t) <==>
      && !IsGenericTypeDefinition(ts, t)
      && exists x :: SoleImplementation(ts, t, ts.collectionDefinition, x) && |ts.types[x].genericArguments| > 0
  {
    var q := ts.collectionDefinition;
    if IsCollectionType(ts, t) {
      ElementTypeFound(ts, t, q, TryGetElementType(ts, t, q).value);
    }
    if !IsGenericTypeDefinition(ts, t) && exists x :: SoleImplementation(ts, t, q, x) && |ts.types[x].genericArguments| > 0 {
      var x :| SoleImplementation(ts, t, q, x) && |ts.types[x].genericArguments| > 0;
      ElementTypeFound(ts, t, q, ts.types[x].genericArguments[0]);
    }
  }

  /** `IsEnumerableType` holds exactly when `t` has one `IEnumerable<T>` among its interfaces and itself, with a `T`. */
  lemma EnumerableTypeMeaning(ts: TypeSystem, t: TypeId)
    requires WellFormed(ts) && t in ts.types
    ensures IsEnumerableType(ts, t) <==>
      && !IsGenericTypeDefinition(ts, t)
      && exists x :: SoleImplementation(ts, t, ts.enumerableDefinition, x) && |ts.types[x].genericArguments| > 0
  {
    var q := ts.enumerableDefinition;
    if IsEnumerableType(ts, t) {
      ElementTypeFound(ts, t, q, TryGetElementType(ts, t, q).value);
    }
    if !IsGenericTypeDefinition(ts, t) && exists x :: SoleImplementation(ts, t, q, x) && |ts.types[x].genericArguments| > 0 {
      var x :| SoleImplementation(ts, t, q, x) && |ts.types[x].genericArguments| > 0;
      ElementTypeFound(ts, t, q, ts.types[x].genericArguments[0]);
    }
  }
}
