/**
Type references and their structural equality.

A reference is a finite tree. Go pointers that may be nil become the constructors
`NoRef` and `NoReturn`; fields that equality must not look at (positions, docs, names of
parameters and returns, fields a kind does not use) stay in the model so that the theorems
can say they do not matter.
*/
module TypeRefs {

  /** `Other` stands for every ordinal outside the nine declared variants. */
  datatype Kind =
    | Named | Pointer | Slice | Array | Map | Func | TypeParam | AnonStruct | AnonInterface
    | Other(ordinal: int)

  datatype Ref =
    | NoRef
    | Ref(kind: Kind, base: string, pkg: string, name: string, typeArgs: seq<Ref>,
          elem: Ref, arrayLen: int, mapKey: Ref, mapValue: Ref,
          funcParams: seq<Ref>, funcReturns: seq<Ref>,
          fields: seq<Field>, methods: seq<Method>, embeds: seq<Embed>)

  datatype Field = Field(base: string, name: string, tag: string, typ: Ref)
  datatype Method = Method(base: string, name: string, params: seq<Param>, results: seq<Return>)
  datatype Param = Param(base: string, name: string, variadic: bool, typ: Ref)
  datatype Return = NoReturn | Return(base: string, name: string, typ: Ref)
  datatype Embed = Embed(base: string, typ: Ref)

  predicate MayDenoteInterface(r: Ref) {
    r.Ref? && (r.kind == Named || r.kind == AnonInterface)
  }

  // ---------------------------------------------------------------- equality

  predicate Equal(r: Ref, o: Ref)
    decreases r, 1
  {
    if r.NoRef? || o.NoRef? then r.NoRef? && o.NoRef?
    else if r.kind != o.kind then false
    else match r.kind
      case Named => r.pkg == o.pkg && r.name == o.name && EqualRefs(r.typeArgs, o.typeArgs)
      case Pointer => Equal(r.elem, o.elem)
      case Slice => Equal(r.elem, o.elem)
      case Array => r.arrayLen == o.arrayLen && Equal(r.elem, o.elem)
      case Map => Equal(r.mapKey, o.mapKey) && Equal(r.mapValue, o.mapValue)
      case Func => EqualRefs(r.funcParams, o.funcParams) && EqualRefs(r.funcReturns, o.funcReturns)
      case TypeParam => r.name == o.name
      case AnonStruct => EqualFields(r.fields, o.fields) && EqualEmbeds(r.embeds, o.embeds)
      case AnonInterface => EqualMethods(r.methods, o.methods) && EqualEmbeds(r.embeds, o.embeds)
      case Other(_) => false
  }

  predicate EqualRefs(a: seq<Ref>, b: seq<Ref>)
    decreases a
  {
    |a| == |b| && (a == [] || (Equal(a[0], b[0]) && EqualRefs(a[1..], b[1..])))
  }

  predicate EqualFields(a: seq<Field>, b: seq<Field>)
    decreases a
  {
    |a| == |b| &&
    (a == [] || (&& a[0].name == b[0].name
                 && a[0].tag == b[0].tag
                 && Equal(a[0].typ, b[0].typ)
                 && EqualFields(a[1..], b[1..])))
  }

  predicate EqualEmbeds(a: seq<Embed>, b: seq<Embed>)
    decreases a
  {
    |a| == |b| && (a == [] || (Equal(a[0].typ, b[0].typ) && EqualEmbeds(a[1..], b[1..])))
  }

  predicate EqualMethods(a: seq<Method>, b: seq<Method>)
    decreases a
  {
    |a| == |b| &&
    (a == [] || (&& a[0].name == b[0].name
                 && EqualParams(a[0].params, b[0].params)
                 && EqualReturns(a[0].results, b[0].results)
                 && EqualMethods(a[1..], b[1..])))
  }

  predicate EqualParams(a: seq<Param>, b: seq<Param>)
    decreases a
  {
    |a| == |b| &&
    (a == [] || (&& a[0].variadic == b[0].variadic
                 && Equal(a[0].typ, b[0].typ)
                 && EqualParams(a[1..], b[1..])))
  }

  /** A nil return slot projects to a nil type. */
  function ReturnType(r: Return): Ref {
    match r
    case NoReturn => NoRef
    case Return(_, _, typ) => typ
  }

  predicate EqualReturns(a: seq<Return>, b: seq<Return>)
    decreases a
  {
    |a| == |b| &&
    (a == [] || (&& (if a[0].NoReturn? then ReturnType(b[0]).NoRef? else Equal(a[0].typ, ReturnType(b[0])))
                 && EqualReturns(a[1..], b[1..])))
  }

  // ------------------------------------------------------------- normal form

  /** What a type reference denotes, with everything that is not type identity gone. */
  datatype Shape =
    | NilShape
    | UnknownShape
    | NamedShape(pkg: string, name: string, args: seq<Shape>)
    | PointerShape(elem: Shape)
    | SliceShape(elem: Shape)
    | ArrayShape(len: int, elem: Shape)
    | MapShape(key: Shape, value: Shape)
    | FuncShape(params: seq<Shape>, results: seq<Shape>)
    | TypeParamShape(name: string)
    | StructShape(fields: seq<FieldShape>, embeds: seq<Shape>)
    | InterfaceShape(methods: seq<MethodShape>, embeds: seq<Shape>)

  datatype FieldShape = FieldShape(name: string, tag: string, typ: Shape)
  datatype MethodShape = MethodShape(name: string, params: seq<ParamShape>, results: seq<Shape>)
  datatype ParamShape = ParamShape(variadic: bool, typ: Shape)

  function Erase(r: Ref): Shape
    decreases r, 1
  {
    if r.NoRef? then NilShape
    else match r.kind
      case Named => NamedShape(r.pkg, r.name, EraseRefs(r.typeArgs))
      case Pointer => PointerShape(Erase(r.elem))
      case Slice => SliceShape(Erase(r.elem))
      case Array => ArrayShape(r.arrayLen, Erase(r.elem))
      case Map => MapShape(Erase(r.mapKey), Erase(r.mapValue))
      case Func => FuncShape(EraseRefs(r.funcParams), EraseRefs(r.funcReturns))
      case TypeParam => TypeParamShape(r.name)
      case AnonStruct => StructShape(EraseFields(r.fields), EraseEmbeds(r.embeds))
      case AnonInterface => InterfaceShape(EraseMethods(r.methods), EraseEmbeds(r.embeds))
      case Other(_) => UnknownShape
  }

  function EraseRefs(a: seq<Ref>): seq<Shape>
    decreases a
  {
    if a == [] then [] else [Erase(a[0])] + EraseRefs(a[1..])
  }

  function EraseFields(a: seq<Field>): seq<FieldShape>
    decreases a
  {
    if a == [] then [] else [FieldShape(a[0].name, a[0].tag, Erase(a[0].typ))] + EraseFields(a[1..])
  }

  function EraseEmbeds(a: seq<Embed>): seq<Shape>
    decreases a
  {
    if a == [] then [] else [Erase(a[0].typ)] + EraseEmbeds(a[1..])
  }

  function EraseMethods(a: seq<Method>): seq<MethodShape>
    decreases a
  {
    if a == [] then []
    else [MethodShape(a[0].name, EraseParams(a[0].params), EraseReturns(a[0].results))] + EraseMethods(a[1..])
  }

  function EraseParams(a: seq<Param>): seq<ParamShape>
    decreases a
  {
    if a == [] then [] else [ParamShape(a[0].variadic, Erase(a[0].typ))] + EraseParams(a[1..])
  }

  function EraseReturns(a: seq<Return>): seq<Shape>
    decreases a
  {
    if a == [] then []
    else [if a[0].NoReturn? then NilShape else Erase(a[0].typ)] + EraseReturns(a[1..])
  }

  /** No part of the shape comes from an undeclared kind. */
  predicate Known(s: Shape) {
    match s
    case UnknownShape => false
    case NilShape => true
    case TypeParamShape(_) => true
    case NamedShape(_, _, args) => forall x | x in args :: Known(x)
    case PointerShape(e) => Known(e)
    case SliceShape(e) => Known(e)
    case ArrayShape(_, e) => Known(e)
    case MapShape(k, v) => Known(k) && Known(v)
    case FuncShape(ps, rs) =>
      && (forall x | x in ps :: Known(x))
      && (forall x | x in rs :: Known(x))
    case StructShape(fs, es) =>
      && (forall x | x in fs :: Known(x.typ))
      && (forall x | x in es :: Known(x))
    case InterfaceShape(ms, es) =>
      && (forall x | x in ms :: KnownMethod(x))
      && (forall x | x in es :: Known(x))
  }

  predicate KnownMethod(m: MethodShape) {
    && (forall x | x in m.params :: Known(x.typ))
    && (forall x | x in m.results :: Known(x))
  }

  ghost predicate AllKnown(s: seq<Shape>) {
    forall x | x in s :: Known(x)
  }

  // ------------------------------------------------------------------ lemmas

  /** Equality holds exactly on references with one and the same, fully declared, shape. */
  lemma {:induction false} EqualIsSameShape(r: Ref, o: Ref)
    ensures Equal(r, o) <==> Known(Erase(r)) && Erase(r) == Erase(o)
    decreases r, 1
  {
    hide EqualRefs, EqualFields, EqualEmbeds, EqualMethods, EraseRefs, EraseFields, EraseEmbeds, EraseMethods,
         EqualParams, EqualReturns, EraseParams, EraseReturns, KnownMethod;
    if r.Ref? && o.Ref? && r.kind == o.kind {
      match r.kind
      case Named => RefsSameShape(r.typeArgs, o.typeArgs);
      case Pointer => EqualIsSameShape(r.elem, o.elem);
      case Slice => EqualIsSameShape(r.elem, o.elem);
      case Array => EqualIsSameShape(r.elem, o.elem);
      case Map =>
        EqualIsSameShape(r.mapKey, o.mapKey);
        EqualIsSameShape(r.mapValue, o.mapValue);
      case Func =>
        RefsSameShape(r.funcParams, o.funcParams);
        RefsSameShape(r.funcReturns, o.funcReturns);
      case TypeParam =>
      case AnonStruct =>
        FieldsSameShape(r.fields, o.fields);
        EmbedsSameShape(r.embeds, o.embeds);
      case AnonInterface =>
        MethodsSameShape(r.methods, o.methods);
        EmbedsSameShape(r.embeds, o.embeds);
      case Other(_) =>
    }
  }

  lemma {:induction false} RefsSameShape(a: seq<Ref>, b: seq<Ref>)
    ensures EqualRefs(a, b) <==> AllKnown(EraseRefs(a)) && EraseRefs(a) == EraseRefs(b)
    decreases a
  {
    if a != [] && b != [] {
      EqualIsSameShape(a[0], b[0]);
      RefsSameShape(a[1..], b[1..]);
      ConsEqual(Erase(a[0]), EraseRefs(a[1..]), Erase(b[0]), EraseRefs(b[1..]));
    }
  }

  lemma {:induction false} EmbedsSameShape(a: seq<Embed>, b: seq<Embed>)
    ensures EqualEmbeds(a, b) <==> AllKnown(EraseEmbeds(a)) && EraseEmbeds(a) == EraseEmbeds(b)
    decreases a
  {
    if a != [] && b != [] {
      EqualIsSameShape(a[0].typ, b[0].typ);
      EmbedsSameShape(a[1..], b[1..]);
      ConsEqual(Erase(a[0].typ), EraseEmbeds(a[1..]), Erase(b[0].typ), EraseEmbeds(b[1..]));
    }
  }

  lemma {:induction false} ReturnsSameShape(a: seq<Return>, b: seq<Return>)
    ensures EqualReturns(a, b) <==> AllKnown(EraseReturns(a)) && EraseReturns(a) == EraseReturns(b)
    decreases a
  {
    if a != [] && b != [] {
      if a[0].Return? {
        EqualIsSameShape(a[0].typ, ReturnType(b[0]));
      }
      ReturnsSameShape(a[1..], b[1..]);
      ConsEqual(EraseReturns(a)[0], EraseReturns(a[1..]), EraseReturns(b)[0], EraseReturns(b[1..]));
    }
  }

  lemma {:induction false} FieldsSameShape(a: seq<Field>, b: seq<Field>)
    ensures EqualFields(a, b) <==>
            (forall x | x in EraseFields(a) :: Known(x.typ)) && EraseFields(a) == EraseFields(b)
    decreases a
  {
    if a != [] && b != [] {
      EqualIsSameShape(a[0].typ, b[0].typ);
      FieldsSameShape(a[1..], b[1..]);
      var x, xs := FieldShape(a[0].name, a[0].tag, Erase(a[0].typ)), EraseFields(a[1..]);
      ConsEqual(x, xs, FieldShape(b[0].name, b[0].tag, Erase(b[0].typ)), EraseFields(b[1..]));
    }
  }

  lemma {:induction false} ParamsSameShape(a: seq<Param>, b: seq<Param>)
    ensures EqualParams(a, b) <==>
            (forall x | x in EraseParams(a) :: Known(x.typ)) && EraseParams(a) == EraseParams(b)
    decreases a
  {
    if a != [] && b != [] {
      EqualIsSameShape(a[0].typ, b[0].typ);
      ParamsSameShape(a[1..], b[1..]);
      var x, xs := ParamShape(a[0].variadic, Erase(a[0].typ)), EraseParams(a[1..]);
      ConsEqual(x, xs, ParamShape(b[0].variadic, Erase(b[0].typ)), EraseParams(b[1..]));
    }
  }

  lemma {:induction false} MethodsSameShape(a: seq<Method>, b: seq<Method>)
    ensures EqualMethods(a, b) <==>
            (forall x | x in EraseMethods(a) :: KnownMethod(x)) && EraseMethods(a) == EraseMethods(b)
    decreases a
  {
    hide Equal, Erase, Known, EqualParams, EqualReturns, EraseParams, EraseReturns;
    if a != [] && b != [] {
      ParamsSameShape(a[0].params, b[0].params);
      ReturnsSameShape(a[0].results, b[0].results);
      MethodsSameShape(a[1..], b[1..]);
      var x := MethodShape(a[0].name, EraseParams(a[0].params), EraseReturns(a[0].results));
      var y := MethodShape(b[0].name, EraseParams(b[0].params), EraseReturns(b[0].results));
      ConsEqual(x, EraseMethods(a[1..]), y, EraseMethods(b[1..]));
      assert KnownMethod(x) <==>
          (forall p | p in EraseParams(a[0].params) :: Known(p.typ)) && AllKnown(EraseReturns(a[0].results));
    }
  }

  lemma ConsEqual<T>(x: T, xs: seq<T>, y: T, ys: seq<T>)
    ensures [x] + xs == [y] + ys <==> x == y && xs == ys
  {
    assert ([x] + xs)[0] == x && ([y] + ys)[0] == y;
    assert ([x] + xs)[1..] == xs && ([y] + ys)[1..] == ys;
  }

  /** Equality is symmetric and transitive on every pair, and reflexive exactly on declared kinds. */
  lemma EqualIsEquivalence(a: Ref, b: Ref, c: Ref)
    ensures Equal(a, a) <==> Known(Erase(a))
    ensures Equal(a, b) ==> Equal(b, a)
    ensures Equal(a, b) && Equal(b, c) ==> Equal(a, c)
  {
    EqualIsSameShape(a, a);
    EqualIsSameShape(a, b);
    EqualIsSameShape(b, a);
    EqualIsSameShape(b, c);
    EqualIsSameShape(a, c);
  }

  // ----------------------------------------------------- kind by kind, place by place

  ghost predicate PointwiseEqual(a: seq<Ref>, b: seq<Ref>) {
    |a| == |b| && forall i | 0 <= i < |a| :: Equal(a[i], b[i])
  }

  ghost predicate SameFields(a: seq<Field>, b: seq<Field>) {
    |a| == |b| && forall i | 0 <= i < |a| :: a[i].name == b[i].name && a[i].tag == b[i].tag && Equal(a[i].typ, b[i].typ)
  }

  ghost predicate SameEmbeds(a: seq<Embed>, b: seq<Embed>) {
    |a| == |b| && forall i | 0 <= i < |a| :: Equal(a[i].typ, b[i].typ)
  }

  ghost predicate SameParams(a: seq<Param>, b: seq<Param>) {
    |a| == |b| && forall i | 0 <= i < |a| :: a[i].variadic == b[i].variadic && Equal(a[i].typ, b[i].typ)
  }

  /** A missing return slot is one without a type. */
  ghost predicate SameReturns(a: seq<Return>, b: seq<Return>) {
    |a| == |b| && forall i | 0 <= i < |a| ::
      Equal(if a[i].Return? then a[i].typ else NoRef, if b[i].Return? then b[i].typ else NoRef)
  }

  ghost predicate SameMethods(a: seq<Method>, b: seq<Method>) {
    |a| == |b| && forall i | 0 <= i < |a| ::
      a[i].name == b[i].name && SameParams(a[i].params, b[i].params) && SameReturns(a[i].results, b[i].results)
  }

  /** What equality looks at for each kind, and that it looks at every place of a list. */
  lemma EqualByKind(r: Ref, o: Ref)
    ensures r.NoRef? || o.NoRef? ==> (Equal(r, o) <==> r.NoRef? && o.NoRef?)
    ensures r.Ref? && o.Ref? ==>
      (Equal(r, o) <==>
       && r.kind == o.kind && !r.kind.Other?
       && (r.kind == Named ==> r.pkg == o.pkg && r.name == o.name && PointwiseEqual(r.typeArgs, o.typeArgs))
       && (r.kind == TypeParam ==> r.name == o.name)
       && (r.kind == Pointer || r.kind == Slice || r.kind == Array ==> Equal(r.elem, o.elem))
       && (r.kind == Array ==> r.arrayLen == o.arrayLen)
       && (r.kind == Map ==> Equal(r.mapKey, o.mapKey) && Equal(r.mapValue, o.mapValue))
       && (r.kind == Func ==> PointwiseEqual(r.funcParams, o.funcParams))
       && (r.kind == Func ==> PointwiseEqual(r.funcReturns, o.funcReturns))
       && (r.kind == AnonStruct ==> SameFields(r.fields, o.fields) && SameEmbeds(r.embeds, o.embeds))
       && (r.kind == AnonInterface ==> SameMethods(r.methods, o.methods) && SameEmbeds(r.embeds, o.embeds)))
  {
    hide EqualRefs, EqualFields, EqualEmbeds, EqualMethods, EqualParams, EqualReturns,
         PointwiseEqual, SameFields, SameEmbeds, SameMethods;
    if r.Ref? && o.Ref? && r.kind == o.kind {
      RefsPointwise(r.typeArgs, o.typeArgs);
      RefsPointwise(r.funcParams, o.funcParams);
      RefsPointwise(r.funcReturns, o.funcReturns);
      FieldsPointwise(r.fields, o.fields);
      EmbedsPointwise(r.embeds, o.embeds);
      MethodsPointwise(r.methods, o.methods);
    }
  }

  lemma {:induction false} RefsPointwise(a: seq<Ref>, b: seq<Ref>)
    ensures EqualRefs(a, b) <==> PointwiseEqual(a, b)
  {
    hide Equal;
    if a != [] && b != [] {
      RefsPointwise(a[1..], b[1..]);
      assert a == [a[0]] + a[1..] && b == [b[0]] + b[1..];
      assert forall i | 0 <= i < |a| - 1 :: a[1..][i] == a[i + 1];
      assert forall i | 0 <= i < |b| - 1 :: b[1..][i] == b[i + 1];
      if PointwiseEqual(a[1..], b[1..]) && Equal(a[0], b[0]) {
        forall i | 0 <= i < |a| ensures Equal(a[i], b[i]) {
          assert i > 0 ==> Equal(a[1..][i - 1], b[1..][i - 1]);
        }
      }
    }
  }

  lemma {:induction false} FieldsPointwise(a: seq<Field>, b: seq<Field>)
    ensures EqualFields(a, b) <==> SameFields(a, b)
  {
    hide Equal;
    if a != [] && b != [] {
      FieldsPointwise(a[1..], b[1..]);
      assert a == [a[0]] + a[1..] && b == [b[0]] + b[1..];
    }
  }

  lemma {:induction false} EmbedsPointwise(a: seq<Embed>, b: seq<Embed>)
    ensures EqualEmbeds(a, b) <==> SameEmbeds(a, b)
  {
    hide Equal;
    if a != [] && b != [] {
      EmbedsPointwise(a[1..], b[1..]);
      assert a == [a[0]] + a[1..] && b == [b[0]] + b[1..];
    }
  }

  lemma {:induction false} ParamsPointwise(a: seq<Param>, b: seq<Param>)
    ensures EqualParams(a, b) <==> SameParams(a, b)
  {
    hide Equal;
    if a != [] && b != [] {
      ParamsPointwise(a[1..], b[1..]);
      assert a == [a[0]] + a[1..] && b == [b[0]] + b[1..];
    }
  }

  lemma {:induction false} ReturnsPointwise(a: seq<Return>, b: seq<Return>)
    ensures EqualReturns(a, b) <==> SameReturns(a, b)
  {
    if a != [] && b != [] {
      NilEqual(if b[0].Return? then b[0].typ else NoRef);
      hide Equal;
      ReturnsPointwise(a[1..], b[1..]);
      assert a == [a[0]] + a[1..] && b == [b[0]] + b[1..];
    }
  }

  lemma NilEqual(r: Ref)
    ensures Equal(NoRef, r) <==> r.NoRef?
  {}

  lemma {:induction false} MethodsPointwise(a: seq<Method>, b: seq<Method>)
    ensures EqualMethods(a, b) <==> SameMethods(a, b)
  {
    hide Equal, EqualParams, EqualReturns, SameParams, SameReturns;
    if a != [] && b != [] {
      ParamsPointwise(a[0].params, b[0].params);
      ReturnsPointwise(a[0].results, b[0].results);
      MethodsPointwise(a[1..], b[1..]);
      assert a == [a[0]] + a[1..] && b == [b[0]] + b[1..];
    }
  }
}
