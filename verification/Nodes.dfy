/**
The source node model, reduced to what the traversals of it look at: the kind of a node and the
named fields that hold other nodes. `Slots`, `Fits` and `HasOwner` follow the type declarations;
`WalkSlots` is the child relation of `node.Walk`.
*/
module Nodes {
  import TypeRefs

  datatype Kind =
    | Package | File | Import | Struct | Interface | Function | Enum | EnumVariant | Alias | Variable | Constant
    | TypeParam | Field | Embed | Method | Param | Return | Ref(refKind: TypeRefs.Kind)

  /** `Bound` is the list of references in a type parameter's constraint, which is no node itself. */
  datatype Slot =
    | Files | Imports | Structs | Interfaces | Functions | Variables | Constants | Enums | Aliases
    | TypeParams | Fields | Embeds | Methods | Params | Returns | Receiver | Type | Bound
    | Underlying | Variants | Target | Resolved
    | TypeArgs | Elem | MapKey | MapValue | FuncParams | FuncReturns

  /** The node-valued fields each type declares. */
  function Slots(k: Kind): set<Slot> {
    match k
    case Package => {Files, Imports, Structs, Interfaces, Functions, Variables, Constants, Enums, Aliases}
    case File => {Imports}
    case Struct => {Fields, Embeds, Methods, TypeParams}
    case Interface => {Fields, Methods, Embeds, TypeParams}
    case Function => {Params, Returns, TypeParams}
    case Method => {Receiver, Params, Returns, TypeParams}
    case Enum => {Underlying, Variants, Methods}
    case Alias => {Target, TypeParams, Methods}
    case TypeParam => {Bound}
    case Embed => {Type, Resolved}
    case Field => {Type}
    case Param => {Type}
    case Return => {Type}
    case Variable => {Type}
    case Constant => {Type}
    case Import => {}
    case EnumVariant => {}
    case Ref(_) => {TypeArgs, Elem, MapKey, MapValue, FuncParams, FuncReturns, Fields, Methods, Embeds}
  }

  /** The kind of node a field may hold. */
  predicate Fits(s: Slot, k: Kind) {
    match s
    case Files => k == File
    case Imports => k == Import
    case Structs => k == Struct
    case Interfaces => k == Interface
    case Functions => k == Function
    case Variables => k == Variable
    case Constants => k == Constant
    case Enums => k == Enum
    case Aliases => k == Alias
    case TypeParams => k == TypeParam
    case Fields => k == Field
    case Embeds => k == Embed
    case Methods => k == Method
    case Params => k == Param
    case Returns => k == Return
    case Variants => k == EnumVariant
    case Resolved => k == Interface
    case _ => k.Ref?
  }

  /** The slots a reference of the given kind uses; the others are empty in a well-kinded graph. */
  function RefSlots(k: TypeRefs.Kind): seq<Slot> {
    match k
    case Named => [TypeArgs]
    case Pointer => [Elem]
    case Slice => [Elem]
    case Array => [Elem]
    case Map => [MapKey, MapValue]
    case Func => [FuncParams, FuncReturns]
    case AnonStruct => [Fields, Embeds]
    case AnonInterface => [Methods, Embeds]
    case TypeParam => []
    case Other(_) => []
  }

  /** The children `Walk` descends into, in its order. */
  function WalkSlots(k: Kind): seq<Slot> {
    match k
    case Package => [Files, Imports, Structs, Interfaces, Functions, Variables, Constants, Enums, Aliases]
    case File => [Imports]
    case Struct => [TypeParams, Fields, Embeds, Methods]
    case Interface => [TypeParams, Fields, Methods, Embeds]
    case Method => [TypeParams, Params, Returns]
    case Function => [TypeParams, Params, Returns]
    case Field => [Type]
    case Param => [Type]
    case Return => [Type]
    case TypeParam => [Bound]
    case Enum => [Underlying, Variants]
    case Alias => [TypeParams, Target]
    case Variable => [Type]
    case Constant => [Type]
    case Embed => [Type]
    case Ref(r) => RefSlots(r)
    case Import => []
    case EnumVariant => []
  }

  /** The kinds with an Owner field. */
  predicate HasOwner(k: Kind) {
    k.File? || k.Import? || k.EnumVariant? || k.TypeParam? || k.Field? || k.Embed? || k.Method? || k.Param? || k.Return?
  }

  // -------------------------------------------------- the same, field by field

  ghost predicate IsDeclaration(k: Kind) {
    k == Struct || k == Interface || k == Function || k == Method || k == Alias
  }

  /** The types that declare each field. */
  ghost predicate HasField(k: Kind, s: Slot) {
    match s
    case Files => k == Package
    case Imports => k == Package || k == File
    case Structs => k == Package
    case Interfaces => k == Package
    case Functions => k == Package
    case Variables => k == Package
    case Constants => k == Package
    case Enums => k == Package
    case Aliases => k == Package
    case TypeParams => IsDeclaration(k)
    case Fields => k == Struct || k == Interface || k.Ref?
    case Embeds => k == Struct || k == Interface || k.Ref?
    case Methods => k == Struct || k == Interface || k == Enum || k == Alias || k.Ref?
    case Params => k == Function || k == Method
    case Returns => k == Function || k == Method
    case Receiver => k == Method
    case Type => k == Field || k == Param || k == Return || k == Variable || k == Constant || k == Embed
    case Bound => k == TypeParam
    case Underlying => k == Enum
    case Variants => k == Enum
    case Target => k == Alias
    case Resolved => k == Embed
    case _ => k.Ref?
  }

  lemma SlotsByField(k: Kind, s: Slot)
    ensures s in Slots(k) <==> HasField(k, s)
  {
    hide Slots, HasField;
    if k.Package? {
      PackageFields(s);
    } else if k.Struct? || k.Interface? {
      TypeFields(k, s);
    } else if k.Function? || k.Method? {
      CallableFields(k, s);
    } else if k.Enum? || k.Alias? {
      NamedFields(k, s);
    } else if k.Ref? {
      RefFields(k, s);
    } else if k.File? || k.Import? || k.EnumVariant? || k.TypeParam? {
      LeafFields(k, s);
    } else {
      MemberFields(k, s);
    }
  }

  lemma PackageFields(s: Slot)
    ensures s in Slots(Package) <==> HasField(Package, s)
  {}

  lemma TypeFields(k: Kind, s: Slot)
    requires k.Struct? || k.Interface?
    ensures s in Slots(k) <==> HasField(k, s)
  {}

  lemma CallableFields(k: Kind, s: Slot)
    requires k.Function? || k.Method?
    ensures s in Slots(k) <==> HasField(k, s)
  {}

  lemma NamedFields(k: Kind, s: Slot)
    requires k.Enum? || k.Alias?
    ensures s in Slots(k) <==> HasField(k, s)
  {}

  lemma RefFields(k: Kind, s: Slot)
    requires k.Ref?
    ensures s in Slots(k) <==> HasField(k, s)
  {}

  lemma MemberFields(k: Kind, s: Slot)
    requires k.Variable? || k.Constant? || k.Field? || k.Embed? || k.Param? || k.Return?
    ensures s in Slots(k) <==> HasField(k, s)
  {}

  lemma LeafFields(k: Kind, s: Slot)
    requires k.File? || k.Import? || k.EnumVariant? || k.TypeParam?
    ensures s in Slots(k) <==> HasField(k, s)
  {}

  /** The reference kinds that use each field. */
  ghost predicate UsesField(r: TypeRefs.Kind, s: Slot) {
    match s
    case TypeArgs => r == TypeRefs.Named
    case Elem => r == TypeRefs.Pointer || r == TypeRefs.Slice || r == TypeRefs.Array
    case MapKey => r == TypeRefs.Map
    case MapValue => r == TypeRefs.Map
    case FuncParams => r == TypeRefs.Func
    case FuncReturns => r == TypeRefs.Func
    case Fields => r == TypeRefs.AnonStruct
    case Methods => r == TypeRefs.AnonInterface
    case Embeds => r == TypeRefs.AnonStruct || r == TypeRefs.AnonInterface
    case _ => false
  }

  lemma RefSlotsByField(r: TypeRefs.Kind, s: Slot)
    ensures s in RefSlots(r) <==> UsesField(r, s)
  {}

  /**
  `Walk` goes into every field a type declares, except a method's receiver, the methods of enums and
  aliases, an embed's projection, and what a reference of its kind does not use.
  */
  lemma WalkSlotsExactly(k: Kind, s: Slot)
    ensures s in WalkSlots(k) <==> HasField(k, s) && !IsPassedOver(k, s) && (k.Ref? ==> UsesField(k.refKind, s))
  {
    hide Slots, WalkSlots, HasField, UsesField;
    SlotsByField(k, s);
    WalkSlotsAre(k, s);
    if k.Ref? {
      RefSlotsByField(k.refKind, s);
      UsedIsField(k.refKind, s);
    }
  }

  ghost predicate IsPassedOver(k: Kind, s: Slot) {
    (s == Receiver && k == Method) || (s == Methods && (k == Enum || k == Alias)) || (s == Resolved && k == Embed)
  }

  lemma UsedIsField(r: TypeRefs.Kind, s: Slot)
    ensures UsesField(r, s) ==> HasField(Ref(r), s)
  {}

  lemma WalkSlotsAre(k: Kind, s: Slot)
    ensures s in WalkSlots(k) <==> if k.Ref? then s in RefSlots(k.refKind) else s in Slots(k) && !IsPassedOver(k, s)
  {
    hide RefSlots;
    if k.Package? {
      PackageWalk(s);
    } else if k.Struct? || k.Interface? || k.Function? {
      TypeWalk(k, s);
    } else if k.Method? {
      MethodWalk(s);
    } else if k.Enum? {
      EnumWalk(s);
    } else if k.Alias? {
      AliasWalk(s);
    }
  }

  lemma PackageWalk(s: Slot)
    ensures s in WalkSlots(Package) <==> s in Slots(Package)
  {
    hide RefSlots;
  }

  lemma TypeWalk(k: Kind, s: Slot)
    requires k.Struct? || k.Interface? || k.Function?
    ensures s in WalkSlots(k) <==> s in Slots(k)
  {
    hide RefSlots;
  }

  lemma MethodWalk(s: Slot)
    ensures s in WalkSlots(Method) <==> s in Slots(Method) && s != Receiver
  {
    hide RefSlots;
  }

  lemma EnumWalk(s: Slot)
    ensures s in WalkSlots(Enum) <==> s in Slots(Enum) && s != Methods
  {
    hide RefSlots;
  }

  lemma AliasWalk(s: Slot)
    ensures s in WalkSlots(Alias) <==> s in Slots(Alias) && s != Methods
  {
    hide RefSlots;
  }
}
