/** The managed heap as a transaction sees it: typed slots addressed by object and offset
    (or primitive array and index), the two intern tables, and the conversions between a
    slot's bits and the 64-bit word that an undo log keeps. */
module HeapModel {
  import opened Words
  import opened Wrappers

  /** An address; null is 0. */
  type Ref = nat
  const NULL: Ref := 0

  /** `mirror::Class::ClassOffset()` and `mirror::Array::LengthOffset()`. */
  const CLASS_OFFSET: nat := 0
  const LENGTH_OFFSET: nat := 8

  /** How a field value was logged (`ObjectLog::FieldValueKind`). */
  datatype Kind = KBoolean | KByte | KChar | KShort | K32Bits | K64Bits | KReference

  /** Component types of primitive arrays. */
  datatype Prim = PBoolean | PByte | PChar | PShort | PInt | PLong | PFloat | PDouble

  /** Declared type of an object field. Floating point fields are written as raw bits. */
  datatype FieldType = FBoolean | FByte | FChar | FShort | FInt | FLong | FReference

  /** What a slot holds: raw bits, an address, or the number in a floating point array element. */
  datatype Val = Bits(n: nat) | Pointer(r: Ref) | Fp(x: real)

  /** Object arrays keep their elements in field slots; primitive arrays have element slots. */
  datatype Loc = Field(obj: Ref, off: nat) | Elem(arr: Ref, idx: nat)

  function ObjOf(l: Loc): Ref {
    match l case Field(o, _) => o case Elem(a, _) => a
  }

  datatype SlotType = FieldSlot(f: FieldType) | ElemSlot(p: Prim)

  /** The immutable part of an object. `text` is the content of a string object; `klass` is the
      object's class (or the object, if it is a class), and `referenceable` says that it passes
      `CanReferenceInBootImageExtensionOrAppImage`. */
  datatype Shape = Shape(
    isClass: bool,
    klass: nat,
    isArray: bool,
    elem: Option<Prim>,
    fields: map<nat, FieldType>,
    inBootImage: bool,
    referenceable: bool,
    text: string)

  type InternTable = map<string, Ref>

  datatype Heap = Heap(
    mem: map<Loc, Val>,
    shapes: map<Ref, Shape>,
    strong: InternTable,
    weak: InternTable)

  predicate HasSlot(sh: Shape, l: Loc) {
    match l
    case Field(_, off) => off in sh.fields
    case Elem(_, _) => sh.elem.Some?
  }

  function SlotTypeOf(sh: Shape, l: Loc): SlotType
    requires HasSlot(sh, l)
  {
    match l
    case Field(_, off) => FieldSlot(sh.fields[off])
    case Elem(_, _) => ElemSlot(sh.elem.value)
  }

  function FieldModulus(f: FieldType): nat {
    match f
    case FBoolean => TWO_8
    case FByte => TWO_8
    case FChar => TWO_16
    case FShort => TWO_16
    case FInt => TWO_32
    case FLong => TWO_64
    case FReference => TWO_64
  }

  function PrimModulus(p: Prim): nat {
    match p
    case PBoolean => TWO_8
    case PByte => TWO_8
    case PChar => TWO_16
    case PShort => TWO_16
    case PInt => TWO_32
    case PFloat => TWO_32
    case PLong => TWO_64
    case PDouble => TWO_64
  }

  function KindModulus(k: Kind): nat {
    match k
    case KBoolean => TWO_8
    case KByte => TWO_8
    case KChar => TWO_16
    case KShort => TWO_16
    case K32Bits => TWO_32
    case K64Bits => TWO_64
    case KReference => TWO_64
  }

  predicate IsFloating(p: Prim) { p == PFloat || p == PDouble }

  /** The value fits the slot. Addresses are unbounded in this model. */
  predicate Fits(t: SlotType, v: Val) {
    match t
    case FieldSlot(f) => if f == FReference then v.Pointer? else v.Bits? && v.n < FieldModulus(f)
    case ElemSlot(p) => if IsFloating(p) then v.Fp? else v.Bits? && v.n < PrimModulus(p)
  }

  /** The `RecordWriteField*` entry point that the field setter of each type calls. Short
      fields are recorded through the char entry point. */
  function RecordKind(f: FieldType): Kind {
    match f
    case FBoolean => KBoolean
    case FByte => KByte
    case FChar => KChar
    case FShort => KChar
    case FInt => K32Bits
    case FLong => K64Bits
    case FReference => KReference
  }

  /** Conversion of a two's complement `modulus`-wide signed value to an unsigned 64-bit word. */
  function SignExtend(bits: nat, modulus: nat): nat
    requires 0 < modulus <= TWO_64 && bits < modulus
  {
    if bits < modulus / 2 then bits else bits + (TWO_64 - modulus)
  }

  /** The word that the log keeps for a field whose bits are `bits`, given the entry point's
      parameter type: signed for byte and short, unsigned otherwise. */
  function WidenField(k: Kind, bits: nat): nat
    requires bits < KindModulus(k)
  {
    if k == KByte || k == KShort then SignExtend(bits, KindModulus(k)) else bits
  }

  /** The bits that `UndoFieldWrite` stores: the word cast to the kind's type. */
  function NarrowField(k: Kind, word: nat): nat {
    word % KindModulus(k)
  }

  /** The word that the log keeps for an integral array element: the element's own type is
      converted to an unsigned 64-bit word. */
  function WidenElem(p: Prim, bits: nat): nat
    requires bits < PrimModulus(p)
  {
    if p == PByte || p == PShort || p == PInt then SignExtend(bits, PrimModulus(p)) else bits
  }

  /** Numeric conversion of a floating point element to an unsigned word drops the fraction.
      C++ leaves it undefined at or below -1 and from 2^64 up; the model picks 0 there. */
  function WidenFloating(x: real): nat {
    if 0.0 <= x < TWO_64 as real then x.Floor else 0
  }

  /** What is logged for the current value of a slot. */
  function EncodeSlot(t: SlotType, v: Val): (word: nat)
    requires Fits(t, v)
  {
    match t
    case FieldSlot(f) =>
      if f == FReference then v.r else WidenField(RecordKind(f), v.n)
    case ElemSlot(p) =>
      if IsFloating(p) then WidenFloating(v.x) else WidenElem(p, v.n)
  }

  /** `UndoFieldWrite`. */
  function DecodeField(k: Kind, word: nat): Val {
    if k == KReference then Pointer(word) else Bits(NarrowField(k, word))
  }

  /** `UndoArrayWrite`. */
  function DecodeElem(p: Prim, word: nat): Val {
    if IsFloating(p) then Fp(word as real) else Bits(word % PrimModulus(p))
  }

  function DecodeSlot(t: SlotType, word: nat): Val {
    match t
    case FieldSlot(f) => DecodeField(RecordKind(f), word)
    case ElemSlot(p) => DecodeElem(p, word)
  }

  /** The undo log can reproduce the value, floating point values being reals here: a negative
      zero is no value of its own, and nothing is said about conversions that C++ leaves open. */
  predicate Recoverable(v: Val) {
    v.Fp? ==> 0.0 <= v.x < TWO_64 as real && v.x == v.x.Floor as real
  }

  lemma NarrowUndoesSignExtend(bits: nat, modulus: nat)
    requires modulus == TWO_8 || modulus == TWO_16 || modulus == TWO_32
    requires bits < modulus
    ensures SignExtend(bits, modulus) < TWO_64
    ensures SignExtend(bits, modulus) % modulus == bits
  {
    if modulus == TWO_8 {
    } else if modulus == TWO_16 {
    } else {
    }
  }

  /** Every log kind gives back the bits it was given, whichever type the field has. */
  lemma FieldRoundTrip(k: Kind, bits: nat)
    requires k != KReference && bits < KindModulus(k)
    ensures NarrowField(k, WidenField(k, bits)) == bits
  {
    if k == KByte || k == KShort {
      NarrowUndoesSignExtend(bits, KindModulus(k));
    }
  }

  /** Widening a slot's value to a word and narrowing it again yields the value exactly when
      the value is not a floating point element with a fraction, a negative one, or one past
      the unsigned range. */
  lemma SlotRoundTrip(t: SlotType, v: Val)
    requires Fits(t, v)
    ensures DecodeSlot(t, EncodeSlot(t, v)) == v <==> Recoverable(v)
  {
    match t {
      case FieldSlot(f) =>
        if f != FReference {
          FieldRoundTrip(RecordKind(f), v.n);
        }
      case ElemSlot(p) =>
        if p == PByte || p == PShort || p == PInt {
          NarrowUndoesSignExtend(v.n, PrimModulus(p));
        }
    }
  }

  /** A half is logged as 0 and comes back as 0: floating point elements are not restored in general. */
  lemma FloatingElementLost()
    ensures DecodeElem(PDouble, EncodeSlot(ElemSlot(PDouble), Fp(0.5))) == Fp(0.0)
  {
  }
}
