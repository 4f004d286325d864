/**
 * The part of JavaScript's value model the bridge observes: `typeof`,
 * property reads `v[k]`, `Object.keys`, truthiness, and the `toString` that
 * `getFunctionParams` applies to its argument. Objects and functions carry
 * their own properties; `keys` lists the enumerable ones in `Object.keys`
 * order, `slots` holds every own property, and a slot whose getter throws
 * holds the stringified error instead of a value.
 */
module JsValues {
  import opened Wrappers
  import Text

  datatype Value =
    | Undefined
    | Null
    | Bool(b: bool)
    | Num(n: int)
    | Str(s: string)
    | Func(source: string, own: Props)
    | Obj(own: Props)

  datatype Props = Props(keys: seq<string>, slots: map<string, Slot>)

  datatype Slot = Data(value: Value) | Throwing(error: string)

  const ObjectString: string := "[object Object]"

  /** `String(err)` for the TypeError that `null.toString()` raises. */
  const NullToStringError: string := "TypeError: Cannot read properties of null (reading 'toString')"

  const NoObjectError: string := "TypeError: Cannot convert undefined or null to object"

  /** The results of `typeof` that this model's values produce. */
  datatype TypeTag = UndefinedType | ObjectType | BooleanType | NumberType | StringType | FunctionType {
    /** The string `typeof` returns. */
    function Name(): string {
      match this
      case UndefinedType => "undefined"
      case ObjectType => "object"
      case BooleanType => "boolean"
      case NumberType => "number"
      case StringType => "string"
      case FunctionType => "function"
    }
  }

  /** `typeof v`: null is an "object", as in JavaScript. */
  function TypeOf(v: Value): (t: TypeTag)
    ensures t == UndefinedType <==> v.Undefined?
    ensures t == ObjectType <==> (v.Null? || v.Obj?)
    ensures t == FunctionType <==> v.Func?
  {
    match v
    case Undefined => UndefinedType
    case Null => ObjectType
    case Bool(_) => BooleanType
    case Num(_) => NumberType
    case Str(_) => StringType
    case Func(_, _) => FunctionType
    case Obj(_) => ObjectType
  }

  /** `String(err)` for the TypeError that reading property `k` of null or undefined raises. */
  function ReadError(base: string, k: string): string {
    "TypeError: Cannot read properties of " + base + " (reading '" + k + "')"
  }

  /** An own property read: absent means undefined, a throwing getter throws. */
  function ReadSlot(p: Props, k: string): Result<Value, string> {
    if k !in p.slots then Success(Undefined)
    else match p.slots[k]
      case Data(w) => Success(w)
      case Throwing(e) => Failure(e)
  }

  /**
   * `v[k]`. Reading from null or undefined throws; a string has its
   * characters under their decimal indices and its `length`. Properties
   * inherited from prototypes are not part of this model.
   */
  function Get(v: Value, k: string): (r: Result<Value, string>)
    ensures (v.Null? || v.Undefined?) ==> r == Failure(ReadError(if v.Null? then "null" else "undefined", k))
    ensures (v.Bool? || v.Num?) ==> r == Success(Undefined)
    ensures r.Failure? ==> v.Null? || v.Undefined? || ((v.Obj? || v.Func?) && k in v.own.slots && v.own.slots[k].Throwing?)
  {
    match v
    case Undefined => Failure(ReadError("undefined", k))
    case Null => Failure(ReadError("null", k))
    case Bool(_) => Success(Undefined)
    case Num(_) => Success(Undefined)
    case Str(s) =>
      var index := Text.ParseNat(k);
      if index.Some? && index.value < |s| then Success(Str([s[index.value]]))
      else if k == "length" then Success(Num(|s|))
      else Success(Undefined)
    case Func(_, p) => ReadSlot(p, k)
    case Obj(p) => ReadSlot(p, k)
  }

  /** `Object.keys(v)`: the own enumerable property names; it throws for null and undefined. */
  function OwnKeys(v: Value): (r: Result<seq<string>, string>)
    ensures r.Failure? <==> (v.Null? || v.Undefined?)
    ensures r.Failure? ==> r.error == NoObjectError
    ensures (v.Obj? || v.Func?) ==> r == Success(v.own.keys)
    ensures v.Str? ==> r.Success? && |r.value| == |v.s|
  {
    match v
    case Undefined => Failure(NoObjectError)
    case Null => Failure(NoObjectError)
    case Bool(_) => Success([])
    case Num(_) => Success([])
    case Str(s) => Success(seq(|s|, i requires 0 <= i < |s| => Text.NatToString(i)))
    case Func(_, p) => Success(p.keys)
    case Obj(p) => Success(p.keys)
  }

  /** Every key `Object.keys` lists for a string reads back that string's character. */
  lemma {:induction false} StringKeysReadBack(s: string, i: nat)
    requires i < |s|
    ensures OwnKeys(Str(s)).Success? && OwnKeys(Str(s)).value[i] == Text.NatToString(i)
    ensures Get(Str(s), Text.NatToString(i)) == Success(Str([s[i]]))
  {
    Text.ParseNatToString(i);
  }

  /** `!!v`. Only the integer-valued numbers of this model exist, so NaN and -0 do not arise. */
  predicate Truthy(v: Value)
    ensures Truthy(v) ==> !v.Null? && !v.Undefined?
    ensures (v.Obj? || v.Func?) ==> Truthy(v)
    ensures v.Str? ==> (Truthy(v) <==> OwnKeys(v).value != [])
  {
    match v
    case Undefined => false
    case Null => false
    case Bool(b) => b
    case Num(n) => n != 0
    case Str(s) => s != []
    case Func(_, _) => true
    case Obj(_) => true
  }

  /**
   * `fn.toString()` for the values `getFunctionParams` receives, whose
   * `typeof` is "object" or "function": a function gives its source text, a
   * plain object "[object Object]", and null throws.
   */
  function FunctionText(v: Value): (r: Result<string, string>)
    requires TypeOf(v) == ObjectType || TypeOf(v) == FunctionType
    ensures r.Failure? <==> v.Null?
    ensures r.Failure? ==> r.error == NullToStringError
    ensures v.Func? ==> r == Success(v.source)
    ensures v.Obj? ==> r == Success(ObjectString)
  {
    match v
    case Null => Failure(NullToStringError)
    case Func(source, _) => Success(source)
    case Obj(_) => Success(ObjectString)
  }
}
