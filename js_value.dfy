/**
 * The JavaScript values the driver handles, as one datatype.
 *
 * Plain objects are finite maps from property names to values; the order of
 * their keys is not kept.  Objects whose identity matters are modelled
 * separately: `Ref` is an empty object literal (`{}`) told apart from every
 * other one by its `Ident`, and `Host` wraps an object of the model's own
 * classes (a DOM element, an event source), compared by reference.
 * Numbers are integers.
 */
module JsValues {

  datatype Option<+T> = None | Some(value: T)

  /** An allocated `{}` object, compared by identity. */
  datatype Ident = Ident(n: nat)

  datatype JsValue =
    | Undefined
    | Null
    | Bool(b: bool)
    | Num(n: int)
    | Str(s: string)
    | Arr(elems: seq<JsValue>)
      /** `plain` says whether the object's constructor is `Object`. */
    | Obj(fields: map<string, JsValue>, plain: bool)
    | Ref(id: Ident)
    | Host(ref: object)

  /** JavaScript truthiness. */
  predicate Truthy(v: JsValue) {
    match v
    case Undefined => false
    case Null => false
    case Bool(b) => b
    case Num(n) => n != 0
    case Str(s) => s != ""
    case _ => true
  }

  /** `undefined` and `null`: the values whose property reads throw. */
  predicate Nullish(v: JsValue) {
    v.Undefined? || v.Null?
  }

  /** The `typeof` operator (there are no function values in the model). */
  function TypeOf(v: JsValue): (t: string)
    ensures t == "string" <==> v.Str?
    ensures t == "number" <==> v.Num?
    ensures t == "undefined" <==> v.Undefined?
  {
    match v
    case Undefined => "undefined"
    case Bool(_) => "boolean"
    case Num(_) => "number"
    case Str(_) => "string"
    case _ => "object"
  }

  /**
   * A named property read `v.k`.  Reading from `undefined` or `null` throws,
   * hence the precondition.  A missing property of an object reads as
   * `undefined`; so does every named property of a primitive, an array, an
   * identity object or a host object.  The core reads through it the node
   * fields, the data tables and `eventSource`, and the props' `key`,
   * `style`, `class`, `className` and every key it copies into `attrs` or
   * `props`.
   */
  function Get(v: JsValue, k: string): (r: JsValue)
    requires !Nullish(v)
    ensures v.Obj? && k in v.fields ==> r == v.fields[k]
    ensures !(v.Obj? && k in v.fields) ==> r == Undefined
  {
    if v.Obj? && k in v.fields then v.fields[k] else Undefined
  }

  /** A property read that tolerates a missing receiver: `(v || {}).k`. */
  function GetOr(v: JsValue, k: string): (r: JsValue)
    ensures !Truthy(v) ==> r == Undefined
    ensures Truthy(v) ==> r == Get(v, k)
  {
    if Truthy(v) then Get(v, k) else Undefined
  }

  /** Decimal digit character. */
  function Digit(d: nat): (c: char)
    requires d < 10
    ensures '0' <= c <= '9' && DigitValue(c) == d
  {
    ['0', '1', '2', '3', '4', '5', '6', '7', '8', '9'][d]
  }

  /** The value of a decimal digit character. */
  function DigitValue(c: char): nat
    requires '0' <= c <= '9'
  {
    c as int - '0' as int
  }

  predicate IsDigits(s: string) {
    forall i :: 0 <= i < |s| ==> '0' <= s[i] <= '9'
  }

  /** The number a string of decimal digits spells. */
  function DecimalValue(s: string): nat
    requires IsDigits(s)
  {
    if s == [] then 0 else DecimalValue(s[..|s| - 1]) * 10 + DigitValue(s[|s| - 1])
  }

  /** Decimal notation of a natural number, as `String(n)` writes it: digits spelling `n`, without a leading zero. */
  function NatToString(n: nat): (s: string)
    ensures s != [] && IsDigits(s)
    ensures |s| > 1 ==> s[0] != '0'
    ensures DecimalValue(s) == n
  {
    if n < 10 then [Digit(n)]
    else
      var init := NatToString(n / 10);
      var s := init + [Digit(n % 10)];
      assert s[..|s| - 1] == init;
      s
  }

  /** Two numbers with the same notation are equal. */
  lemma NatToStringInjective(m: nat, n: nat)
    requires NatToString(m) == NatToString(n)
    ensures m == n
  {
    assert DecimalValue(NatToString(m)) == DecimalValue(NatToString(n));
  }

  /** `${n}` for an integer `n`: a minus sign exactly for a negative number, then the digits of its magnitude. */
  function IntToString(n: int): (s: string)
    ensures s != []
    ensures n < 0 <==> s[0] == '-'
    ensures n >= 0 ==> IsDigits(s) && DecimalValue(s) == n && (|s| > 1 ==> s[0] != '0')
    ensures n < 0 ==> |s| > 1 && IsDigits(s[1..]) && DecimalValue(s[1..]) == -n && (|s| > 2 ==> s[1] != '0')
  {
    if n < 0 then
      var s := "-" + NatToString(-n);
      assert s[1..] == NatToString(-n);
      s
    else NatToString(n)
  }

  /** The names of the indices `0 .. n-1`, as `Object.keys` lists them. */
  function IndexNames(n: nat): set<string> {
    set i | 0 <= i < n :: NatToString(i)
  }

  /** One more index adds one name, not among the earlier ones. */
  lemma IndexNamesSnoc(n: nat)
    ensures IndexNames(n + 1) == IndexNames(n) + {NatToString(n)}
    ensures NatToString(n) !in IndexNames(n)
  {
    forall x | x in IndexNames(n + 1) ensures x in IndexNames(n) + {NatToString(n)} {
      var i :| 0 <= i < n + 1 && x == NatToString(i);
      if i < n {
        assert x in IndexNames(n);
      }
    }
  }

  /** There is one distinct name per index. */
  lemma {:induction false} IndexNamesCount(n: nat)
    ensures |IndexNames(n)| == n
  {
    if n > 0 {
      IndexNamesCount(n - 1);
      IndexNamesSnoc(n - 1);
    }
  }

  /**
   * `Object.keys(v)` for a non-nullish value: the own enumerable string
   * keys.  A host object's own properties are not part of the model.
   */
  function OwnKeys(v: JsValue): (r: set<string>)
    ensures v.Obj? ==> r == v.fields.Keys
    ensures v.Num? || v.Bool? || v.Ref? || v.Host? ==> r == {}
  {
    match v
    case Obj(f, _) => f.Keys
    case Arr(e) => IndexNames(|e|)
    case Str(s) => IndexNames(|s|)
    case _ => {}
  }
}
