/**
 * JSON-like JavaScript values as the package descriptor, the registry documents and the
 * npmrc configuration deliver them, with the ways the source inspects them: truthiness,
 * `typeof`, property reads and `for (p in v)` enumeration.
 */
module Json {
  import opened Wrappers
  import opened JsNumber

  /**
   * Numbers are integral in this model. An object lists its property names in
   * enumeration order (`keys`) next to the property values (`props`).
   */
  datatype Json =
    | JNull
    | JBool(b: bool)
    | JNum(n: int)
    | JStr(s: string)
    | JArr(items: seq<Json>)
    | JObj(keys: seq<string>, props: map<string, Json>)

  /** `!!v` */
  predicate Truthy(j: Json) {
    match j
    case JNull => false
    case JBool(b) => b
    case JNum(n) => n != 0
    case JStr(s) => s != ""
    case _ => true
  }

  /** `!!v` for a value that may be `undefined` (`None`). */
  predicate TruthyOpt(v: Option<Json>) {
    v.Some? && Truthy(v.value)
  }

  /** `typeof v == 'object'`, which includes arrays and `null`. */
  predicate IsObjectType(j: Json) {
    j.JNull? || j.JArr? || j.JObj?
  }

  /** The property names `0`, `1`, … of the first `n` elements of an array. */
  function Indices(n: nat): (r: seq<string>)
    ensures |r| == n && forall i :: 0 <= i < n ==> r[i] == Decimal(i)
  {
    if n == 0 then [] else Indices(n - 1) + [Decimal(n - 1)]
  }

  /** `for…in` over an array visits each property name once: distinct indices have distinct numerals. */
  lemma IndicesDistinct(n: nat)
    ensures forall i, j :: 0 <= i < j < n ==> Indices(n)[i] != Indices(n)[j]
  {
    forall i, j | 0 <= i < j < n
      ensures Indices(n)[i] != Indices(n)[j]
    {
      DecimalInjective(i, j);
    }
  }

  /** The element index a property name denotes: a decimal numeral without leading zeros. */
  function ArrayIndex(k: string): (r: Option<nat>)
    ensures r.Some? ==> k == Decimal(r.value)
  {
    if |k| > 0 && AllDigits(k) && (|k| == 1 || k[0] != '0') then
      DecimalOfDigits(k);
      Some(DigitsValue(k))
    else None
  }

  /** Every index is named by its numeral and by nothing else. */
  lemma ArrayIndexOfDecimal(i: nat)
    ensures ArrayIndex(Decimal(i)) == Some(i)
  {
    DecimalValue(i);
  }

  /** `v[k]` on a value that is not `null` or `undefined`; `None` is `undefined`. */
  function Get(j: Json, k: string): (r: Option<Json>)
    ensures j.JObj? ==> (r.Some? <==> k in j.props)
    ensures j.JObj? && k in j.props ==> r == Some(j.props[k])
    ensures j.JArr? && r.Some? ==> exists i :: 0 <= i < |j.items| && k == Decimal(i) && r.value == j.items[i]
    ensures j.JNull? || j.JBool? || j.JNum? ==> r.None?
  {
    match j
    case JObj(_, props) => if k in props then Some(props[k]) else None
    case JArr(items) =>
      var i := ArrayIndex(k);
      if i.Some? && i.value < |items| then Some(items[i.value]) else None
    case JStr(s) =>
      var i := ArrayIndex(k);
      if i.Some? && i.value < |s| then Some(JStr([s[i.value]])) else None
    case _ => None
  }

  /** The element at index `i` is the property named by the numeral of `i`. */
  lemma GetIndex(items: seq<Json>, i: nat)
    requires i < |items|
    ensures Get(JArr(items), Decimal(i)) == Some(items[i])
  {
    ArrayIndexOfDecimal(i);
  }

  /**
   * `v[p]` for a property name `p` that `for (p in v)` produced: `Get` always finds it in a
   * well-formed value, and `null` stands in for the value of a name an object lists
   * without holding it.
   */
  function Prop(j: Json, k: string): (r: Json)
    ensures Get(j, k).Some? ==> r == Get(j, k).value
  {
    match Get(j, k)
    case Some(v) => v
    case None => JNull
  }

  /**
   * The property names `for (p in v)` visits, in order: an object's own properties, the
   * indices of an array or of a string, nothing for the other primitives and `null`.
   */
  function ForInKeys(j: Json): (r: seq<string>)
    ensures j.JObj? ==> r == j.keys
    ensures j.JArr? ==> r == Indices(|j.items|)
    ensures j.JStr? ==> r == Indices(|j.s|)
    ensures j.JNull? || j.JBool? || j.JNum? ==> r == []
  {
    match j
    case JObj(keys, _) => keys
    case JArr(items) => Indices(|items|)
    case JStr(s) => Indices(|s|)
    case _ => []
  }

  /** The object `{}`. */
  function EmptyObject(): (r: Json)
    ensures r.JObj? && r.keys == [] && r.props == map[]
  {
    JObj([], map[])
  }

  /** `o[k] = v` on an object: a new name goes to the end of the enumeration order. */
  function Put(o: Json, k: string, v: Json): (r: Json)
    requires o.JObj?
    ensures r.JObj? && r.props == o.props[k := v]
    ensures r.keys == if k in o.keys then o.keys else o.keys + [k]
  {
    JObj(if k in o.keys then o.keys else o.keys + [k], o.props[k := v])
  }

  /** `delete o[k]` on an object. */
  function Delete(o: Json, k: string): (r: Json)
    requires o.JObj?
    ensures r.JObj? && r.props == o.props - {k}
    ensures forall x :: x in r.keys <==> x in o.keys && x != k
  {
    JObj(Remove(o.keys, k), o.props - {k})
  }

  function Remove(ks: seq<string>, k: string): (r: seq<string>)
    ensures forall x :: x in r <==> x in ks && x != k
    ensures |r| <= |ks|
  {
    if |ks| == 0 then []
    else if ks[0] == k then Remove(ks[1..], k)
    else [ks[0]] + Remove(ks[1..], k)
  }

  /** An object whose enumeration order lists each property exactly once, at every depth. */
  ghost predicate WellFormed(j: Json) {
    match j
    case JArr(items) => forall i :: 0 <= i < |items| ==> WellFormed(items[i])
    case JObj(keys, props) =>
      && (forall i, k :: 0 <= i < k < |keys| ==> keys[i] != keys[k])
      && (forall x :: x in keys <==> x in props)
      && (forall x :: x in props ==> WellFormed(props[x]))
    case _ => true
  }

  /** `String(v)`, the text a template literal makes of a value. */
  function Text(j: Json): (r: string)
    ensures j.JStr? ==> r == j.s
    decreases j
  {
    match j
    case JNull => "null"
    case JBool(b) => if b then "true" else "false"
    case JNum(n) => NumberToString(n)
    case JStr(s) => s
    case JArr(items) => JoinedText(items)
    case JObj(_, _) => "[object Object]"
  }

  /** `items.join(',')`, in which `null` elements are empty. */
  function JoinedText(items: seq<Json>): (r: string)
    decreases items
  {
    if |items| == 0 then ""
    else
      var first := if items[0].JNull? then "" else Text(items[0]);
      if |items| == 1 then first else first + "," + JoinedText(items[1..])
  }
}
