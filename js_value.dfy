/** The JavaScript values that JSON text can denote, and the two JavaScript
    conversions the page and the server apply to them: truthiness (`x || y`)
    and string conversion (`${x}` in a template literal). */
module JsValue {
  import opened Wrappers

  /** A value `JSON.parse` can return. Numbers are modelled as integers. */
  datatype Value =
    | Null
    | Bool(b: bool)
    | Number(n: int)
    | Str(s: string)
    | Array(items: seq<Value>)
    | Object(fields: map<string, Value>)

  /** JavaScript truthiness: `null`, `false`, `0` and `""` are falsy. */
  predicate Truthy(v: Value) {
    match v
    case Null => false
    case Bool(b) => b
    case Number(n) => n != 0
    case Str(s) => s != ""
    case Array(_) => true
    case Object(_) => true
  }

  function DigitChar(d: nat): (c: char)
    requires d < 10
    ensures '0' <= c <= '9' && c as int - '0' as int == d
  {
    ['0', '1', '2', '3', '4', '5', '6', '7', '8', '9'][d]
  }

  /** The decimal digits of `n`, most significant first, with no leading zero. */
  function NatToDecimal(n: nat): (r: string)
    ensures |r| > 0 && (forall i :: 0 <= i < |r| ==> '0' <= r[i] <= '9')
    ensures |r| > 1 ==> r[0] != '0'
    decreases n
  {
    if n < 10 then [DigitChar(n)] else NatToDecimal(n / 10) + [DigitChar(n % 10)]
  }

  /** The number a string of decimal digits denotes. */
  function DecimalValue(r: string): nat
    requires forall i :: 0 <= i < |r| ==> '0' <= r[i] <= '9'
    decreases |r|
  {
    if r == [] then 0 else DecimalValue(r[..|r| - 1]) * 10 + (r[|r| - 1] as int - '0' as int)
  }

  /** The decimal form reads back as the number it was written from. */
  lemma {:induction false} NatToDecimalRoundTrip(n: nat)
    ensures DecimalValue(NatToDecimal(n)) == n
    decreases n
  {
    var r := NatToDecimal(n);
    if n >= 10 {
      NatToDecimalRoundTrip(n / 10);
      assert r[..|r| - 1] == NatToDecimal(n / 10);
    }
  }

  function IntToDecimal(n: int): string {
    if n < 0 then "-" + NatToDecimal(-n) else NatToDecimal(n)
  }

  /** `parts.join(",")`. */
  function JoinWithCommas(parts: seq<string>): string
    decreases |parts|
  {
    if |parts| == 0 then ""
    else if |parts| == 1 then parts[0]
    else parts[0] + "," + JoinWithCommas(parts[1..])
  }

  /** `String(v)`: what `${v}` inserts into a template literal, or `None`
      where the conversion throws. An array becomes its elements joined by
      commas, with `null` elements left empty; an object without a
      `toString` key becomes "[object Object]". An object with its own
      `toString` key cannot be converted: that key is data, not a method,
      and the inherited `valueOf` returns the object itself, so the
      conversion throws a TypeError; inside an array the throw comes out of
      the array's `join`. */
  function ToString(v: Value): (r: Option<string>)
    ensures v.Str? ==> r == Some(v.s)
    decreases v
  {
    match v
    case Null => Some("null")
    case Bool(b) => Some(if b then "true" else "false")
    case Number(n) => Some(IntToDecimal(n))
    case Str(s) => Some(s)
    case Array(items) =>
      if exists i :: 0 <= i < |items| && ToString(items[i]).None? then None
      else
        Some(JoinWithCommas(seq(|items|, i requires 0 <= i < |items| =>
          if items[i].Null? then "" else ToString(items[i]).value)))
    case Object(fields) => if "toString" in fields then None else Some("[object Object]")
  }

  /** The values whose conversion to a string throws: an object with its own
      `toString` key, or an array holding such a value at any depth. */
  predicate HoldsToStringKey(v: Value)
    decreases v
  {
    match v
    case Object(fields) => "toString" in fields
    case Array(items) => exists i :: 0 <= i < |items| && HoldsToStringKey(items[i])
    case _ => false
  }

  /** Converting a value to a string throws exactly when the value holds an
      object with its own `toString` key. */
  lemma {:induction false} ToStringThrowsIff(v: Value)
    ensures ToString(v).None? <==> HoldsToStringKey(v)
    decreases v
  {
    match v
    case Array(items) =>
      forall i | 0 <= i < |items| ensures ToString(items[i]).None? <==> HoldsToStringKey(items[i]) {
        ToStringThrowsIff(items[i]);
      }
    case _ =>
  }
}
