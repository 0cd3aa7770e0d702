/** The value coercions of the store's helpers: `Math.round`, `clampRating`, truthiness and
    `toBool`. Numbers are the values `Number(...)` produces, taken as exact reals. */
module Coercion {
  import opened Wrappers
  import opened Text

  /** A JavaScript number: a finite value, NaN, or an infinity. */
  datatype JsNumber = Finite(value: real) | NaN | Infinity(negative: bool)

  /** The JSON values a payload field or a query parameter can carry (`null` and `undefined` are
      the `None` of the surrounding `Option`); `JObject` stands for every array and object. */
  datatype JsValue = JBool(b: bool) | JStr(s: string) | JNum(n: JsNumber) | JObject

  /** `Math.round` on a finite number: the nearest integer, halves rounded up (towards +∞). */
  function Round(x: real): (r: int)
    ensures r as real - 0.5 <= x < r as real + 0.5
  {
    (x + 0.5).Floor
  }

  /** `Math.max(0, Math.min(5, n))` on an integer. */
  function Clamp(n: int): (r: int)
    ensures 0 <= r <= 5
    ensures 0 <= n <= 5 ==> r == n
    ensures n < 0 ==> r == 0
    ensures n > 5 ==> r == 5
  {
    if n < 0 then 0 else if n > 5 then 5 else n
  }

  /** `clampRating(val)` on a value already passed through `Number()`: `None` ("no rating") for a
      missing value or NaN, otherwise the rounded number brought into 0..5 (an infinity clamps to
      the bound on its side). */
  function ClampRating(v: Option<JsNumber>): (r: Option<int>)
    ensures r == None <==> v == None || v == Some(NaN)
    ensures r.Some? ==> 0 <= r.value <= 5
    ensures v.Some? && v.value.Finite? ==> r == Some(Clamp(Round(v.value.value)))
    ensures v == Some(Infinity(true)) ==> r == Some(0)
    ensures v == Some(Infinity(false)) ==> r == Some(5)
  {
    match v
    case None => None
    case Some(NaN) => None
    case Some(Infinity(negative)) => Some(if negative then 0 else 5)
    case Some(Finite(x)) => Some(Clamp(Round(x)))
  }

  /** A whole rating already in 0..5 passes through `clampRating` unchanged. */
  lemma ClampRatingKeepsValidRating(n: int)
    requires 0 <= n <= 5
    ensures ClampRating(Some(Finite(n as real))) == Some(n)
  {
  }

  /** `clampRating` is idempotent: clamping a clamped rating changes nothing. */
  lemma ClampRatingIdempotent(v: Option<JsNumber>)
    ensures var r := ClampRating(v);
      r.Some? ==> ClampRating(Some(Finite(r.value as real))) == r
  {
  }

  /** JavaScript's `Boolean(v)`. */
  predicate Truthy(v: JsValue) {
    match v
    case JBool(b) => b
    case JStr(s) => s != ""
    case JNum(n) => n != NaN && n != Finite(0.0)
    case JObject => true
  }

  /** `toBool(v)`: a boolean is kept, a string is true exactly when it lower-cases to "true", and
      every other value is its truthiness. */
  function ToBool(v: JsValue): (r: bool)
    ensures v.JBool? ==> r == v.b
    ensures v.JStr? ==> (r <==> ToLower(v.s) == "true")
    ensures !v.JBool? && !v.JStr? ==> r == Truthy(v)
  {
    match v
    case JBool(b) => b
    case JStr(s) => ToLower(s) == "true"
    case _ => Truthy(v)
  }

  /** The strings `toBool` accepts are exactly the sixteen spellings of "true" in any mix of
      upper and lower case. */
  lemma {:induction false} ToBoolStrings(s: string)
    ensures ToBool(JStr(s)) <==>
      |s| == 4 && s[0] in "tT" && s[1] in "rR" && s[2] in "uU" && s[3] in "eE"
  {
    if ToBool(JStr(s)) {
      assert |ToLower(s)| == 4;
      assert LowerChar(s[0]) == 't' && LowerChar(s[1]) == 'r';
      assert LowerChar(s[2]) == 'u' && LowerChar(s[3]) == 'e';
    }
    if |s| == 4 && s[0] in "tT" && s[1] in "rR" && s[2] in "uU" && s[3] in "eE" {
      assert ToLower(s) == "true";
    }
  }

  /** A string and its lower-cased form coerce alike. */
  lemma ToBoolIgnoresCase(s: string)
    ensures ToBool(JStr(ToLower(s))) == ToBool(JStr(s))
  {
    ToLowerIdempotent(s);
  }
}
