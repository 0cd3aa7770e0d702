/** The string operations the handlers call: `toLowerCase`, `trim`, `includes` and the decimal
    form of an integer that `toString` gives. Strings are sequences of Unicode code points. */
module Text {

  /** `toLowerCase` on one character, for the ASCII and Latin-1 capitals (A-Z and U+00C0-U+00DE
      except the multiplication sign U+00D7); every other character is kept. */
  function LowerChar(c: char): char {
    if 'A' <= c <= 'Z' || ('\U{C0}' <= c <= '\U{DE}' && c != '\U{D7}') then (c as int + 32) as char else c
  }

  function ToLower(s: string): (r: string)
    ensures |r| == |s|
    ensures forall i :: 0 <= i < |s| ==> r[i] == LowerChar(s[i])
  {
    seq(|s|, i requires 0 <= i < |s| => LowerChar(s[i]))
  }

  /** Lower-casing a lower-cased string changes nothing. */
  lemma ToLowerIdempotent(s: string)
    ensures ToLower(ToLower(s)) == ToLower(s)
  {
    assert forall i :: 0 <= i < |s| ==> LowerChar(LowerChar(s[i])) == LowerChar(s[i]);
  }

  /** The characters `trim` removes: ECMAScript's WhiteSpace and LineTerminator code points. */
  predicate IsWhite(c: char) {
    c == '\t' || c == '\n' || c == '\U{0B}' || c == '\U{0C}' || c == '\r' || c == ' ' ||
    c == '\U{A0}' || c == '\U{1680}' || ('\U{2000}' <= c <= '\U{200A}') ||
    c == '\U{2028}' || c == '\U{2029}' || c == '\U{202F}' || c == '\U{205F}' ||
    c == '\U{3000}' || c == '\U{FEFF}'
  }

  /** Drops the leading white space: the result is a suffix of `s` that starts with a non-white
      character, and everything before it is white. */
  function TrimStart(s: string): (r: string)
    ensures |r| <= |s| && r == s[|s| - |r|..]
    ensures forall i :: 0 <= i < |s| - |r| ==> IsWhite(s[i])
    ensures r != [] ==> !IsWhite(r[0])
  {
    if s != [] && IsWhite(s[0]) then TrimStart(s[1..]) else s
  }

  /** Drops the trailing white space: the result is a prefix of `s` that ends with a non-white
      character, and everything after it is white. */
  function TrimEnd(s: string): (r: string)
    ensures |r| <= |s| && r == s[..|r|]
    ensures forall i :: |r| <= i < |s| ==> IsWhite(s[i])
    ensures r != [] ==> !IsWhite(r[|r| - 1])
  {
    if s != [] && IsWhite(s[|s| - 1]) then TrimEnd(s[..|s| - 1]) else s
  }

  /** `part` stands in `whole` at position `k`. */
  predicate OccursAt(whole: string, part: string, k: nat) {
    k + |part| <= |whole| && whole[k..k + |part|] == part
  }

  /** `s.trim()`: the slice of `s` between its leading and its trailing white space. It is empty
      exactly when every character of `s` is white, and otherwise it starts and ends with a
      non-white character; everything before and after it is white. */
  function Trim(s: string): (r: string)
    ensures r == [] <==> forall i :: 0 <= i < |s| ==> IsWhite(s[i])
    ensures r != [] ==> !IsWhite(r[0]) && !IsWhite(r[|r| - 1])
    ensures exists k: nat ::
              OccursAt(s, r, k) &&
              (forall i :: 0 <= i < k ==> IsWhite(s[i])) &&
              (forall i :: k + |r| <= i < |s| ==> IsWhite(s[i]))
  {
    TrimSlices(s);
    var k: nat := |s| - |TrimStart(s)|;
    assert forall i :: 0 <= i < k ==> IsWhite(s[i]);
    TrimEnd(TrimStart(s))
  }

  lemma TrimSlices(s: string)
    ensures OccursAt(s, TrimEnd(TrimStart(s)), |s| - |TrimStart(s)|)
    ensures TrimEnd(TrimStart(s)) == [] ==> forall i :: 0 <= i < |s| ==> IsWhite(s[i])
    ensures forall i :: |s| - |TrimStart(s)| + |TrimEnd(TrimStart(s))| <= i < |s| ==> IsWhite(s[i])
  {
    TrimOccurs(s);
    TrimEndEmpty(TrimStart(s));
    TrimTrailing(s);
  }

  /** What `trim` drops after the kept slice is white. */
  lemma TrimTrailing(s: string)
    ensures forall i :: |s| - |TrimStart(s)| + |TrimEnd(TrimStart(s))| <= i < |s| ==> IsWhite(s[i])
  {
    var t := TrimStart(s);
    var k := |s| - |t|;
    var r := TrimEnd(t);
    forall i | k + |r| <= i < |s| ensures IsWhite(s[i]) {
      assert s[i] == t[i - k];
    }
  }

  /** What `trim` keeps stands in `s` right after the leading white space. */
  lemma TrimOccurs(s: string)
    ensures OccursAt(s, TrimEnd(TrimStart(s)), |s| - |TrimStart(s)|)
  {
    var t := TrimStart(s);
    var k := |s| - |t|;
    var r := TrimEnd(t);
    SliceOfSuffix(s, k, |r|);
  }

  lemma SliceOfSuffix(s: string, k: nat, n: nat)
    requires k + n <= |s|
    ensures s[k..][..n] == s[k..k + n]
  {
  }

  /** Only an empty string trims at its end to nothing when it starts with a non-white character. */
  lemma TrimEndEmpty(t: string)
    requires t != [] ==> !IsWhite(t[0])
    ensures TrimEnd(t) == [] ==> t == []
  {
  }

  /** Trimming a trimmed string changes nothing. */
  lemma TrimIdempotent(s: string)
    ensures Trim(Trim(s)) == Trim(s)
  {
    var r := Trim(s);
    if r != [] {
      assert TrimStart(r) == r;
      assert TrimEnd(r) == r;
    }
  }

  /** `hay.includes(needle)`: `needle` occurs in `hay` as a contiguous slice. */
  function Contains(hay: string, needle: string): (r: bool)
    ensures r <==> exists k: nat :: OccursAt(hay, needle, k)
    decreases |hay|
  {
    if needle <= hay then
      assert OccursAt(hay, needle, 0);
      true
    else if hay == [] then
      false
    else
      var r := Contains(hay[1..], needle);
      assert forall k: nat :: OccursAt(hay, needle, k + 1) <==> OccursAt(hay[1..], needle, k) by {
        forall k: nat ensures OccursAt(hay, needle, k + 1) <==> OccursAt(hay[1..], needle, k) {
          if k + 1 + |needle| <= |hay| {
            assert hay[k + 1..k + 1 + |needle|] == hay[1..][k..k + |needle|];
          }
        }
      }
      assert !OccursAt(hay, needle, 0);
      assert (exists k: nat :: OccursAt(hay, needle, k)) ==> exists k: nat :: OccursAt(hay[1..], needle, k) by {
        if exists k: nat :: OccursAt(hay, needle, k) {
          var k: nat :| OccursAt(hay, needle, k);
          assert k > 0;
          assert OccursAt(hay[1..], needle, k - 1);
        }
      }
      r
  }

  function DigitChar(d: int): char
    requires 0 <= d < 10
  {
    "0123456789"[d]
  }

  function DigitValue(c: char): int {
    c as int - '0' as int
  }

  /** The decimal digits of a natural number, most significant first, without leading zeros. */
  function NatText(n: nat): (r: string)
    ensures r != []
    ensures forall i :: 0 <= i < |r| ==> '0' <= r[i] <= '9'
    ensures r[0] == '0' ==> n == 0 && r == "0"
  {
    if n < 10 then [DigitChar(n)] else NatText(n / 10) + [DigitChar(n % 10)]
  }

  /** `String(n)` for an integer: its decimal form, with a minus sign when negative. */
  function IntText(n: int): (r: string)
    ensures r != []
    ensures (r[0] == '-') == (n < 0)
    ensures n >= 0 ==> ParseDigits(r) == n
    ensures n < 0 ==> ParseDigits(r[1..]) == -n
    ensures |r| > (if n < 0 then 1 else 0)
    ensures forall i :: (if n < 0 then 1 else 0) <= i < |r| ==> '0' <= r[i] <= '9'
    ensures r[if n < 0 then 1 else 0] == '0' ==> n == 0
  {
    if n < 0 then
      NatTextRoundTrip(-n);
      var r := "-" + NatText(-n);
      assert r[1..] == NatText(-n);
      r
    else
      NatTextRoundTrip(n);
      NatText(n)
  }

  /** The value of a string of decimal digits: `Number(s)` on such a string. */
  function ParseDigits(s: string): int {
    if s == [] then 0 else 10 * ParseDigits(s[..|s| - 1]) + DigitValue(s[|s| - 1])
  }

  /** Reading back the decimal form gives the number: `Number(String(n)) === n`. */
  lemma {:induction false} NatTextRoundTrip(n: nat)
    ensures ParseDigits(NatText(n)) == n
  {
    if n >= 10 {
      NatTextRoundTrip(n / 10);
      var r := NatText(n);
      assert r[..|r| - 1] == NatText(n / 10);
    }
  }

  /** Distinct numbers have distinct decimal forms. */
  lemma NatTextInjective(m: nat, n: nat)
    requires NatText(m) == NatText(n)
    ensures m == n
  {
    NatTextRoundTrip(m);
    NatTextRoundTrip(n);
  }
}
