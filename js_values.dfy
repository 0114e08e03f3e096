/**
 * The JavaScript values the record service inspects once Express has parsed a
 * request: the outcome of `Number(x)`, the tests `n <= 0`, `isNaN` and
 * `Number.isInteger` applied to it, and `String.prototype.trim`.
 */
module JsValues {

  datatype Option<+T> = None | Some(value: T)

  /**
   * The value of `Number(x)`. Floating point is abstracted to exact reals;
   * NaN and the two infinities stay distinct because the service's checks
   * treat them differently.
   */
  datatype Num = NaN | Infinity(negative: bool) | Finite(value: real)

  predicate IsNaN(n: Num) {
    n.NaN?
  }

  /** JavaScript's `n <= 0`: every comparison with NaN is false. */
  predicate AtMostZero(n: Num) {
    match n
    case NaN => false
    case Infinity(negative) => negative
    case Finite(v) => v <= 0.0
  }

  /** `Number.isInteger(n)`: finite and without a fractional part. */
  predicate IsInteger(n: Num) {
    n.Finite? && n.value == n.value.Floor as real
  }

  /** A number strictly greater than zero (so in particular not NaN). */
  predicate Positive(n: Num) {
    (n.Finite? && n.value > 0.0) || n == Infinity(false)
  }

  /** The two tests the service applies to `price` and `liters` reject exactly the non-positive numbers. */
  lemma RejectedIffNotPositive(n: Num)
    ensures AtMostZero(n) || IsNaN(n) <==> !Positive(n)
  {
    match n
    case NaN =>
    case Infinity(negative) =>
    case Finite(v) =>
  }

  /** The characters `trim` removes: ECMAScript WhiteSpace and LineTerminator. */
  predicate IsSpace(c: char) {
    var n := c as int;
    n == 0x09 || n == 0x0A || n == 0x0B || n == 0x0C || n == 0x0D || n == 0x20
    || n == 0xA0 || n == 0x1680 || (0x2000 <= n <= 0x200A) || n == 0x2028
    || n == 0x2029 || n == 0x202F || n == 0x205F || n == 0x3000 || n == 0xFEFF
  }

  /** A string with at least one character that `trim` keeps. */
  predicate NonBlank(s: string) {
    exists i :: 0 <= i < |s| && !IsSpace(s[i])
  }

  /** Neither the first nor the last character of `s` is white space. */
  predicate Unpadded(s: string) {
    s == [] || (!IsSpace(s[0]) && !IsSpace(s[|s| - 1]))
  }

  /** The number of white-space characters `s` starts with. */
  function LeadingSpaces(s: string): (n: nat)
    ensures n <= |s| && (n == |s| || !IsSpace(s[n]))
    ensures forall k :: 0 <= k < n ==> IsSpace(s[k])
  {
    if s == [] || !IsSpace(s[0]) then 0 else 1 + LeadingSpaces(s[1..])
  }

  /** The number of white-space characters `s` ends with. */
  function TrailingSpaces(s: string): (n: nat)
    ensures n <= |s| && (n == |s| || !IsSpace(s[|s| - n - 1]))
    ensures forall k :: |s| - n <= k < |s| ==> IsSpace(s[k])
  {
    if s == [] || !IsSpace(s[|s| - 1]) then 0 else 1 + TrailingSpaces(s[..|s| - 1])
  }

  /**
   * `String.prototype.trim`: `s` without its leading and trailing white
   * space. What is left neither starts nor ends with white space.
   */
  function Trim(s: string): (r: string)
    ensures |r| <= |s|
    ensures Unpadded(r)
  {
    var i := LeadingSpaces(s);
    var m := TrailingSpaces(s[i..]);
    assert m < |s| - i ==> s[i..][|s| - i - m - 1] == s[|s| - m - 1];
    s[i..|s| - m]
  }

  /**
   * `trim` is determined by what it keeps: whenever `s` is white space,
   * then a part `s[i..j]` that neither starts nor ends with white space, then
   * white space again, `trim` returns that part.
   */
  lemma TrimKeepsCore(s: string, i: nat, j: nat)
    requires i <= j <= |s|
    requires forall k :: 0 <= k < i ==> IsSpace(s[k])
    requires forall k :: j <= k < |s| ==> IsSpace(s[k])
    requires i < j ==> !IsSpace(s[i]) && !IsSpace(s[j - 1])
    ensures Trim(s) == s[i..j]
  {
    var n := LeadingSpaces(s);
    var t := s[n..];
    var m := TrailingSpaces(t);
    if i < j {
      assert n == i;
      assert t[|t| - (|s| - j) - 1] == s[j - 1];
      assert forall k :: |t| - (|s| - j) <= k < |t| ==> t[k] == s[k + n];
    }
  }

  /** `trim` gives the empty string exactly when `s` holds nothing but white space. */
  lemma TrimBlank(s: string)
    ensures Trim(s) == [] <==> !NonBlank(s)
    ensures Trim(s) != [] ==> NonBlank(Trim(s))
  {
    var i := LeadingSpaces(s);
    if Trim(s) != [] {
      assert Trim(s)[0] == s[i];
    }
  }

  /** Trimming twice is trimming once: the service stores a value `trim` leaves alone. */
  lemma TrimIdempotent(s: string)
    ensures Trim(Trim(s)) == Trim(s)
  {
    var r := Trim(s);
    TrimKeepsCore(r, 0, |r|);
  }

  /** A string is its own trim exactly when it has no white space at either end. */
  lemma TrimUnspaced(s: string)
    ensures Trim(s) == s <==> Unpadded(s)
  {
    if Unpadded(s) {
      TrimKeepsCore(s, 0, |s|);
    }
  }
}
