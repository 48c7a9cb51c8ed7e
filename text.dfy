/**
 * Strings as the presenter sees them: the order JavaScript's default `sort()`
 * puts keys in, decimal digit strings, and the `/^Aisle \d+$/` pattern with the
 * number `parseInt` reads out of it.
 */
module Text {
  import opened Wrappers

  /** Lexicographic order on strings, character by character; a proper prefix comes first. */
  predicate TextLess(a: string, b: string)
    decreases |a|
  {
    if |a| == 0 then |b| > 0
    else if |b| == 0 then false
    else if a[0] != b[0] then a[0] < b[0]
    else TextLess(a[1..], b[1..])
  }

  lemma {:induction false} TextLessIrreflexive(a: string)
    ensures !TextLess(a, a)
    decreases |a|
  {
    if |a| > 0 {
      TextLessIrreflexive(a[1..]);
    }
  }

  lemma {:induction false} TextLessAsymmetric(a: string, b: string)
    ensures TextLess(a, b) ==> !TextLess(b, a)
    decreases |a|
  {
    if |a| > 0 && |b| > 0 && a[0] == b[0] {
      TextLessAsymmetric(a[1..], b[1..]);
    }
  }

  lemma {:induction false} TextLessTransitive(a: string, b: string, c: string)
    requires TextLess(a, b) && TextLess(b, c)
    ensures TextLess(a, c)
    decreases |a|
  {
    if |a| > 0 && a[0] == b[0] && b[0] == c[0] {
      TextLessTransitive(a[1..], b[1..], c[1..]);
    }
  }

  /** Any two different strings are ordered one way or the other. */
  lemma {:induction false} TextLessTotal(a: string, b: string)
    requires a != b
    ensures TextLess(a, b) || TextLess(b, a)
    decreases |a|
  {
    if |a| > 0 && |b| > 0 && a[0] == b[0] {
      assert a == [a[0]] + a[1..] && b == [b[0]] + b[1..];
      TextLessTotal(a[1..], b[1..]);
    }
  }

  /** The ASCII digits, which is what `\d` matches in a JavaScript pattern without the `u` flag. */
  predicate IsDigit(c: char) {
    '0' <= c <= '9'
  }

  predicate AllDigits(s: string) {
    forall i :: 0 <= i < |s| ==> IsDigit(s[i])
  }

  function DigitValue(c: char): (d: nat)
    requires IsDigit(c)
    ensures d < 10
  {
    c as int - '0' as int
  }

  function DigitChar(d: nat): (c: char)
    requires d < 10
    ensures IsDigit(c) && DigitValue(c) == d
  {
    ('0' as int + d) as char
  }

  /** The number a base-10 digit string denotes (leading zeros allowed), as `parseInt(s, 10)`. */
  function DigitsValue(s: string): nat
    requires AllDigits(s)
    decreases |s|
  {
    if s == [] then 0 else DigitsValue(s[..|s| - 1]) * 10 + DigitValue(s[|s| - 1])
  }

  /** The canonical decimal text of a number, as JavaScript writes a numeric property key. */
  function Decimal(n: nat): (s: string)
    ensures |s| > 0 && AllDigits(s)
    decreases n
  {
    if n < 10 then [DigitChar(n)] else Decimal(n / 10) + [DigitChar(n % 10)]
  }

  lemma {:induction false} DecimalRoundTrip(n: nat)
    ensures DigitsValue(Decimal(n)) == n
    decreases n
  {
    var s := Decimal(n);
    if n >= 10 {
      DecimalRoundTrip(n / 10);
      assert s[..|s| - 1] == Decimal(n / 10);
    }
  }

  /** Canonical decimals are unique: no two numbers share one. */
  lemma DecimalInjective(m: nat, n: nat)
    requires Decimal(m) == Decimal(n)
    ensures m == n
  {
    DecimalRoundTrip(m);
    DecimalRoundTrip(n);
  }

  const AislePrefix: string := "Aisle "

  /**
   * The number of an aisle string matching `/^Aisle \d+$/`, read as `parseInt` reads
   * the first digit run (the prefix holds no digit, so that run is everything after
   * it); `None` for every other string, the empty string included.
   */
  function AisleNumber(s: string): (r: Option<nat>)
    ensures r.Some? <==> |s| > |AislePrefix| && s[..|AislePrefix|] == AislePrefix && AllDigits(s[|AislePrefix|..])
  {
    if |s| > |AislePrefix| && s[..|AislePrefix|] == AislePrefix && AllDigits(s[|AislePrefix|..])
    then Some(DigitsValue(s[|AislePrefix|..]))
    else None
  }

  /** The label a numeric aisle bucket is shown under, `Aisle ${key}`. */
  function AisleLabel(n: nat): string {
    AislePrefix + Decimal(n)
  }

  /** A numeric label parses back to its own number. */
  lemma AisleLabelRoundTrip(n: nat)
    ensures AisleNumber(AisleLabel(n)) == Some(n)
  {
    var s := AisleLabel(n);
    assert s[..|AislePrefix|] == AislePrefix;
    assert s[|AislePrefix|..] == Decimal(n);
    DecimalRoundTrip(n);
  }

  /** Leading zeros do not matter: "Aisle 07" and "Aisle 7" are the same aisle. */
  lemma LeadingZeroSameAisle()
    ensures AisleNumber("Aisle 07") == AisleNumber("Aisle 7") == Some(7)
  {
    assert "Aisle 07"[..6] == AislePrefix && "Aisle 07"[6..] == "07";
    assert "Aisle 7"[..6] == AislePrefix && "Aisle 7"[6..] == "7";
    assert "07"[..1] == "0" && "0"[..0] == "" && "7"[..0] == "";
    assert DigitsValue("0") == 0;
    assert DigitsValue("07") == 7;
    assert DigitsValue("7") == 7;
  }
}
