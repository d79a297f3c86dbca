/** The default group names `"AutoGroup" << k` of NextGroupName. */
module GroupNames {

  /** The character of decimal digit `d`. */
  function DigitChar(d: nat): (c: char)
    requires d < 10
    ensures '0' <= c <= '9'
  {
    ('0' as int + d) as char
  }

  /** The decimal digits of `n`, most significant first, as a stream insertion writes an int. */
  function Decimal(n: nat): (r: string)
    ensures 1 <= |r|
    ensures n >= 10 ==> 2 <= |r|
    ensures forall i :: 0 <= i < |r| ==> '0' <= r[i] <= '9'
  {
    if n < 10 then [DigitChar(n)] else Decimal(n / 10) + [DigitChar(n % 10)]
  }

  /** The name `"AutoGroup" << k`: the prefix, then only decimal digits, at least one. */
  function AutoName(k: nat): (r: string)
    ensures 10 <= |r| && r[..9] == "AutoGroup"
    ensures forall i :: 9 <= i < |r| ==> '0' <= r[i] <= '9'
  {
    "AutoGroup" + Decimal(k)
  }

  /** Different numbers print differently. */
  lemma {:induction false} DecimalInjective(a: nat, b: nat)
    ensures Decimal(a) == Decimal(b) ==> a == b
  {
    if Decimal(a) == Decimal(b) && a >= 10 && b >= 10 {
      var da, db := Decimal(a), Decimal(b);
      assert da[..|da| - 1] == Decimal(a / 10) && db[..|db| - 1] == Decimal(b / 10);
      assert da[|da| - 1] == DigitChar(a % 10) && db[|db| - 1] == DigitChar(b % 10);
      DecimalInjective(a / 10, b / 10);
    }
  }

  /** Different counter values give different default names. */
  lemma AutoNameInjective(a: nat, b: nat)
    ensures AutoName(a) == AutoName(b) ==> a == b
  {
    if AutoName(a) == AutoName(b) {
      assert Decimal(a) == AutoName(a)[9..] && Decimal(b) == AutoName(b)[9..];
      DecimalInjective(a, b);
    }
  }

  /** `10^n`. */
  function Pow10(n: nat): (r: nat)
    ensures 1 <= r
  {
    if n == 0 then 1 else 10 * Pow10(n - 1)
  }

  /** Powers of ten grow with the exponent. */
  lemma {:induction false} Pow10Monotone(a: nat, b: nat)
    requires a <= b
    ensures Pow10(a) <= Pow10(b)
    decreases b
  {
    if a < b {
      Pow10Monotone(a, b - 1);
    }
  }

  /** A number printed in `d` digits is below `10^d`. */
  lemma {:induction false} DecimalBound(n: nat)
    ensures n < Pow10(|Decimal(n)|)
  {
    if n >= 10 {
      DecimalBound(n / 10);
    }
  }

  /** An upper bound on the lengths of a finite set of names. */
  ghost function MaxLength(names: set<string>): (m: nat)
    ensures forall x :: x in names ==> |x| <= m
  {
    if names == {} then 0
    else
      var x :| x in names;
      var rest := MaxLength(names - {x});
      if |x| <= rest then rest else |x|
  }

  /**
   * Only counter values below a bound fixed by the existing names can name an
   * existing group, which is why NextGroupName's search ends.
   */
  lemma AutoNameBound(names: set<string>, k: nat)
    requires AutoName(k) in names
    ensures k < Pow10(MaxLength(names))
  {
    DecimalBound(k);
    Pow10Monotone(|Decimal(k)|, MaxLength(names));
  }
}
