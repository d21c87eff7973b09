/** Small helpers shared by the model: an optional value (Java's nullable
    String) and Java's decimal rendering of a non-negative int. */
module Common {

  datatype Option<T> = None | Some(value: T)

  /** The text Java's string concatenation produces for a possibly-null String. */
  function Text(s: Option<string>): string {
    match s
    case None => "null"
    case Some(t) => t
  }

  function DigitChar(n: nat): (c: char)
    requires n < 10
  {
    ('0' as int + n) as char
  }

  /** Decimal text of a non-negative int, as `"" + n` gives in Java. */
  function NatToString(n: nat): (s: string)
    ensures |s| >= 1
    ensures forall i :: 0 <= i < |s| ==> '0' <= s[i] <= '9'
    ensures n >= 10 <==> |s| >= 2
    decreases n
  {
    if n < 10 then [DigitChar(n)] else NatToString(n / 10) + [DigitChar(n % 10)]
  }

  /** Distinct numbers are written differently: "Week 3" never collides with "Week 13". */
  lemma {:induction false} NatToStringInjective(m: nat, n: nat)
    requires NatToString(m) == NatToString(n)
    ensures m == n
    decreases m
  {
    if m < 10 && n < 10 {
      assert DigitChar(m) == NatToString(m)[0] == NatToString(n)[0] == DigitChar(n);
    } else if m >= 10 && n >= 10 {
      var sm, sn := NatToString(m), NatToString(n);
      assert sm[..|sm| - 1] == NatToString(m / 10);
      assert sn[..|sn| - 1] == NatToString(n / 10);
      NatToStringInjective(m / 10, n / 10);
      assert DigitChar(m % 10) == sm[|sm| - 1] == sn[|sn| - 1] == DigitChar(n % 10);
      assert m == m / 10 * 10 + m % 10 && n == n / 10 * 10 + n % 10;
    }
  }

  /** Two labels "P" + n and "P" + m with the same prefix are equal only when n == m. */
  lemma LabelsDistinct(prefix: string, m: nat, n: nat)
    requires m != n
    ensures prefix + NatToString(m) != prefix + NatToString(n)
  {
    if prefix + NatToString(m) == prefix + NatToString(n) {
      assert NatToString(m) == (prefix + NatToString(m))[|prefix|..];
      assert NatToString(n) == (prefix + NatToString(n))[|prefix|..];
      NatToStringInjective(m, n);
    }
  }

  predicate Distinct<T(==)>(s: seq<T>) {
    forall i, j :: 0 <= i < j < |s| ==> s[i] != s[j]
  }
}
