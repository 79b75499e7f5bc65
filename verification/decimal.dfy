/** Decimal printing (`%d`, `strconv.Itoa`, `FormatInt`) and parsing
    (`strconv.Atoi`). */
module Decimal {
  import opened Results
  import opened ByteStrings

  predicate IsDigit(c: char) { '0' <= c <= '9' }

  predicate AllDigits(s: string) { forall c :: c in s ==> IsDigit(c) }

  function Digit(d: nat): (c: char)
    requires d < 10
    ensures IsDigit(c) && DigitValue(c) == d
  {
    ('0' as int + d) as char
  }

  function DigitValue(c: char): (d: nat)
    requires IsDigit(c)
    ensures d < 10
  {
    c as int - '0' as int
  }

  function Dec(n: nat): (s: string)
    ensures s != "" && AllDigits(s)
  {
    if n < 10 then [Digit(n)] else Dec(n / 10) + [Digit(n % 10)]
  }

  function Value(s: string): nat
    requires AllDigits(s)
  {
    if s == "" then 0 else 10 * Value(s[..|s| - 1]) + DigitValue(s[|s| - 1])
  }

  lemma {:induction false} ValueOfDec(n: nat)
    ensures Value(Dec(n)) == n
  {
    if n >= 10 {
      ValueOfDec(n / 10);
      assert Dec(n)[..|Dec(n)| - 1] == Dec(n / 10);
    } else {
      assert Dec(n)[..0] == "";
    }
  }

  lemma DecInjective(m: nat, n: nat)
    requires Dec(m) == Dec(n)
    ensures m == n
  {
    ValueOfDec(m);
    ValueOfDec(n);
  }

  /** A decimal ends at the first character that is not a digit. */
  lemma DecThen(m: nat, x: string, n: nat, y: string, c: char)
    requires !IsDigit(c) && Dec(m) + [c] + x == Dec(n) + [c] + y
    ensures m == n && x == y
  {
    var s := Dec(m) + [c] + x;
    IndexOfPrefix(Dec(m), c, x);
    IndexOfPrefix(Dec(n), c, y);
    assert s[..|Dec(m)|] == Dec(m) && s[..|Dec(n)|] == Dec(n);
    assert s[|Dec(m)| + 1..] == x && s[|Dec(n)| + 1..] == y;
    DecInjective(m, n);
  }

  /** `Dec` prints no leading zero. */
  lemma {:induction false} DecCanonical(n: nat)
    ensures |Dec(n)| > 1 ==> Dec(n)[0] != '0'
  {
    if n >= 10 { DecCanonical(n / 10); }
  }

  /** The text is the decimal of `n`, without leading zeros. */
  predicate Denotes(s: string, n: nat) {
    s != "" && AllDigits(s) && Value(s) == n && (|s| > 1 ==> s[0] != '0')
  }

  lemma DecDenotes(n: nat)
    ensures Denotes(Dec(n), n)
  {
    ValueOfDec(n);
    DecCanonical(n);
  }

  /** On decimals of equal width byte order is numeric order. */
  lemma {:induction false} LexIsNumeric(a: string, b: string)
    requires AllDigits(a) && AllDigits(b) && |a| == |b|
    ensures LexLess(a, b) <==> Value(a) < Value(b)
    ensures Value(a) == Value(b) ==> a == b
  {
    if a != "" {
      var a0, b0 := a[..|a| - 1], b[..|b| - 1];
      var x, y := a[|a| - 1], b[|b| - 1];
      assert a == a0 + [x] && b == b0 + [y];
      LexIsNumeric(a0, b0);
      LexSnoc(a0, b0, x, y);
    }
  }

  /** The widths at which a decimal fits: `|Dec(n)| <= k` iff `n < 10^k`. */
  function Pow10(k: nat): (p: nat)
    ensures p > 0
  {
    if k == 0 then 1 else 10 * Pow10(k - 1)
  }

  lemma {:induction false} DecWidth(n: nat, k: nat)
    requires k > 0
    ensures |Dec(n)| <= k <==> n < Pow10(k)
  {
    if n >= 10 {
      if k == 1 {
        assert Pow10(1) == 10 * Pow10(0);
      } else {
        DecWidth(n / 10, k - 1);
      }
    } else {
      assert Pow10(k) == 10 * Pow10(k - 1);
    }
  }

  // ----- division --------------------------------------------------------

  lemma DivBounds(x: nat, d: nat)
    requires d > 0
    ensures 0 <= x / d * d <= x < (x / d + 1) * d
  {
  }

  lemma MulMono(a: nat, b: nat, c: nat)
    requires a <= b
    ensures a * c <= b * c
  {
  }

  lemma QuotientOf(q: nat, r: nat, d: nat)
    requires r < d
    ensures (q * d + r) / d == q
  {
    var x := q * d + r;
    DivBounds(x, d);
    var p := x / d;
    assert (q + 1) * d == q * d + d;
    if p < q { MulMono(p + 1, q, d); }
    if p > q { MulMono(q + 1, p, d); }
  }

  lemma DivTwice(m: nat, p: nat)
    requires p > 0
    ensures m / 10 / p == m / (10 * p)
  {
    var q, r := m / (10 * p), m % (10 * p);
    assert m == 10 * (q * p) + r;
    assert m / 10 == q * p + r / 10;
    QuotientOf(q, r / 10, p);
  }

  lemma DecSnoc(m: nat)
    ensures m >= 10 ==> Dec(m) == Dec(m / 10) + [Digit(m % 10)]
    ensures m < 10 ==> |Dec(m)| == 1
  {
  }

  /** What is left of a number without its last `d` digits. */
  function Lead(m: nat, d: nat): nat {
    DivBounds(m, Pow10(d));
    m / Pow10(d)
  }

  function DropDigits(m: nat, d: nat): nat {
    if d == 0 then m else DropDigits(m / 10, d - 1)
  }

  lemma {:induction false} DropDigitsDivides(m: nat, d: nat)
    ensures DropDigits(m, d) == Lead(m, d)
    decreases d
  {
    if d > 0 {
      DropDigitsDivides(m / 10, d - 1);
      DivTwice(m, Pow10(d - 1));
    }
  }

  lemma {:induction false} DecPrefix(m: nat, d: nat)
    requires d < |Dec(m)|
    ensures Dec(m)[..|Dec(m)| - d] == Dec(DropDigits(m, d))
    decreases d
  {
    hide Dec;
    if d == 0 {
      assert Dec(m)[..|Dec(m)|] == Dec(m);
    } else {
      DecSnoc(m);
      var front := Dec(m / 10);
      assert Dec(m)[..|Dec(m)| - d] == front[..|front| - (d - 1)];
      DecPrefix(m / 10, d - 1);
    }
  }

  lemma DecLead(m: nat, d: nat)
    requires d < |Dec(m)|
    ensures Dec(m)[..|Dec(m)| - d] == Dec(Lead(m, d))
  {
    hide Dec, Lead, DropDigits;
    DecPrefix(m, d);
    DropDigitsDivides(m, d);
  }

  const MaxInt64: int := 0x7fff_ffff_ffff_ffff

  /** `strconv.Atoi` on a 64-bit host: an optional sign, then digits, in range. */
  function Atoi(s: string): (r: Option<int>)
  {
    var signed := s != "" && (s[0] == '-' || s[0] == '+');
    var digits := if signed then s[1..] else s;
    if digits == "" || !AllDigits(digits) then None
    else
      var v: int := Value(digits);
      if signed && s[0] == '-' then (if v <= MaxInt64 + 1 then Some(-v) else None)
      else (if v <= MaxInt64 then Some(v) else None)
  }

  lemma AtoiOfDec(n: nat)
    requires n <= MaxInt64
    ensures Atoi(Dec(n)) == Some(n)
  {
    ValueOfDec(n);
    assert Dec(n)[0] in Dec(n);
  }
}
