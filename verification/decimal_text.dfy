/** Decimal text: values, printing and padding. */
module DecimalText {

  predicate IsDigit(c: char) {
    '0' <= c <= '9'
  }

  predicate AllDigits(s: string) {
    forall i :: 0 <= i < |s| ==> IsDigit(s[i])
  }

  function DigitValue(c: char): (d: nat)
    requires IsDigit(c)
    ensures d < 10
  {
    c as int - '0' as int
  }

  function DigitChar(d: nat): (c: char)
    requires d < 10
    ensures IsDigit(c) && DigitValue(c) == d
  {
    ('0' as int + d) as char
  }

  /** Each digit is worth its place in the row of ten. */
  lemma {:induction false} DigitsInOrder(d: nat)
    requires d < 10
    ensures DigitValue("0123456789"[d]) == d && DigitChar(d) == "0123456789"[d]
  {
  }

  /** The number a run of digits spells. */
  function ValueOf(s: string): nat
    requires AllDigits(s)
  {
    if s == [] then 0 else 10 * ValueOf(s[..|s| - 1]) + DigitValue(s[|s| - 1])
  }

  function Pow10(n: nat): (p: nat)
    ensures p > 0
  {
    if n == 0 then 1 else 10 * Pow10(n - 1)
  }

  /** `String(n)`. */
  function Show(n: nat): (s: string)
    ensures s != [] && AllDigits(s) && ValueOf(s) == n
  {
    if n < 10 then
      assert [DigitChar(n)][..0] == [];
      [DigitChar(n)]
    else
      var s := Show(n / 10) + [DigitChar(n % 10)];
      assert s[..|s| - 1] == Show(n / 10);
      s
  }

  function Zeros(n: int): (s: string)
    ensures |s| == (if n < 0 then 0 else n) && forall i :: 0 <= i < |s| ==> s[i] == '0'
  {
    if n <= 0 then [] else Zeros(n - 1) + ['0']
  }

  function PadStart(s: string, width: nat): string {
    Zeros(width - |s|) + s
  }

  function PadEnd(s: string, width: nat): string {
    s + Zeros(width - |s|)
  }

  /** The last `d` digits of `n`, leading zeros included. */
  function LowDigits(n: nat, d: nat): (s: string)
    ensures |s| == d && AllDigits(s)
  {
    if d == 0 then [] else LowDigits(n / 10, d - 1) + [DigitChar(n % 10)]
  }

  lemma {:induction false} DivisionIs(n: int, k: int, q: int, r: int)
    requires k > 0 && n == k * q + r && 0 <= r < k
    ensures n / k == q && n % k == r
  {
    var d := n / k - q;
    assert k * d == r - n % k by {
      assert n == k * (n / k) + n % k;
      assert k * (n / k) - k * q == k * d;
    }
    if d >= 1 {
      TimesAtLeast(k, d, 1);
    } else if d <= -1 {
      TimesAtLeast(k, -1, d);
    }
  }

  lemma {:induction false} TimesAtLeast(k: int, a: int, b: int)
    requires k > 0 && a >= b
    ensures k * a >= k * b
  {
    assert k * (a - b) >= 0;
  }

  /** Dropping `d` digits drops one, then the rest. */
  lemma {:induction false} DropOneFirst(n: nat, d: nat)
    requires d > 0
    ensures (n / 10) / Pow10(d - 1) == n / Pow10(d)
    ensures n % Pow10(d) == 10 * ((n / 10) % Pow10(d - 1)) + n % 10
  {
    var p, m := Pow10(d - 1), n / 10;
    var q, r := m / p, m % p;
    assert m == p * q + r;
    assert n == 10 * m + n % 10;
    assert n == 10 * (p * q) + 10 * r + n % 10;
    assert 10 * (p * q) == (10 * p) * q;
    DivisionIs(n, 10 * p, q, 10 * r + n % 10);
  }

  lemma {:induction false} PadStartSnoc(s: string, c: char, width: nat)
    ensures PadStart(s + [c], width + 1) == PadStart(s, width) + [c]
  {
  }

  lemma {:induction false} PadShowStep(n: nat, d: nat)
    requires d > 0
    ensures PadStart(Show(n), d + 1) == PadStart(Show(n / 10), d) + [DigitChar(n % 10)]
  {
    if n < 10 {
      assert Show(n / 10) == "0" && Show(n) == [] + [DigitChar(n)];
      PadStartSnoc([], DigitChar(n), d);
      assert PadStart([], d) == PadStart("0", d);
    } else {
      PadStartSnoc(Show(n / 10), DigitChar(n % 10), d);
    }
  }

  function DropDigits(n: nat, d: nat): nat {
    if d == 0 then n else DropDigits(n / 10, d - 1)
  }

  lemma {:induction false} DroppingDivides(n: nat, d: nat)
    ensures DropDigits(n, d) == n / Pow10(d)
  {
    if d == 0 {
      DivisionIs(n, 1, n, 0);
    } else {
      DroppingDivides(n / 10, d - 1);
      DropOneFirst(n, d);
    }
  }

  lemma {:induction false} HeadAndTail(n: nat, d: nat)
    ensures PadStart(Show(n), d + 1) == Show(DropDigits(n, d)) + LowDigits(n, d)
  {
    if d > 0 {
      HeadAndTail(n / 10, d - 1);
      PadShowStep(n, d);
    }
  }

  /** A number of at most `d` digits, padded, is its last `d` digits. */
  lemma {:induction false} SmallDigits(r: nat, d: nat)
    requires d > 0 && r < Pow10(d)
    ensures PadStart(Show(r), d) == LowDigits(r, d)
  {
    HeadAndTail(r, d);
    SmallDropsToZero(r, d);
    ShowFits(r, d);
    ZerosStep(d - |Show(r)|);
    assert PadStart(Show(r), d + 1) == "0" + LowDigits(r, d);
    assert PadStart(Show(r), d + 1) == ['0'] + PadStart(Show(r), d);
    assert PadStart(Show(r), d + 1)[1..] == LowDigits(r, d);
  }

  lemma {:induction false} SmallDropsToZero(n: nat, d: nat)
    requires n < Pow10(d)
    ensures DropDigits(n, d) == 0
  {
    if d > 0 {
      SmallDropsToZero(n / 10, d - 1);
    }
  }

  /** The padded remainder is the last `d` digits. */
  lemma {:induction false} RemainderDigits(n: nat, d: nat)
    requires d > 0
    ensures PadStart(Show(n % Pow10(d)), d) == LowDigits(n, d)
  {
    SmallDigits(n % Pow10(d), d);
    LowDigitsOfRemainder(n, d);
  }

  lemma {:induction false} ZerosStep(k: nat)
    ensures Zeros(k + 1) == ['0'] + Zeros(k)
  {
    assert |Zeros(k + 1)| == |['0'] + Zeros(k)|;
  }

  lemma {:induction false} ShowFits(n: nat, d: nat)
    requires d > 0 && n < Pow10(d)
    ensures |Show(n)| <= d
  {
    if d == 1 {
      assert Pow10(1) == 10 * Pow10(0);
    } else if n >= 10 {
      ShowFits(n / 10, d - 1);
    }
  }

  lemma {:induction false} LowDigitsOfRemainder(n: nat, d: nat)
    ensures LowDigits(n % Pow10(d), d) == LowDigits(n, d)
  {
    if d > 0 {
      DropOneFirst(n, d);
      var r := n % Pow10(d);
      assert r / 10 == (n / 10) % Pow10(d - 1) && r % 10 == n % 10;
      LowDigitsOfRemainder(n / 10, d - 1);
    }
  }

  lemma {:induction false} TimesTen(x: nat, p: nat, y: nat)
    ensures 10 * (x * p + y) == x * (10 * p) + 10 * y
  {
  }

  lemma {:induction false} ValueSplits(a: string, b: string)
    requires AllDigits(a) && AllDigits(b)
    ensures AllDigits(a + b) && ValueOf(a + b) == ValueOf(a) * Pow10(|b|) + ValueOf(b)
  {
    if b == [] {
      assert a + b == a;
    } else {
      var init, last := b[..|b| - 1], DigitValue(b[|b| - 1]);
      ValueSplits(a, init);
      assert (a + b)[..|a + b| - 1] == a + init;
      TimesTen(ValueOf(a), Pow10(|init|), ValueOf(init));
    }
  }

  lemma {:induction false} ValueOfZeros(n: int)
    ensures AllDigits(Zeros(n)) && ValueOf(Zeros(n)) == 0
  {
    if n > 0 {
      ValueOfZeros(n - 1);
      assert Zeros(n)[..n - 1] == Zeros(n - 1);
    }
  }

  lemma {:induction false} ValueBelow(s: string)
    requires AllDigits(s)
    ensures ValueOf(s) < Pow10(|s|)
  {
    if s != [] {
      ValueBelow(s[..|s| - 1]);
    }
  }

  /** The head and the last `d` digits make up the whole. */
  lemma {:induction false} PartsAdd(n: nat, d: nat)
    ensures DropDigits(n, d) * Pow10(d) + ValueOf(LowDigits(n, d)) == n
  {
    if d > 0 {
      PartsAdd(n / 10, d - 1);
      var s := LowDigits(n, d);
      assert s[..|s| - 1] == LowDigits(n / 10, d - 1);
      TimesTen(DropDigits(n, d), Pow10(d - 1), ValueOf(LowDigits(n / 10, d - 1)));
    }
  }
}
