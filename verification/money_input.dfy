/** Money as typed text: exact parsing, printing, and the one spelling used to compare.

    `digits` is the currency's minor-unit exponent, 0, 2 or 3; unless a statement says
    otherwise it holds for every exponent. */
module MoneyInput {
  import opened Options
  import opened DecimalText

  const MAX_SAFE_INTEGER := 0x1F_FFFF_FFFF_FFFF

  // ---- the pattern -----------------------------------------------------------------------

  /** The white space and line ends `trim` removes. */
  predicate IsSpace(c: char) {
    var u := c as int;
    || 9 <= u <= 13 || u == 0x20 || u == 0xA0 || u == 0x1680 || 0x2000 <= u <= 0x200A
    || u == 0x2028 || u == 0x2029 || u == 0x202F || u == 0x205F || u == 0x3000 || u == 0xFEFF
  }

  function TrimStart(s: string): string {
    if s != [] && IsSpace(s[0]) then TrimStart(s[1..]) else s
  }

  function TrimEnd(s: string): string {
    if s != [] && IsSpace(s[|s| - 1]) then TrimEnd(s[..|s| - 1]) else s
  }

  function Trim(s: string): string {
    TrimEnd(TrimStart(s))
  }

  predicate AllSpace(s: string) {
    forall i :: 0 <= i < |s| ==> IsSpace(s[i])
  }

  lemma {:induction false} TrimStartIs(s: string)
    ensures |TrimStart(s)| <= |s| && TrimStart(s) == s[|s| - |TrimStart(s)|..] && AllSpace(s[..|s| - |TrimStart(s)|])
    ensures TrimStart(s) != [] ==> !IsSpace(TrimStart(s)[0])
  {
    if s != [] && IsSpace(s[0]) {
      TrimStartIs(s[1..]);
      assert s == [s[0]] + s[1..];
    }
  }

  lemma {:induction false} TrimEndIs(s: string)
    ensures |TrimEnd(s)| <= |s| && TrimEnd(s) == s[..|TrimEnd(s)|] && AllSpace(s[|TrimEnd(s)|..])
    ensures TrimEnd(s) != [] ==> !IsSpace(TrimEnd(s)[|TrimEnd(s)| - 1])
  {
    if s != [] && IsSpace(s[|s| - 1]) {
      TrimEndIs(s[..|s| - 1]);
      assert s == s[..|s| - 1] + [s[|s| - 1]];
    }
  }

  /** Trimming takes white space off both ends, all of it and nothing else. */
  lemma {:induction false} TrimIs(s: string) returns (before: string, after: string)
    ensures s == before + Trim(s) + after && AllSpace(before) && AllSpace(after)
    ensures Trim(s) != [] ==> !IsSpace(Trim(s)[0]) && !IsSpace(Trim(s)[|Trim(s)| - 1])
  {
    var t := TrimStart(s);
    TrimStartIs(s);
    TrimEndIs(t);
    before, after := s[..|s| - |t|], t[|Trim(s)|..];
    assert s == before + t && t == Trim(s) + after;
    if Trim(s) != [] {
      assert Trim(s)[0] == t[0];
    }
  }

  lemma {:induction false} SpacesAre()
    ensures IsSpace(' ') && IsSpace('\t') && IsSpace('\n') && IsSpace('\r')
    ensures forall c: char :: '!' <= c <= '~' ==> !IsSpace(c)
  {
  }

  /** Digits, then optionally a point and more digits. */
  datatype Match = Match(major: string, fraction: Option<string>)

  function FirstPoint(s: string): (i: nat)
    ensures i <= |s| && (i < |s| ==> s[i] == '.') && '.' !in s[..i]
  {
    if s == [] || s[0] == '.' then 0 else 1 + FirstPoint(s[1..])
  }

  predicate Digits(s: string) {
    s != [] && AllDigits(s)
  }

  function Exec(s: string): Option<Match> {
    var i := FirstPoint(s);
    if i == |s| then if Digits(s) then Some(Match(s, None)) else None
    else if Digits(s[..i]) && Digits(s[i + 1..]) then Some(Match(s[..i], Some(s[i + 1..])))
    else None
  }

  // ---- parsing ---------------------------------------------------------------------------

  /** Integer arithmetic of the host: exact up to 2^53, and never below a smaller operand's
      result past it. */
  ghost predicate Rounds(fl: nat -> nat) {
    && (forall v: nat :: v <= MAX_SAFE_INTEGER + 1 ==> fl(v) == v)
    && (forall u: nat, v: nat :: u <= v ==> fl(u) <= fl(v))
  }

  /** major*scale + minor in the host's arithmetic, within the safe integers. */
  function Amount(major: nat, scale: nat, minor: nat, allowZero: bool, fl: nat -> nat): Option<nat> {
    if fl(major) > MAX_SAFE_INTEGER then None else
    var units := fl(fl(fl(major) * scale) + minor);
    if units > MAX_SAFE_INTEGER then None
    else if units > 0 || allowZero then Some(units) else None
  }

  /** The fraction padded to the exponent, as minor units. */
  function MinorOf(fraction: string, digits: nat, fl: nat -> nat): nat {
    var padded := PadEnd(fraction, digits);
    if digits == 0 || !AllDigits(padded) then 0 else fl(ValueOf(padded))
  }

  function FractionOf(m: Match): string {
    if m.fraction.Some? then m.fraction.value else []
  }

  /** A matched text's amount. */
  function ParseMatch(m: Match, digits: nat, allowZero: bool, fl: nat -> nat): Option<nat> {
    if !AllDigits(m.major) || (m.fraction.Some? && (digits == 0 || |m.fraction.value| > digits)) then None
    else Amount(ValueOf(m.major), Pow10(digits), MinorOf(FractionOf(m), digits, fl), allowZero, fl)
  }

  function ParseMinorUnitsInput(input: string, digits: nat, allowZero: bool, fl: nat -> nat): Option<nat> {
    match Exec(Trim(input))
    case None => None
    case Some(m) => ParseMatch(m, digits, allowZero, fl)
  }

  // ---- what a text means -------------------------------------------------------------------

  /** `text` spells `units` minor units: at most `digits` decimals, and the decimal number it
      writes, major.fraction, times 10^digits is exactly `units`. */
  ghost predicate Spells(text: string, digits: nat, units: nat) {
    exists major, fraction :: IsSpelling(text, major, fraction, digits, units)
  }

  ghost predicate IsSpelling(text: string, major: string, fraction: string, digits: nat, units: nat) {
    && Digits(major) && AllDigits(fraction) && |fraction| <= digits
    && text == (if fraction == [] then major else major + "." + fraction)
    && units * Pow10(|fraction|) == (ValueOf(major) * Pow10(|fraction|) + ValueOf(fraction)) * Pow10(digits)
  }

  function Exactly(m: Match, digits: nat): nat
    requires AllDigits(m.major) && (m.fraction.Some? ==> AllDigits(m.fraction.value) && |m.fraction.value| <= digits)
  {
    ValueOf(m.major) * Pow10(digits) + ValueOf(FractionOf(m)) * Pow10(digits - |FractionOf(m)|)
  }

  predicate Fits(m: Match, digits: nat) {
    m.fraction.Some? ==> |m.fraction.value| <= digits
  }

  lemma {:induction false} ExecFinds(s: string)
    ensures var m := Exec(s); m.Some? ==>
      && Digits(m.value.major)
      && (m.value.fraction.Some? ==> Digits(m.value.fraction.value))
      && s == m.value.major + (if m.value.fraction.Some? then "." + m.value.fraction.value else [])
  {
  }

  lemma {:induction false} NoPointInDigits(s: string, rest: string)
    requires AllDigits(s) && (rest == [] || rest[0] == '.')
    ensures FirstPoint(s + rest) == |s|
  {
    if s == [] {
      assert s + rest == rest;
    } else {
      assert (s + rest)[1..] == s[1..] + rest;
      NoPointInDigits(s[1..], rest);
    }
  }

  /** The pattern's split is the only one. */
  lemma {:induction false} ExecIs(major: string, fraction: string)
    requires Digits(major) && AllDigits(fraction)
    ensures Exec(if fraction == [] then major else major + "." + fraction)
            == Some(Match(major, if fraction == [] then None else Some(fraction)))
  {
    if fraction == [] {
      NoPointInDigits(major, []);
      assert major + [] == major;
    } else {
      NoPointInDigits(major, "." + fraction);
      assert major + "." + fraction == major + ("." + fraction);
    }
  }

  lemma {:induction false} PaddingScales(fraction: string, digits: nat)
    requires AllDigits(fraction) && |fraction| <= digits
    ensures AllDigits(PadEnd(fraction, digits))
    ensures ValueOf(PadEnd(fraction, digits)) == ValueOf(fraction) * Pow10(digits - |fraction|) < Pow10(digits)
  {
    ValueOfZeros(digits - |fraction|);
    ValueSplits(fraction, Zeros(digits - |fraction|));
    ValueBelow(PadEnd(fraction, digits));
  }

  /** major*scale + minor, computed in the host's arithmetic, is right whenever it is safe. */
  lemma {:induction false} AmountIsExact(major: nat, scale: nat, minor: nat, allowZero: bool, fl: nat -> nat)
    requires Rounds(fl) && 1 <= scale
    ensures var exact := major * scale + minor;
      Amount(major, scale, minor, allowZero, fl)
      == if exact <= MAX_SAFE_INTEGER && (exact > 0 || allowZero) then Some(exact) else None
  {
    var product := major * scale;
    AtLeast(major, scale);
    var exact := product + minor;
    if exact <= MAX_SAFE_INTEGER {
      assert fl(product) == product;
    } else if major > MAX_SAFE_INTEGER {
      Monotone(fl, MAX_SAFE_INTEGER + 1, major);
    } else if product <= MAX_SAFE_INTEGER + 1 {
      Monotone(fl, MAX_SAFE_INTEGER + 1, exact);
    } else {
      Monotone(fl, MAX_SAFE_INTEGER + 1, product);
      Monotone(fl, MAX_SAFE_INTEGER + 1, fl(product) + minor);
    }
  }

  lemma {:induction false} MinorIsExact(fraction: string, digits: nat, fl: nat -> nat)
    requires Rounds(fl) && digits <= 3 && AllDigits(fraction) && |fraction| <= digits
    ensures MinorOf(fraction, digits, fl) == ValueOf(fraction) * Pow10(digits - |fraction|)
  {
    PaddingScales(fraction, digits);
    SmallPowers(digits);
  }

  lemma {:induction false} SmallPowers(digits: nat)
    requires digits <= 3
    ensures Pow10(digits) <= 1000
  {
    assert Pow10(0) == 1 && Pow10(1) == 10 && Pow10(2) == 100 && Pow10(3) == 1000;
  }

  /** What a match stands for; none when it is not made of digits. */
  function MatchAmount(m: Match, digits: nat): Option<nat> {
    if AllDigits(m.major) && (m.fraction.Some? ==> AllDigits(m.fraction.value) && |m.fraction.value| <= digits)
    then Some(Exactly(m, digits)) else None
  }

  /** An amount kept when it is safe, and zero only where zero is allowed. */
  function IfSafe(exact: Option<nat>, allowZero: bool): Option<nat> {
    if exact.Some? && exact.value <= MAX_SAFE_INTEGER && (exact.value > 0 || allowZero) then exact else None
  }

  lemma {:induction false} MatchParses(m: Match, digits: nat, allowZero: bool, fl: nat -> nat)
    requires Rounds(fl) && digits <= 3 && Digits(m.major) && (m.fraction.Some? ==> Digits(m.fraction.value))
    ensures ParseMatch(m, digits, allowZero, fl)
            == if Fits(m, digits) then IfSafe(MatchAmount(m, digits), allowZero) else None
  {
    if Fits(m, digits) {
      MinorIsExact(FractionOf(m), digits, fl);
      AmountIsExact(ValueOf(m.major), Pow10(digits), MinorOf(FractionOf(m), digits, fl), allowZero, fl);
    }
  }

  /** The host's rounding never matters: whatever it does past 2^53, a text is taken exactly
      when its exact amount is a safe integer, and then at that amount. */
  lemma {:induction false} RoundingNeverMatters(input: string, digits: nat, allowZero: bool, fl: nat -> nat)
    requires Rounds(fl) && digits <= 3
    ensures var m := Exec(Trim(input));
      ParseMinorUnitsInput(input, digits, allowZero, fl)
      == if m.Some? && Fits(m.value, digits) then IfSafe(MatchAmount(m.value, digits), allowZero) else None
  {
    ExecFinds(Trim(input));
    if Exec(Trim(input)).Some? {
      MatchParses(Exec(Trim(input)).value, digits, allowZero, fl);
    }
  }

  lemma {:induction false} AtLeast(major: nat, scale: nat)
    requires scale >= 1
    ensures major * scale >= major
  {
    TimesAtLeast(scale, major, 0);
    assert major * scale - major == major * (scale - 1);
  }

  lemma {:induction false} Monotone(fl: nat -> nat, u: nat, v: nat)
    requires Rounds(fl) && u <= v && u <= MAX_SAFE_INTEGER + 1
    ensures fl(v) >= u
  {
    assert fl(u) <= fl(v);
  }

  lemma {:induction false} PowSplits(a: nat, b: nat)
    ensures Pow10(a + b) == Pow10(a) * Pow10(b)
  {
    if a > 0 {
      PowSplits(a - 1, b);
      TenTimes(Pow10(a - 1), Pow10(b));
    }
  }

  lemma {:induction false} TenTimes(x: nat, y: nat)
    ensures 10 * (x * y) == (10 * x) * y
  {
  }

  /** A match's exact amount is the one amount its text spells. */
  lemma {:induction false} ExactlyIsTheValue(major: string, fraction: string, digits: nat, units: nat)
    requires Digits(major) && AllDigits(fraction) && |fraction| <= digits
    ensures var m := Match(major, if fraction == [] then None else Some(fraction));
      units * Pow10(|fraction|) == (ValueOf(major) * Pow10(|fraction|) + ValueOf(fraction)) * Pow10(digits)
      <==> units == Exactly(m, digits)
  {
    var p, r := Pow10(|fraction|), Pow10(digits - |fraction|);
    PowSplits(|fraction|, digits - |fraction|);
    assert Pow10(digits) == p * r;
    Cross(ValueOf(major), ValueOf(fraction), p, r, units);
  }

  lemma {:induction false} Cross(x: nat, y: nat, p: nat, r: nat, units: nat)
    requires p > 0
    ensures units * p == (x * p + y) * (p * r) <==> units == x * (p * r) + y * r
  {
    var v := x * (p * r) + y * r;
    assert (x * p + y) * (p * r) == v * p by {
      assert (x * p) * (p * r) == (x * (p * r)) * p;
      assert y * (p * r) == (y * r) * p;
      assert (x * p + y) * (p * r) == (x * p) * (p * r) + y * (p * r);
      assert v * p == (x * (p * r)) * p + (y * r) * p;
    }
    if units * p == v * p {
      SameFactor(units, v, p);
    }
  }

  lemma {:induction false} SameFactor(a: int, b: int, p: int)
    requires p > 0 && a * p == b * p
    ensures a == b
  {
    if a > b {
      TimesAtLeast(p, a - b, 1);
    } else if b > a {
      TimesAtLeast(p, b - a, 1);
    }
  }

  lemma {:induction false} SpellingMatches(text: string, major: string, fraction: string, digits: nat, units: nat)
    requires IsSpelling(text, major, fraction, digits, units)
    ensures var m := Match(major, if fraction == [] then None else Some(fraction));
      Exec(text) == Some(m) && Fits(m, digits) && MatchAmount(m, digits) == Some(units)
  {
    ExecIs(major, fraction);
    ExactlyIsTheValue(major, fraction, digits, units);
  }

  lemma {:induction false} MatchSpells(text: string, digits: nat, units: nat)
    requires Exec(text).Some? && Fits(Exec(text).value, digits) && MatchAmount(Exec(text).value, digits) == Some(units)
    ensures Spells(text, digits, units)
  {
    ExecFinds(text);
    var m := Exec(text).value;
    ExactlyIsTheValue(m.major, FractionOf(m), digits, units);
    assert IsSpelling(text, m.major, FractionOf(m), digits, units);
  }

  /** A text spells exactly the amount its one match stands for. */
  lemma {:induction false} SpellsExactly(text: string, digits: nat, units: nat)
    ensures Spells(text, digits, units)
            <==> Exec(text).Some? && Fits(Exec(text).value, digits) && MatchAmount(Exec(text).value, digits) == Some(units)
  {
    if Spells(text, digits, units) {
      var major, fraction :| IsSpelling(text, major, fraction, digits, units);
      SpellingMatches(text, major, fraction, digits, units);
    } else if Exec(text).Some? && Fits(Exec(text).value, digits) && MatchAmount(Exec(text).value, digits) == Some(units) {
      MatchSpells(text, digits, units);
    }
  }

  /** Exactly the texts that spell a safe amount are accepted, at exactly that amount. */
  lemma {:induction false} AcceptsExactlyItsValue(input: string, digits: nat, allowZero: bool, fl: nat -> nat, units: nat)
    requires Rounds(fl) && digits <= 3
    ensures ParseMinorUnitsInput(input, digits, allowZero, fl) == Some(units)
            <==> Spells(Trim(input), digits, units) && units <= 9007199254740991 && (units > 0 || allowZero)
  {
    RoundingNeverMatters(input, digits, allowZero, fl);
    SpellsExactly(Trim(input), digits, units);
  }

  // ---- printing ----------------------------------------------------------------------------

  /** `(abs - abs % scale) / scale`. */
  function WholeUnits(abs: nat, scale: nat): (q: nat)
    requires scale > 0
    ensures q == abs / scale
  {
    WholePart(abs, scale);
    (abs - abs % scale) / scale
  }

  lemma {:induction false} WholePart(n: nat, scale: nat)
    requires scale > 0
    ensures (n - n % scale) / scale == n / scale
  {
    DivisionIs(n - n % scale, scale, n / scale, 0);
  }

  /** The text of a field's amount; a negative one keeps its sign in front. */
  function FormatMinorUnitsInput(minorUnits: int, digits: nat): string {
    if minorUnits < 0 then "-" + FormatAbs(-minorUnits, digits) else FormatAbs(minorUnits, digits)
  }

  function FormatAbs(abs: nat, digits: nat): string {
    if digits == 0 then Show(abs)
    else Show(WholeUnits(abs, Pow10(digits))) + "." + PadStart(Show(abs % Pow10(digits)), digits)
  }

  /** The display path's printer: pads, then cuts `digits` characters off the end. */
  function ToMajorUnitsString(amount: nat, digits: nat): string {
    if digits == 0 then Show(amount)
    else
      var padded := PadStart(Show(amount), digits + 1);
      padded[..|padded| - digits] + "." + padded[|padded| - digits..]
  }

  lemma {:induction false} FormatIs(n: nat, digits: nat)
    requires digits > 0
    ensures FormatAbs(n, digits) == Show(DropDigits(n, digits)) + "." + LowDigits(n, digits)
  {
    RemainderDigits(n, digits);
    DroppingDivides(n, digits);
  }

  /** The two printers agree on every amount and every exponent. */
  lemma {:induction false} PrintersAgree(n: nat, digits: nat)
    ensures ToMajorUnitsString(n, digits) == FormatMinorUnitsInput(n, digits)
  {
    if digits > 0 {
      FormatIs(n, digits);
      HeadAndTail(n, digits);
      var padded, head, tail := PadStart(Show(n), digits + 1), Show(DropDigits(n, digits)), LowDigits(n, digits);
      assert padded == head + tail && |tail| == digits;
      assert padded[..|padded| - digits] == head && padded[|padded| - digits..] == tail;
    }
  }

  lemma {:induction false} TrimKeeps(s: string)
    requires s != [] && !IsSpace(s[0]) && !IsSpace(s[|s| - 1])
    ensures Trim(s) == s
  {
  }

  lemma {:induction false} WholeSpells(n: nat)
    ensures Spells(Show(n), 0, n)
  {
    assert IsSpelling(Show(n), Show(n), [], 0, n);
  }

  lemma {:induction false} PartsSpell(n: nat, digits: nat)
    requires digits > 0
    ensures Spells(Show(DropDigits(n, digits)) + "." + LowDigits(n, digits), digits, n)
  {
    var major, fraction := Show(DropDigits(n, digits)), LowDigits(n, digits);
    PartsAdd(n, digits);
    assert fraction != [];
    assert IsSpelling(major + "." + fraction, major, fraction, digits, n);
  }

  /** Printed text has no space at either end, and spells the amount printed. */
  lemma {:induction false} FormatSpells(n: nat, digits: nat)
    ensures var text := FormatMinorUnitsInput(n, digits); Trim(text) == text && Spells(text, digits, n)
  {
    if digits == 0 {
      TrimKeeps(Show(n));
      WholeSpells(n);
    } else {
      FormatIs(n, digits);
      PartsSpell(n, digits);
      TrimKeeps(Show(DropDigits(n, digits)) + "." + LowDigits(n, digits));
    }
  }

  /** Every safe amount survives printing and parsing. */
  lemma {:induction false} RoundTrip(n: nat, digits: nat, allowZero: bool, fl: nat -> nat)
    requires Rounds(fl) && digits <= 3 && n <= MAX_SAFE_INTEGER
    ensures ParseMinorUnitsInput(FormatMinorUnitsInput(n, digits), digits, allowZero, fl)
            == if n > 0 || allowZero then Some(n) else None
  {
    var text := FormatMinorUnitsInput(n, digits);
    FormatSpells(n, digits);
    if n > 0 || allowZero {
      AcceptsExactlyItsValue(text, digits, allowZero, fl, n);
    } else {
      AcceptsExactlyItsValue(text, digits, true, fl, n);
      RoundingNeverMatters(text, digits, false, fl);
      RoundingNeverMatters(text, digits, true, fl);
    }
  }

  /** A negative amount prints, and never parses back. */
  lemma {:induction false} NegativeIsRefused(n: int, digits: nat, allowZero: bool, fl: nat -> nat)
    requires n < 0
    ensures ParseMinorUnitsInput(FormatMinorUnitsInput(n, digits), digits, allowZero, fl) == None
  {
    var text := FormatMinorUnitsInput(n, digits);
    assert text[0] == '-';
    assert !IsSpace(text[0]) && Trim(text) == TrimEnd(text);
    TrimEndKeepsHead(text);
    NeedsADigitFirst(Trim(text));
  }

  lemma {:induction false} NeedsADigitFirst(s: string)
    requires s != [] && !IsDigit(s[0])
    ensures Exec(s) == None
  {
    var i := FirstPoint(s);
    if i > 0 {
      assert s[..i][0] == s[0];
    }
  }

  lemma {:induction false} TrimEndKeepsHead(s: string)
    requires s != [] && !IsSpace(s[0])
    ensures TrimEnd(s) != [] && TrimEnd(s)[0] == s[0]
  {
    if IsSpace(s[|s| - 1]) {
      TrimEndKeepsHead(s[..|s| - 1]);
    }
  }

  // ---- the canonical spelling ----------------------------------------------------------------

  function CanonicalMoneyInput(input: string, digits: nat, fl: nat -> nat): string {
    var units := ParseMinorUnitsInput(input, digits, true, fl);
    if units.None? then Trim(input) else FormatMinorUnitsInput(units.value, digits)
  }

  lemma {:induction false} TrimEndTwice(s: string)
    ensures TrimEnd(TrimEnd(s)) == TrimEnd(s)
  {
    if s != [] && IsSpace(s[|s| - 1]) {
      TrimEndTwice(s[..|s| - 1]);
    }
  }

  lemma {:induction false} TrimStartEnds(s: string)
    ensures TrimStart(s) == [] || !IsSpace(TrimStart(s)[0])
  {
    if s != [] && IsSpace(s[0]) {
      TrimStartEnds(s[1..]);
    }
  }

  lemma {:induction false} TrimTwice(s: string)
    ensures Trim(Trim(s)) == Trim(s)
  {
    TrimEndTwice(TrimStart(s));
    TrimStartEnds(s);
    if TrimStart(s) != [] {
      TrimEndKeepsHead(TrimStart(s));
    }
  }

  lemma {:induction false} ParseSeesTheTrim(x: string, y: string, digits: nat, allowZero: bool, fl: nat -> nat)
    requires Trim(x) == Trim(y)
    ensures ParseMinorUnitsInput(x, digits, allowZero, fl) == ParseMinorUnitsInput(y, digits, allowZero, fl)
  {
  }

  lemma {:induction false} ParsedIsSafe(x: string, digits: nat, fl: nat -> nat)
    requires Rounds(fl) && digits <= 3
    ensures var units := ParseMinorUnitsInput(x, digits, true, fl); units.Some? ==> units.value <= MAX_SAFE_INTEGER
  {
  }

  /** The canonical spelling parses as its input did. */
  lemma {:induction false} CanonicalParsesTheSame(x: string, digits: nat, fl: nat -> nat)
    requires Rounds(fl) && digits <= 3
    ensures ParseMinorUnitsInput(CanonicalMoneyInput(x, digits, fl), digits, true, fl)
            == ParseMinorUnitsInput(x, digits, true, fl)
  {
    var units := ParseMinorUnitsInput(x, digits, true, fl);
    if units.Some? {
      ParsedIsSafe(x, digits, fl);
      RoundTrip(units.value, digits, true, fl);
    } else {
      TrimTwice(x);
      ParseSeesTheTrim(Trim(x), x, digits, true, fl);
    }
  }

  lemma {:induction false} CanonicalIsIdempotent(x: string, digits: nat, fl: nat -> nat)
    requires Rounds(fl) && digits <= 3
    ensures CanonicalMoneyInput(CanonicalMoneyInput(x, digits, fl), digits, fl) == CanonicalMoneyInput(x, digits, fl)
  {
    CanonicalParsesTheSame(x, digits, fl);
    TrimTwice(x);
  }

  /** Two entries compare equal exactly when they are one amount, or neither is an amount and
      they read the same apart from outer spaces. */
  lemma {:induction false} CanonicalComparesAmounts(x: string, y: string, digits: nat, fl: nat -> nat)
    requires Rounds(fl) && digits <= 3
    ensures var a, b := ParseMinorUnitsInput(x, digits, true, fl), ParseMinorUnitsInput(y, digits, true, fl);
      CanonicalMoneyInput(x, digits, fl) == CanonicalMoneyInput(y, digits, fl)
      <==> a == b && (a.None? ==> Trim(x) == Trim(y))
  {
    CanonicalParsesTheSame(x, digits, fl);
    CanonicalParsesTheSame(y, digits, fl);
  }
}
