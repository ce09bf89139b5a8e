// Fixed-point decimals: the adapter's parser and the printer it undoes
// (src/dwellir.rs and examples/dwellir_live_sp500.rs).
module Decimal {
  import opened Types

  // Powers of ten

  function Pow10(n: nat): (p: nat)
    ensures p >= 1
  {
    if n == 0 then 1 else 10 * Pow10(n - 1)
  }

  // n times 10^k.
  function Shift(n: nat, k: nat): nat {
    if k == 0 then n else 10 * Shift(n, k - 1)
  }

  lemma {:induction false} ShiftIsTimes(n: nat, k: nat)
    ensures Shift(n, k) == n * Pow10(k)
  {
    if k > 0 {
      ShiftIsTimes(n, k - 1);
      TenTimes(n, Pow10(k - 1));
    }
  }

  lemma TenTimes(n: nat, p: nat)
    ensures n * (10 * p) == 10 * (n * p)
  {
  }

  lemma {:induction false} ShiftSum(a: nat, b: nat, k: nat)
    ensures Shift(a + b, k) == Shift(a, k) + Shift(b, k)
  {
    if k > 0 {
      ShiftSum(a, b, k - 1);
    }
  }

  lemma {:induction false} ShiftZero(k: nat)
    ensures Shift(0, k) == 0
  {
    if k > 0 {
      ShiftZero(k - 1);
    }
  }

  lemma {:induction false} ShiftTwice(n: nat, a: nat, b: nat)
    ensures Shift(Shift(n, a), b) == Shift(n, a + b)
  {
    if b > 0 {
      ShiftTwice(n, a, b - 1);
    }
  }

  lemma {:induction false} ShiftLess(a: nat, b: nat, k: nat)
    requires a < b
    ensures Shift(a, k) < Shift(b, k)
  {
    if k > 0 {
      ShiftLess(a, b, k - 1);
    }
  }

  lemma {:induction false} ShiftGrows(n: nat, k: nat)
    ensures n <= Shift(n, k)
  {
    if k > 0 {
      ShiftGrows(n, k - 1);
    }
  }

  lemma {:induction false} ShiftPower(a: nat, k: nat)
    ensures Shift(Pow10(a), k) == Pow10(a + k)
  {
    if k > 0 {
      ShiftPower(a, k - 1);
    }
  }

  lemma {:induction false} Pow10Mono(a: nat, b: nat)
    requires a <= b
    ensures Pow10(a) <= Pow10(b)
  {
    if a < b {
      Pow10Mono(a, b - 1);
    }
  }

  // Euclidean division, as the printer uses it.

  function Quotient(a: nat, b: nat): nat
    requires b > 0
  {
    a / b
  }

  function Remainder(a: nat, b: nat): nat
    requires b > 0
  {
    a % b
  }

  lemma DivMod(a: nat, b: nat)
    requires b > 0
    ensures a == Quotient(a, b) * b + Remainder(a, b) && Remainder(a, b) < b
  {
  }

  lemma MulMono(a: nat, b: nat, c: nat)
    requires a <= b
    ensures a * c <= b * c
  {
  }

  lemma MulNext(a: nat, c: nat)
    ensures (a + 1) * c == a * c + c
  {
  }

  lemma QuotientIs(a: nat, b: nat, q: nat, r: nat)
    requires b > 0 && a == q * b + r && r < b
    ensures Quotient(a, b) == q
  {
    var p := Quotient(a, b);
    DivMod(a, b);
    hide Quotient, Remainder;
    MulNext(p, b);
    MulNext(q, b);
    if p < q {
      MulMono(p + 1, q, b);
    } else if q < p {
      MulMono(q + 1, p, b);
    }
  }

  // The scales that fit a u64.
  lemma Pow10Fits(n: nat)
    ensures Pow10(n) <= MAX_U64 <==> n <= 19
  {
    assert Pow10(3) == 1_000 && Pow10(6) == 1_000_000 && Pow10(9) == 1_000_000_000;
    assert Pow10(12) == 1_000_000_000_000 && Pow10(15) == 1_000_000_000_000_000;
    assert Pow10(17) == 100_000_000_000_000_000 && Pow10(19) == 10_000_000_000_000_000_000;
    assert Pow10(20) == 10 * Pow10(19);
    if n <= 19 {
      Pow10Mono(n, 19);
    } else {
      Pow10Mono(20, n);
    }
  }

  // Digit strings

  predicate IsDigit(c: char) {
    '0' <= c <= '9'
  }

  predicate AllDigits(s: string) {
    forall i :: 0 <= i < |s| ==> IsDigit(s[i])
  }

  function DigitOf(c: char): nat
    requires IsDigit(c)
  {
    c as int - '0' as int
  }

  function DigitChar(n: nat): (c: char)
    requires n < 10
    ensures IsDigit(c) && DigitOf(c) == n
  {
    ('0' as int + n) as char
  }

  function Value(s: string): nat
    requires AllDigits(s)
  {
    if s == "" then 0 else Value(s[..|s| - 1]) * 10 + DigitOf(s[|s| - 1])
  }

  lemma ValueSnoc(s: string, c: char)
    requires AllDigits(s) && IsDigit(c)
    ensures AllDigits(s + [c]) && Value(s + [c]) == Value(s) * 10 + DigitOf(c)
  {
    assert (s + [c])[..|s|] == s;
  }

  lemma {:induction false} ValueBound(s: string)
    requires AllDigits(s)
    ensures Value(s) < Pow10(|s|)
  {
    if s != "" {
      ValueBound(s[..|s| - 1]);
    }
  }

  lemma {:induction false} ValueConcat(a: string, b: string)
    requires AllDigits(a) && AllDigits(b)
    ensures AllDigits(a + b) && Value(a + b) == Shift(Value(a), |b|) + Value(b)
  {
    if b == "" {
      assert a + b == a;
    } else {
      var front, c := b[..|b| - 1], b[|b| - 1];
      assert a + b == (a + front) + [c] && b == front + [c];
      ValueConcat(a, front);
      ValueSnoc(a + front, c);
      ValueSnoc(front, c);
    }
  }

  // Parsing

  // A u64 in decimal with an optional plus sign, as the standard parser reads it.
  function ParseU64(s: string): Option<u64> {
    var t := if s != "" && s[0] == '+' then s[1..] else s;
    if t == "" || !AllDigits(t) || Value(t) > MAX_U64 then None else Some(Value(t))
  }

  // The text before and after the first point.
  function SplitPoint(s: string): (string, string) {
    if s == "" then ("", "")
    else if s[0] == '.' then ("", s[1..])
    else
      var (i, f) := SplitPoint(s[1..]);
      ([s[0]] + i, f)
  }

  function Prefix(s: string, n: nat): string {
    if n < |s| then s[..n] else s
  }

  // The integer part and the first digits of the fraction, scaled; None where
  // either is malformed or the result is too large.
  ghost function Scaled(whole: Option<u64>, fracPart: string, scaleDigits: nat): Option<u64> {
    var used := Prefix(fracPart, scaleDigits);
    if whole.None? || Pow10(scaleDigits) > MAX_U64 || !AllDigits(used) then None
    else
      var v := Shift(whole.value, scaleDigits) + Shift(Value(used), scaleDigits - |used|);
      if v > MAX_U64 then None else Some(v)
  }

  // What parsing means.
  ghost function FixedOf(s: string, scaleDigits: nat): Option<u64> {
    if s == "" || s[0] == '-' then None
    else
      var (intPart, fracPart) := SplitPoint(s);
      Scaled(ParseU64(intPart), fracPart, scaleDigits)
  }

  function CheckedPow10(n: nat): Option<u64> {
    if Pow10(n) <= MAX_U64 then Some(Pow10(n)) else None
  }

  function CheckedMul(x: u64, y: u64): Option<u64> {
    if x * y <= MAX_U64 then Some(x * y) else None
  }

  function CheckedAdd(x: u64, y: u64): Option<u64> {
    if x + y <= MAX_U64 then Some(x + y) else None
  }

  // Reading one more fraction digit stays below the next power of ten.
  lemma ReadDigit(f: string, n: nat, scaleDigits: nat)
    requires n < |f| && n < scaleDigits && AllDigits(f[..n]) && IsDigit(f[n])
    requires Pow10(scaleDigits) <= MAX_U64
    ensures AllDigits(f[..n + 1])
    ensures Value(f[..n + 1]) == Value(f[..n]) * 10 + DigitOf(f[n]) <= MAX_U64
  {
    assert f[..n + 1] == f[..n] + [f[n]];
    ValueSnoc(f[..n], f[n]);
    ValueBound(f[..n + 1]);
    Pow10Mono(n + 1, scaleDigits);
  }

  // Padding by one more zero stays below the next power of ten.
  lemma PadDigit(used: string, n: nat, scaleDigits: nat)
    requires AllDigits(used) && |used| <= n < scaleDigits && Pow10(scaleDigits) <= MAX_U64
    ensures Shift(Value(used), n + 1 - |used|) == 10 * Shift(Value(used), n - |used|) <= MAX_U64
  {
    var k := n + 1 - |used|;
    ValueBound(used);
    ShiftLess(Value(used), Pow10(|used|), k);
    ShiftPower(|used|, k);
    Pow10Mono(n + 1, scaleDigits);
  }

  lemma NoDigits()
    ensures AllDigits("") && Value("") == 0
  {
  }

  // Parse a decimal string scaled by a power of ten. The digit arithmetic is
  // unchecked, and never overflows.
  method ParseFixed(s: string, scaleDigits: nat) returns (r: Option<u64>)
    ensures r == FixedOf(s, scaleDigits)
  {
    hide Value, Shift, Pow10, SplitPoint, ParseU64;
    if s == "" || s[0] == '-' {
      return None;
    }
    var (intPart, fracPart) := SplitPoint(s);
    var whole := ParseU64(intPart);
    if whole.None? {
      return None;
    }
    var scaleMul := CheckedPow10(scaleDigits);
    if scaleMul.None? {
      return None;
    }
    ShiftIsTimes(whole.value, scaleDigits);
    var out := CheckedMul(whole.value, scaleMul.value);
    if out.None? {
      return None;
    }
    var frac: u64, digits := 0, 0;
    NoDigits();
    while digits < |fracPart| && digits < scaleDigits
      invariant digits <= |fracPart| && digits <= scaleDigits
      invariant AllDigits(fracPart[..digits]) && frac == Value(fracPart[..digits])
    {
      var b := fracPart[digits];
      if !IsDigit(b) {
        assert !AllDigits(Prefix(fracPart, scaleDigits)) by {
          assert Prefix(fracPart, scaleDigits)[digits] == b;
        }
        return None;
      }
      ReadDigit(fracPart, digits, scaleDigits);
      frac := frac * 10 + DigitOf(b);
      digits := digits + 1;
    }
    ghost var used := Prefix(fracPart, scaleDigits);
    assert fracPart[..digits] == used;
    ShiftNothing(frac);
    while digits < scaleDigits
      invariant |used| <= digits <= scaleDigits
      invariant frac == Shift(Value(used), digits - |used|)
    {
      PadDigit(used, digits, scaleDigits);
      var padded := CheckedMul(frac, 10);
      if padded.None? {
        return None;
      }
      frac := padded.value;
      digits := digits + 1;
    }
    r := CheckedAdd(out.value, frac);
  }

  // Parsing computes the floor

  // A plain decimal: digits, and after a point more digits if there are any.
  function Plain(i: string, f: string, pointed: bool): string {
    if pointed then i + "." + f else i
  }

  lemma {:induction false} SplitPlain(i: string, f: string)
    requires AllDigits(i)
    ensures SplitPoint(i + "." + f) == (i, f)
  {
    if i == "" {
      assert i + "." + f == "." + f;
      assert ("." + f)[1..] == f;
    } else {
      assert (i + "." + f)[1..] == i[1..] + "." + f;
      SplitPlain(i[1..], f);
      assert [i[0]] + i[1..] == i;
    }
  }

  lemma {:induction false} SplitWhole(i: string)
    requires AllDigits(i)
    ensures SplitPoint(i) == (i, "")
  {
    if i != "" {
      SplitWhole(i[1..]);
      assert [i[0]] + i[1..] == i;
    }
  }

  // The scaled fraction, cut at the scale.
  ghost function Cut(f: string, d: nat): nat
    requires AllDigits(f)
  {
    Shift(Value(Prefix(f, d)), d - |Prefix(f, d)|)
  }

  // Cutting a fraction at d digits is rounding down: what is lost is less than
  // one unit.
  lemma CutLoses(f: string, d: nat) returns (lost: nat)
    requires AllDigits(f)
    ensures Shift(Value(f), d) == Shift(Cut(f, d), |f|) + lost && lost < Pow10(|f|)
  {
    var n := |f|;
    if n <= d {
      lost := 0;
      ShiftTwice(Value(f), d - n, n);
    } else {
      var a, b := f[..d], f[d..];
      assert f == a + b;
      ValueConcat(a, b);
      ValueBound(b);
      hide Shift, Pow10;
      lost := Shift(Value(b), d);
      ShiftSum(Shift(Value(a), n - d), Value(b), d);
      ShiftTwice(Value(a), n - d, d);
      ShiftNothing(Value(a));
      ShiftLess(Value(b), Pow10(n - d), d);
      ShiftPower(n - d, d);
    }
  }

  lemma ShiftNothing(n: nat)
    ensures Shift(n, 0) == n
  {
  }

  lemma CutIsFloor(i: string, f: string, d: nat)
    requires AllDigits(i) && AllDigits(f)
    ensures AllDigits(i + f)
    ensures Quotient(Shift(Value(i + f), d), Pow10(|f|)) == Shift(Value(i), d) + Cut(f, d)
  {
    hide Shift, Pow10, Quotient, Cut;
    var n, x := |f|, Value(i);
    var q := Shift(x, d) + Cut(f, d);
    ValueConcat(i, f);
    ShiftSum(Shift(x, n), Value(f), d);
    ShiftTwice(x, n, d);
    ShiftTwice(x, d, n);
    var lost := CutLoses(f, d);
    ShiftSum(Shift(x, d), Cut(f, d), n);
    ShiftIsTimes(q, n);
    QuotientIs(Shift(Value(i + f), d), Pow10(n), q, lost);
  }

  // On a plain decimal, parsing yields the value times 10^d rounded down, when
  // that and 10^d fit a u64, and None otherwise.
  lemma ParsesFloor(i: string, f: string, pointed: bool, d: nat)
    requires i != "" && AllDigits(i) && AllDigits(f) && (!pointed ==> f == "")
    ensures AllDigits(i + f)
    ensures var floor := Quotient(Shift(Value(i + f), d), Pow10(|f|));
            FixedOf(Plain(i, f, pointed), d) ==
            if Pow10(d) <= MAX_U64 && floor <= MAX_U64 then Some(floor) else None
  {
    hide Pow10, Value, Shift, Quotient;
    var s := Plain(i, f, pointed);
    assert s[0] == i[0] && IsDigit(i[0]);
    if pointed {
      SplitPlain(i, f);
    } else {
      SplitWhole(i);
    }
    CutIsFloor(i, f, d);
    ShiftGrows(Value(i), d);
    assert AllDigits(Prefix(f, d));
  }

  // Whatever follows the digits that count is ignored.
  lemma RestIgnored(i: string, f: string, rest: string, d: nat)
    requires AllDigits(i) && |f| >= d
    ensures FixedOf(i + "." + (f + rest), d) == FixedOf(i + "." + f, d)
  {
    SplitPlain(i, f + rest);
    SplitPlain(i, f);
    assert Prefix(f + rest, d) == Prefix(f, d);
  }

  // Which texts are accepted

  // An optional plus sign, an integer part, and after a point anything at all.
  function Text(plus: bool, i: string, f: string, pointed: bool): string {
    (if plus then "+" else "") + Plain(i, f, pointed)
  }

  // Digits, a point only with a fraction after it, and of the fraction the part
  // that counts is digits too.
  predicate Numeric(i: string, f: string, pointed: bool, d: nat) {
    i != "" && AllDigits(i) && (!pointed ==> f == "") && AllDigits(Prefix(f, d))
  }

  // The value of the digits that count, times 10^d, rounded down.
  ghost function Floored(i: string, f: string, d: nat): nat
    requires AllDigits(i) && AllDigits(Prefix(f, d))
  {
    Quotient(Shift(Value(i + Prefix(f, d)), d), Pow10(|Prefix(f, d)|))
  }

  lemma {:induction false} SplitJoins(s: string) returns (pointed: bool)
    ensures var (i, f) := SplitPoint(s);
            s == Plain(i, f, pointed) && (!pointed ==> f == "") && i <= s
  {
    if s == "" {
      pointed := false;
    } else if s[0] == '.' {
      pointed := true;
      assert s == "" + "." + s[1..];
    } else {
      pointed := SplitJoins(s[1..]);
      assert s == [s[0]] + s[1..];
    }
  }

  lemma SplitPlus(s: string)
    ensures var (i, f) := SplitPoint(s);
            && SplitPoint("+" + s) == ("+" + i, f)
            && (i != "" ==> s != "" && i[0] == s[0])
  {
    assert ("+" + s)[1..] == s;
  }

  lemma ParsePlus(i: string)
    requires i == "" || i[0] != '+'
    ensures ParseU64("+" + i) == ParseU64(i)
    ensures i != "" && i[0] == '-' ==> ParseU64(i) == None
  {
    assert ("+" + i)[1..] == i;
    hide Value;
  }

  // One plus sign in front changes nothing.
  lemma PlusIgnored(s: string, d: nat)
    requires s == "" || s[0] != '+'
    ensures FixedOf("+" + s, d) == FixedOf(s, d)
  {
    SplitPlus(s);
    var i := SplitPoint(s).0;
    ParsePlus(i);
    if s == "" || s[0] == '-' {
      NothingToParse(s);
    }
    hide SplitPoint, ParseU64, Scaled;
  }

  lemma NothingToParse(s: string)
    requires s == "" || s[0] == '-'
    ensures ParseU64(SplitPoint(s).0) == None
    ensures forall f, d :: Scaled(None, f, d) == None
  {
  }

  lemma CutOfCut(f: string, d: nat)
    requires AllDigits(Prefix(f, d))
    ensures var used := Prefix(f, d);
            |used| <= d && Cut(used, d) == Shift(Value(used), d - |used|)
  {
    assert Prefix(Prefix(f, d), d) == Prefix(f, d);
    hide Shift, Value;
  }

  // What any text of that shape parses to: the floor of the digits that count,
  // if they are digits and all fits, whatever comes after them.
  lemma ParsesText(plus: bool, i: string, f: string, pointed: bool, d: nat)
    requires i != "" && AllDigits(i) && (!pointed ==> f == "")
    ensures FixedOf(Text(plus, i, f, pointed), d) ==
            if Numeric(i, f, pointed, d) && Pow10(d) <= MAX_U64 && Floored(i, f, d) <= MAX_U64
            then Some(Floored(i, f, d)) else None
  {
    hide Pow10, Value, Shift, Quotient, Cut;
    var s, used := Plain(i, f, pointed), Prefix(f, d);
    assert s[0] == i[0] && IsDigit(i[0]);
    if plus {
      PlusIgnored(s, d);
    } else {
      assert Text(plus, i, f, pointed) == s;
    }
    if pointed {
      SplitPlain(i, f);
    } else {
      SplitWhole(i);
    }
    ShiftGrows(Value(i), d);
    if AllDigits(used) {
      CutIsFloor(i, used, d);
      CutOfCut(f, d);
    }
  }

  ghost predicate IsText(s: string, d: nat, plus: bool, i: string, f: string, pointed: bool) {
    && s == Text(plus, i, f, pointed)
    && Numeric(i, f, pointed, d)
    && Pow10(d) <= MAX_U64 && Floored(i, f, d) <= MAX_U64
  }

  // Whatever is accepted has a sign, digits and a fraction to be read off.
  lemma AcceptedShape(s: string, d: nat) returns (plus: bool, i: string, f: string, pointed: bool)
    requires FixedOf(s, d).Some?
    ensures s == Text(plus, i, f, pointed) && i != "" && AllDigits(i) && (!pointed ==> f == "")
  {
    hide Pow10, Value, Shift;
    pointed := SplitJoins(s);
    var intPart := SplitPoint(s).0;
    f := SplitPoint(s).1;
    hide SplitPoint, Prefix;
    plus := intPart[0] == '+';
    i := if plus then intPart[1..] else intPart;
    assert intPart == (if plus then "+" else "") + i;
  }

  // The accepted strings, exactly: an optional plus sign, digits, and optionally a
  // point whose first d characters are digits, where 10^d and the floor fit u64.
  lemma AcceptedExactly(s: string, d: nat)
    ensures FixedOf(s, d).Some? <==> exists plus, i, f, pointed :: IsText(s, d, plus, i, f, pointed)
  {
    hide Pow10, FixedOf, Text, Floored;
    if FixedOf(s, d).Some? {
      var plus, i, f, pointed := AcceptedShape(s, d);
      ParsesText(plus, i, f, pointed, d);
      assert IsText(s, d, plus, i, f, pointed);
    }
    if exists plus, i, f, pointed :: IsText(s, d, plus, i, f, pointed) {
      var plus, i, f, pointed :| IsText(s, d, plus, i, f, pointed);
      ParsesText(plus, i, f, pointed, d);
    }
  }

  // Printing

  function Dec(n: nat): (s: string)
    ensures s != "" && AllDigits(s) && Value(s) == n
    ensures s == "0" || s[0] != '0'
  {
    if n < 10 then
      assert Value("") == 0 && [DigitChar(n)][..0] == "";
      [DigitChar(n)]
    else
      ValueSnoc(Dec(n / 10), DigitChar(n % 10));
      Dec(n / 10) + [DigitChar(n % 10)]
  }

  lemma {:induction false} DecLength(n: nat, w: nat)
    requires n < Pow10(w) && w > 0
    ensures |Dec(n)| <= w
  {
    if n >= 10 {
      DecLength(n / 10, w - 1);
    }
  }

  function Zeros(n: nat): (s: string)
    ensures |s| == n && AllDigits(s) && Value(s) == 0
  {
    if n == 0 then ""
    else
      ValueSnoc(Zeros(n - 1), '0');
      Zeros(n - 1) + "0"
  }

  // Zero-padded to at least w digits.
  function Padded(n: nat, w: nat): (s: string)
    ensures AllDigits(s) && Value(s) == n && |s| >= w
  {
    var s := Dec(n);
    if |s| < w then
      ValueConcat(Zeros(w - |s|), s);
      ShiftZero(|s|);
      Zeros(w - |s|) + s
    else s
  }

  function StripZeros(s: string): (t: string)
    ensures t <= s
    ensures t == "" || t[|t| - 1] != '0'
  {
    if s != "" && s[|s| - 1] == '0' then StripZeros(s[..|s| - 1]) else s
  }

  lemma {:induction false} StripKeepsValue(s: string)
    requires AllDigits(s)
    ensures AllDigits(StripZeros(s))
    ensures Value(s) == Shift(Value(StripZeros(s)), |s| - |StripZeros(s)|)
  {
    if s != "" && s[|s| - 1] == '0' {
      var front := s[..|s| - 1];
      StripKeepsValue(front);
    }
  }

  ghost function ScaledText(value: nat, digits: nat): string {
    if digits == 0 then Dec(value)
    else
      var scale := Pow10(digits);
      var frac := StripZeros(Padded(Remainder(value, scale), digits));
      if frac == "" then Dec(Quotient(value, scale)) else Dec(Quotient(value, scale)) + "." + frac
  }

  // Print a scaled integer as a decimal without trailing zeros.
  method FmtScaled(value: u128, digits: nat) returns (s: string)
    requires Pow10(digits) <= MAX_U128
    ensures s == ScaledText(value, digits)
  {
    if digits == 0 {
      return Dec(value);
    }
    var scale := Pow10(digits);
    var whole := Quotient(value, scale);
    var frac := Remainder(value, scale);
    var fracS := Padded(frac, digits);
    while fracS != "" && fracS[|fracS| - 1] == '0'
      invariant StripZeros(fracS) == StripZeros(Padded(frac, digits))
      decreases |fracS|
    {
      fracS := fracS[..|fracS| - 1];
    }
    s := if fracS == "" then Dec(whole) else Dec(whole) + "." + fracS;
  }

  lemma PaddedLength(n: nat, w: nat)
    requires n < Pow10(w) && w > 0
    ensures |Padded(n, w)| == w
  {
    DecLength(n, w);
  }

  // What is printed is a plain decimal of the same value, with no more fraction
  // digits than the scale, no zero in front or behind, and a point only where a
  // fraction follows.
  lemma PrintsPlain(value: nat, digits: nat) returns (i: string, f: string, pointed: bool)
    ensures i != "" && AllDigits(i) && AllDigits(f) && (pointed <==> f != "")
    ensures i == "0" || i[0] != '0'
    ensures f == "" || f[|f| - 1] != '0'
    ensures ScaledText(value, digits) == Plain(i, f, pointed)
    ensures |f| <= digits
    ensures Shift(Value(i), digits) + Shift(Value(f), digits - |f|) == value
  {
    if digits == 0 {
      i, f, pointed := Dec(value), "", false;
    } else {
      hide Pow10, Quotient, Remainder, Dec;
      var scale := Pow10(digits);
      var frac := Remainder(value, scale);
      var padded := Padded(frac, digits);
      DivMod(value, scale);
      ShiftIsTimes(Quotient(value, scale), digits);
      PaddedLength(frac, digits);
      StripKeepsValue(padded);
      i, f := Dec(Quotient(value, scale)), StripZeros(padded);
      pointed := f != "";
    }
  }

  // The round trip: the parser undoes the printer exactly for the scales whose
  // power of ten fits a u64.
  lemma ParseUndoesFmt(v: u64, digits: nat)
    ensures FixedOf(ScaledText(v, digits), digits) == Some(v) <==> digits <= 19
  {
    hide Pow10, Value, ScaledText, Shift, Quotient, FixedOf;
    Pow10Fits(digits);
    var i, f, pointed := PrintsPlain(v, digits);
    ParsesFloor(i, f, pointed, digits);
    CutIsFloor(i, f, digits);
  }
}
