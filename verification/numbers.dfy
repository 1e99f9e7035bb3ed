/** The number form of RFC 8785, section 3.2.2.3 (`es_number` in crates/core/src/jcs.rs).

    A finite float arrives as a decimal spelling: an optional sign, integer digits,
    fraction digits and a power of ten. `EsNumber` drops the zeros around the
    significant digits and places the point again. The placement keeps the number's
    value, and two spellings are placed alike exactly when they are the same number. */
module Numbers {
  import opened Wrappers

  type Digits = seq<char>

  predicate IsDigit(c: char) { '0' <= c <= '9' }
  predicate AreDigits(s: Digits) { forall i :: 0 <= i < |s| ==> IsDigit(s[i]) }

  function DigitOf(c: char): nat
    requires IsDigit(c)
  {
    c as int - '0' as int
  }

  function NatOf(s: Digits): nat
    requires AreDigits(s)
  {
    if s == [] then 0 else NatOf(s[..|s| - 1]) * 10 + DigitOf(s[|s| - 1])
  }

  function Zeros(k: nat): (s: Digits)
    ensures |s| == k && AreDigits(s)
  {
    seq(k, i => '0')
  }

  function DigitChar(d: nat): (c: char)
    requires d < 10
    ensures IsDigit(c) && DigitOf(c) == d
  {
    '0' + d as char
  }

  /** The usual decimal digits of a natural number. */
  function DigitsOf(n: nat): (s: Digits)
    ensures s != [] && AreDigits(s)
  {
    if n < 10 then [DigitChar(n)] else DigitsOf(n / 10) + [DigitChar(n % 10)]
  }

  lemma {:induction false} DigitsOfValue(n: nat)
    ensures NatOf(DigitsOf(n)) == n
    ensures n > 0 ==> DigitsOf(n)[0] != '0'
  {
    if n < 10 {
      assert DigitsOf(n)[..0] == [];
    } else {
      DigitsOfValue(n / 10);
      var front := DigitsOf(n / 10);
      assert DigitsOf(n)[..|front|] == front;
    }
  }

  // ------------------------------------------------------------- powers of ten

  function TenTo(k: nat): nat {
    if k == 0 then 1 else 10 * TenTo(k - 1)
  }

  /** Ten to any integer power. */
  function Pow10(e: int): real
    decreases if e < 0 then -e else e
  {
    if e == 0 then 1.0 else if e > 0 then 10.0 * Pow10(e - 1) else Pow10(e + 1) / 10.0
  }

  lemma {:induction false} Pow10Positive(e: int)
    ensures Pow10(e) > 0.0
    decreases if e < 0 then -e else e
  {
    if e > 0 { Pow10Positive(e - 1); } else if e < 0 { Pow10Positive(e + 1); }
  }

  lemma Pow10Step(e: int)
    ensures Pow10(e + 1) == 10.0 * Pow10(e)
  {
  }

  // ------------------------------------------------------------------ decimals

  /** `m` times ten to the `e`. */
  ghost function Scaled(m: nat, e: int): real {
    m as real * Pow10(e)
  }

  lemma ScaledSign(m: nat, e: int)
    ensures Scaled(m, e) >= 0.0
    ensures Scaled(m, e) == 0.0 <==> m == 0
  {
    Pow10Positive(e);
    ProductSign(m as real, Pow10(e));
  }

  lemma ProductSign(x: real, y: real)
    requires x >= 0.0 && y > 0.0
    ensures x == 0.0 ==> x * y == 0.0
    ensures x > 0.0 ==> x * y > 0.0
  {
  }

  lemma ScaledInjective(m: nat, n: nat, e: int)
    requires Scaled(m, e) == Scaled(n, e)
    ensures m == n
  {
    Pow10Positive(e);
    EqualProducts(m as real, n as real, Pow10(e));
  }

  lemma EqualProducts(x: real, y: real, p: real)
    requires p > 0.0 && x * p == y * p
    ensures x == y
  {
    assert (x - y) * p == 0.0;
    ProductSign(if x < y then y - x else x - y, p);
    assert (y - x) * p == 0.0;
  }

  lemma ScaledTen(m: nat, e: int)
    ensures Scaled(10 * m, e) == Scaled(m, e + 1)
  {
    Pow10Step(e);
    MoveTen(m as real, Pow10(e));
  }

  lemma MoveTen(x: real, p: real)
    ensures x * (10.0 * p) == (10.0 * x) * p
  {
  }

  lemma {:induction false} ScaledUp(m: nat, e: int, k: nat)
    ensures Scaled(m * TenTo(k), e) == Scaled(m, e + k)
    decreases k
  {
    hide Scaled;
    if k == 0 {
      TimesOne(m);
    } else {
      OneMoreTen(m, k - 1);
      ScaledTen(m * TenTo(k - 1), e);
      ScaledUp(m, e + 1, k - 1);
    }
  }

  lemma OneMoreTen(m: nat, k: nat)
    ensures m * TenTo(k + 1) == (m * TenTo(k)) * 10
  {
  }

  lemma TimesOne(m: nat)
    ensures m * TenTo(0) == m
  {
  }

  /** `mantissa` times ten to the `exp`, negated if `neg`. */
  datatype Decimal = Decimal(neg: bool, mantissa: nat, exp: int) {
    ghost function Value(): real {
      if neg then -Scaled(mantissa, exp) else Scaled(mantissa, exp)
    }
  }

  /** The one spelling of each number: zero is plain, no other mantissa ends in a zero. */
  predicate IsNormal(d: Decimal) {
    if d.mantissa == 0 then d == Decimal(false, 0, 0) else d.mantissa % 10 != 0
  }

  function Normal(d: Decimal): (r: Decimal)
    ensures IsNormal(r)
    decreases d.mantissa
  {
    if d.mantissa == 0 then Decimal(false, 0, 0)
    else if d.mantissa % 10 == 0 then Normal(Decimal(d.neg, d.mantissa / 10, d.exp + 1))
    else d
  }

  lemma {:induction false} NormalKeepsValue(d: Decimal)
    ensures Normal(d).Value() == d.Value()
    decreases d.mantissa
  {
    hide Scaled;
    if d.mantissa == 0 {
      ScaledSign(0, d.exp);
      ScaledSign(0, 0);
    } else if d.mantissa % 10 == 0 {
      NormalKeepsValue(Decimal(d.neg, d.mantissa / 10, d.exp + 1));
      ScaledTen(d.mantissa / 10, d.exp);
    }
  }

  /** Two normal decimals denote the same number only if they are the same decimal. */
  lemma NormalIsUnique(a: Decimal, b: Decimal)
    requires IsNormal(a) && IsNormal(b) && a.Value() == b.Value()
    ensures a == b
  {
    hide Scaled;
    ScaledSign(a.mantissa, a.exp);
    ScaledSign(b.mantissa, b.exp);
    if a.mantissa != 0 && b.mantissa != 0 {
      if a.exp <= b.exp {
        SameScale(a.mantissa, a.exp, b.mantissa, b.exp);
      } else {
        SameScale(b.mantissa, b.exp, a.mantissa, a.exp);
      }
    }
  }

  lemma SameScale(m: nat, e: int, n: nat, f: int)
    requires m % 10 != 0 && e <= f && Scaled(m, e) == Scaled(n, f)
    ensures m == n && e == f
  {
    hide Scaled, TenTo;
    var k := f - e;
    ScaledUp(n, e, k);
    ScaledInjective(m, n * TenTo(k), e);
    if k > 0 {
      OneMoreTen(n, k - 1);
      EndsInZero(n * TenTo(k - 1));
    } else {
      TimesOne(n);
    }
  }

  lemma EndsInZero(x: nat)
    ensures (x * 10) % 10 == 0
  {
  }

  lemma TimesTen(m: nat, t: nat)
    ensures m * (10 * t) % 10 == 0
  {
    assert m * (10 * t) == 10 * (m * t);
  }

  // ----------------------------------------------------------------- spellings

  /** What the float printer hands over: the parts of `[-]D[.D][e[-]D]`. */
  datatype Spelling = Spelling(neg: bool, intPart: Digits, fracPart: Digits, exp: int) {
    predicate Valid() { AreDigits(intPart) && AreDigits(fracPart) }

    function Denoted(): Decimal
      requires Valid()
    {
      Decimal(neg, NatOf(intPart + fracPart), exp - |fracPart|)
    }
  }

  function TrimStart(s: Digits): Digits {
    if s != [] && s[0] == '0' then TrimStart(s[1..]) else s
  }

  function TrimEnd(s: Digits): Digits {
    if s != [] && s[|s| - 1] == '0' then TrimEnd(s[..|s| - 1]) else s
  }

  function ExponentText(e: int): (r: string)
    ensures r != ""
  {
    if e >= 0 then "e+" + DigitsOf(e) else "e-" + DigitsOf(-e)
  }

  /** The placement: `s` significant digits, the point after the first `n` of them. */
  function Place(s: Digits, n: int): string
    requires s != []
  {
    var k := |s|;
    if k <= n && n <= 21 then s + Zeros(n - k)
    else if 0 < n && n <= 21 then s[..n] + "." + s[n..]
    else if -6 < n && n <= 0 then "0." + Zeros(-n) + s
    else if k == 1 then s + ExponentText(n - 1)
    else s[..1] + "." + s[1..] + ExponentText(n - 1)
  }

  function EsNumber(sp: Spelling): string
    requires sp.Valid()
  {
    var raw := sp.intPart + sp.fracPart;
    if NatOf(raw) == 0 then "0"
    else
      var body := TrimStart(raw);
      var s := TrimEnd(body);
      var n := |sp.intPart| + sp.exp - (|raw| - |body|);
      TrimStartValue(raw);
      TrimEndValue(body);
      Sign(sp.neg) + Place(s, n)
  }

  lemma {:induction false} NatOfFront(c: char, s: Digits)
    requires IsDigit(c) && AreDigits(s)
    ensures NatOf([c] + s) == DigitOf(c) * TenTo(|s|) + NatOf(s)
  {
    if s == [] {
      assert [c] + s == [c] && [c][..0] == [];
    } else {
      var front, last := s[..|s| - 1], s[|s| - 1];
      NatOfFront(c, front);
      assert ([c] + s)[..|s|] == [c] + front;
      assert (DigitOf(c) * TenTo(|front|)) * 10 == DigitOf(c) * TenTo(|s|);
    }
  }

  /** Dropping leading zeros does not change a digit string's value. */
  lemma {:induction false} TrimStartValue(s: Digits)
    requires AreDigits(s)
    ensures |TrimStart(s)| <= |s| && AreDigits(TrimStart(s))
    ensures NatOf(TrimStart(s)) == NatOf(s)
    ensures TrimStart(s) != [] ==> TrimStart(s)[0] != '0'
    ensures NatOf(s) > 0 ==> TrimStart(s) != []
  {
    if s != [] && s[0] == '0' {
      TrimStartValue(s[1..]);
      NatOfFront('0', s[1..]);
      assert ['0'] + s[1..] == s;
    }
  }

  lemma {:induction false} TrimEndShape(s: Digits)
    requires AreDigits(s)
    ensures TrimEnd(s) <= s && AreDigits(TrimEnd(s))
    ensures TrimEnd(s) != [] ==> TrimEnd(s)[|TrimEnd(s)| - 1] != '0'
  {
    if s != [] && s[|s| - 1] == '0' {
      TrimEndShape(s[..|s| - 1]);
    }
  }

  /** Dropping trailing zeros divides it by as many tens, and keeps the first digit. */
  lemma {:induction false} TrimEndValue(s: Digits)
    requires AreDigits(s)
    ensures TrimEnd(s) <= s && AreDigits(TrimEnd(s))
    ensures NatOf(s) == NatOf(TrimEnd(s)) * TenTo(|s| - |TrimEnd(s)|)
    ensures NatOf(s) > 0 ==> TrimEnd(s) != [] && NatOf(TrimEnd(s)) % 10 != 0
  {
    TrimEndShape(s);
    if s != [] && s[|s| - 1] == '0' {
      var front := s[..|s| - 1];
      TrimEndValue(front);
      OneMoreTen(NatOf(TrimEnd(front)), |front| - |TrimEnd(front)|);
    } else if s != [] {
      LastDigit(NatOf(s[..|s| - 1]), DigitOf(s[|s| - 1]));
      TimesOne(NatOf(s));
    }
  }

  lemma LastDigit(x: nat, d: nat)
    requires 0 < d < 10
    ensures (x * 10 + d) % 10 != 0
  {
  }

  /** The significant digits and point of a nonzero spelling, and what they denote. */
  lemma SignificantDigits(sp: Spelling)
    requires sp.Valid() && sp.Denoted().mantissa != 0
    ensures var raw := sp.intPart + sp.fracPart;
            var body := TrimStart(raw);
            var s := TrimEnd(body);
            var n := |sp.intPart| + sp.exp - (|raw| - |body|);
            && s != [] && AreDigits(s) && s[0] != '0' && NatOf(s) % 10 != 0
            && Normal(sp.Denoted()) == Decimal(sp.neg, NatOf(s), n - |s|)
  {
    var raw := sp.intPart + sp.fracPart;
    TrimStartValue(raw);
    TrimEndValue(TrimStart(raw));
    var s := TrimEnd(TrimStart(raw));
    NormalDropsTens(sp.neg, NatOf(s), |TrimStart(raw)| - |s|, sp.exp - |sp.fracPart|);
  }

  lemma {:induction false} NormalDropsTens(neg: bool, m: nat, k: nat, e: int)
    requires m % 10 != 0
    ensures Normal(Decimal(neg, m * TenTo(k), e)) == Decimal(neg, m, e + k)
    decreases k
  {
    if k == 0 {
      assert m * TenTo(0) == m;
    } else {
      var t := TenTo(k - 1);
      TimesTen(m, t);
      assert m * TenTo(k) == 10 * (m * t);
      assert m * t > 0 by { TenToPositive(k - 1); }
      NormalDropsTens(neg, m, k - 1, e + 1);
    }
  }

  lemma {:induction false} TenToPositive(k: nat)
    ensures TenTo(k) > 0
  {
    if k > 0 { TenToPositive(k - 1); }
  }

  /** A digit string without leading zeros is the usual digits of its value. */
  lemma {:induction false} DigitsAreUnique(s: Digits)
    requires AreDigits(s) && s != [] && s[0] != '0'
    ensures NatOf(s) > 0 && s == DigitsOf(NatOf(s))
  {
    var front := s[..|s| - 1];
    if front == [] {
      assert NatOf(s) == DigitOf(s[0]);
      assert s == [s[0]];
    } else {
      DigitsAreUnique(front);
      assert s == front + [s[|s| - 1]];
    }
  }

  /** `EsNumber` is a function of the number alone: it is the placement of the normal
      decimal's digits. */
  function NormalText(d: Decimal): string {
    if d.mantissa == 0 then "0"
    else
      var s := DigitsOf(d.mantissa);
      Sign(d.neg) + Place(s, d.exp + |s|)
  }

  lemma EsNumberIsNormalText(sp: Spelling)
    requires sp.Valid()
    ensures EsNumber(sp) == NormalText(Normal(sp.Denoted()))
  {
    hide TrimStart, TrimEnd, DigitsOf, Place, NatOf;
    if sp.Denoted().mantissa != 0 {
      SignificantDigits(sp);
      DigitsAreUnique(TrimEnd(TrimStart(sp.intPart + sp.fracPart)));
    }
  }

  // --------------------------------------------------------------- reading back

  function Span(t: string): (r: (string, string))
    ensures AreDigits(r.0)
  {
    if t != [] && IsDigit(t[0]) then
      var (d, rest) := Span(t[1..]);
      ([t[0]] + d, rest)
    else ([], t)
  }

  ghost predicate Stops(rest: string) {
    rest == [] || !IsDigit(rest[0])
  }

  lemma {:induction false} SpanOf(d: Digits, rest: string)
    requires AreDigits(d) && Stops(rest)
    ensures Span(d + rest) == (d, rest)
  {
    if d == [] {
      assert d + rest == rest;
    } else {
      assert (d + rest)[1..] == d[1..] + rest;
      SpanOf(d[1..], rest);
      assert d == [d[0]] + d[1..];
    }
  }

  function ReadFraction(t: string): (r: (string, string))
    ensures AreDigits(r.0)
  {
    if t != [] && t[0] == '.' then Span(t[1..]) else ([], t)
  }

  function ReadExponent(t: string): (int, string) {
    if |t| > 1 && t[0] == 'e' && (t[1] == '+' || t[1] == '-') then
      var (d, rest) := Span(t[2..]);
      var m: int := NatOf(d);
      (if t[1] == '+' then m else -m, rest)
    else (0, t)
  }

  function ReadSign(t: string): (bool, string) {
    if t != [] && t[0] == '-' then (true, t[1..]) else (false, t)
  }

  /** Reads a JSON number: the normal decimal it denotes. */
  function ReadNumber(t: string): Parsed<Decimal> {
    ReadUnsigned(ReadSign(t).0, ReadSign(t).1)
  }

  function ReadUnsigned(neg: bool, t: string): Parsed<Decimal> {
    var i := Span(t);
    var f := ReadFraction(i.1);
    var e := ReadExponent(f.1);
    if i.0 == [] then Fail else Got(Normal(Decimal(neg, NatOf(i.0 + f.0), e.0 - |f.0|)), e.1)
  }

  /** What may follow a number without running into it. */
  ghost predicate EndsNumber(rest: string) {
    rest == [] || (!IsDigit(rest[0]) && rest[0] != '.' && rest[0] != 'e')
  }

  lemma {:induction false} NatOfZerosAfter(s: Digits, k: nat)
    requires AreDigits(s)
    ensures NatOf(s + Zeros(k)) == NatOf(s) * TenTo(k)
  {
    var t := s + Zeros(k);
    if k == 0 {
      assert t == s;
      TimesOne(NatOf(s));
    } else {
      assert t[..|t| - 1] == s + Zeros(k - 1);
      NatOfZerosAfter(s, k - 1);
      OneMoreTen(NatOf(s), k - 1);
    }
  }

  lemma {:induction false} NatOfZerosBefore(s: Digits, k: nat)
    requires AreDigits(s)
    ensures NatOf(Zeros(k) + s) == NatOf(s)
  {
    if k == 0 {
      assert Zeros(0) + s == s;
    } else {
      assert Zeros(k) + s == ['0'] + (Zeros(k - 1) + s);
      NatOfFront('0', Zeros(k - 1) + s);
      NatOfZerosBefore(s, k - 1);
    }
  }

  function Sign(neg: bool): string { if neg then "-" else "" }

  function PointAnd(fp: Digits): string { if fp == [] then "" else "." + fp }

  /** A number text from its parts. */
  function Printed(neg: bool, ip: Digits, fp: Digits, exp: string): string {
    Sign(neg) + (ip + (PointAnd(fp) + exp))
  }

  lemma ReadsExponent(e: int, rest: string)
    requires EndsNumber(rest)
    ensures ReadExponent(ExponentText(e) + rest) == (e, rest)
  {
    var m := if e >= 0 then e else -e;
    var d := DigitsOf(m);
    DigitsOfValue(m);
    SpanOf(d, rest);
    ReadsSignedExponent(e, d, rest);
  }

  lemma ReadsSignedExponent(e: int, d: Digits, rest: string)
    requires AreDigits(d) && d == DigitsOf(if e >= 0 then e else -e) && Span(d + rest) == (d, rest)
    requires NatOf(d) == if e >= 0 then e else -e
    ensures ReadExponent(ExponentText(e) + rest) == (e, rest)
  {
    hide DigitsOf, NatOf, Span;
    var t := ExponentText(e) + rest;
    if e >= 0 {
      assert t == "e+" + (d + rest);
    } else {
      assert t == "e-" + (d + rest);
    }
    assert t[2..] == d + rest;
  }

  lemma ReadsFraction(fp: Digits, tail: string)
    requires AreDigits(fp) && Stops(tail) && (tail == [] || tail[0] != '.')
    ensures ReadFraction(PointAnd(fp) + tail) == (fp, tail) && Stops(PointAnd(fp) + tail)
  {
    if fp == [] {
      assert PointAnd(fp) + tail == tail;
    } else {
      var t := PointAnd(fp) + tail;
      assert t[1..] == fp + tail;
      SpanOf(fp, tail);
    }
  }

  /** Reading a printed number: its digits, wherever the point was put. */
  lemma ReadsPrinted(neg: bool, ip: Digits, fp: Digits, e: int, exp: string, rest: string)
    requires AreDigits(ip) && AreDigits(fp) && ip != [] && EndsNumber(rest)
    requires if exp == "" then e == 0 else exp == ExponentText(e)
    ensures ReadNumber(Printed(neg, ip, fp, exp) + rest) == Got(Normal(Decimal(neg, NatOf(ip + fp), e - |fp|)), rest)
  {
    if exp == "" {
      assert exp + rest == rest;
    } else {
      assert exp[0] == 'e';
      ReadsExponent(e, rest);
    }
    ReadsFraction(fp, exp + rest);
    SpanOf(ip, PointAnd(fp) + (exp + rest));
    ReadsSpans(neg, ip, fp, e, exp, rest);
  }

  lemma AfterSign(neg: bool, ip: Digits, fp: Digits, exp: string, rest: string)
    requires AreDigits(ip) && ip != []
    ensures ReadSign(Printed(neg, ip, fp, exp) + rest) == (neg, ip + (PointAnd(fp) + (exp + rest)))
  {
    hide PointAnd;
    var f := PointAnd(fp);
    var t, body := Printed(neg, ip, fp, exp) + rest, ip + (f + (exp + rest));
    assert t == Sign(neg) + body;
    if neg {
      assert t[1..] == body;
    } else {
      assert t == body && t[0] == ip[0];
    }
  }

  lemma ReadsSpans(neg: bool, ip: Digits, fp: Digits, e: int, exp: string, rest: string)
    requires AreDigits(ip) && AreDigits(fp) && ip != []
    requires ReadExponent(exp + rest) == (e, rest)
    requires ReadFraction(PointAnd(fp) + (exp + rest)) == (fp, exp + rest)
    requires Span(ip + (PointAnd(fp) + (exp + rest))) == (ip, PointAnd(fp) + (exp + rest))
    ensures ReadNumber(Printed(neg, ip, fp, exp) + rest) == Got(Normal(Decimal(neg, NatOf(ip + fp), e - |fp|)), rest)
  {
    hide ReadSign, ReadExponent, ReadFraction, Span, NatOf, Normal, Printed, PointAnd;
    AfterSign(neg, ip, fp, exp, rest);
  }

  // Each of the four placements reads back as the decimal that was placed.

  ghost predicate Significant(s: Digits) {
    AreDigits(s) && s != [] && NatOf(s) % 10 != 0
  }

  lemma WholeText(neg: bool, s: Digits, n: int)
    requires s != [] && |s| <= n <= 21
    ensures Sign(neg) + Place(s, n) == Printed(neg, s + Zeros(n - |s|), [], "")
  {
    var ip := s + Zeros(n - |s|);
    assert ip + (PointAnd([]) + "") == ip;
  }

  lemma PointInsideText(neg: bool, s: Digits, n: int)
    requires 0 < n <= 21 && n < |s|
    ensures Sign(neg) + Place(s, n) == Printed(neg, s[..n], s[n..], "")
  {
    assert s[..n] + (PointAnd(s[n..]) + "") == s[..n] + "." + s[n..];
  }

  lemma LeadingZerosText(neg: bool, s: Digits, n: int)
    requires s != [] && -6 < n <= 0
    ensures Sign(neg) + Place(s, n) == Printed(neg, "0", Zeros(-n) + s, "")
  {
    assert "0" + (PointAnd(Zeros(-n) + s) + "") == "0." + Zeros(-n) + s;
  }

  lemma ExponentForm(neg: bool, s: Digits, n: int)
    requires s != [] && (n > 21 || n <= -6)
    ensures Sign(neg) + Place(s, n) == Printed(neg, s[..1], s[1..], ExponentText(n - 1))
  {
    hide ExponentText;
    var e := ExponentText(n - 1);
    if |s| == 1 {
      assert s[1..] == [] && s[..1] == s;
      assert "" + e == e;
    } else {
      assert s[..1] + (("." + s[1..]) + e) == s[..1] + "." + s[1..] + e;
    }
  }

  lemma WholeReadsBack(neg: bool, s: Digits, n: int, rest: string)
    requires Significant(s) && EndsNumber(rest) && |s| <= n <= 21
    ensures ReadNumber(Sign(neg) + Place(s, n) + rest) == Got(Decimal(neg, NatOf(s), n - |s|), rest)
  {
    hide Place, Printed, ReadNumber, Normal, NatOf, Sign;
    var k := n - |s|;
    WholeText(neg, s, n);
    NatOfZerosAfter(s, k);
    NormalDropsTens(neg, NatOf(s), k, 0);
    assert s + Zeros(k) + [] == s + Zeros(k);
    ReadsPrinted(neg, s + Zeros(k), [], 0, "", rest);
  }

  lemma PointInsideReadsBack(neg: bool, s: Digits, n: int, rest: string)
    requires Significant(s) && EndsNumber(rest) && 0 < n <= 21 && n < |s|
    ensures ReadNumber(Sign(neg) + Place(s, n) + rest) == Got(Decimal(neg, NatOf(s), n - |s|), rest)
  {
    hide Place, Printed, ReadNumber, NatOf, Sign;
    assert s[..n] + s[n..] == s;
    PointInsideText(neg, s, n);
    ReadsPrinted(neg, s[..n], s[n..], 0, "", rest);
  }

  lemma LeadingZerosReadsBack(neg: bool, s: Digits, n: int, rest: string)
    requires Significant(s) && EndsNumber(rest) && -6 < n <= 0
    ensures ReadNumber(Sign(neg) + Place(s, n) + rest) == Got(Decimal(neg, NatOf(s), n - |s|), rest)
  {
    hide Place, Printed, ReadNumber, NatOf, Sign;
    assert Zeros(1 - n) + s == "0" + (Zeros(-n) + s);
    hide Zeros;
    NatOfZerosBefore(s, 1 - n);
    LeadingZerosText(neg, s, n);
    ReadsPrinted(neg, "0", Zeros(-n) + s, 0, "", rest);
  }

  lemma ExponentReadsBack(neg: bool, s: Digits, n: int, rest: string)
    requires Significant(s) && EndsNumber(rest) && (n > 21 || n <= -6)
    ensures ReadNumber(Sign(neg) + Place(s, n) + rest) == Got(Decimal(neg, NatOf(s), n - |s|), rest)
  {
    hide Place, Printed, ReadNumber, NatOf, Sign, ExponentText;
    assert s[..1] + s[1..] == s;
    ExponentForm(neg, s, n);
    ReadsPrinted(neg, s[..1], s[1..], n - 1, ExponentText(n - 1), rest);
  }

  lemma PlacedReadsBack(d: Decimal, rest: string)
    requires IsNormal(d) && d.mantissa != 0 && EndsNumber(rest)
    ensures ReadNumber(NormalText(d) + rest) == Got(d, rest)
  {
    var s := DigitsOf(d.mantissa);
    DigitsOfValue(d.mantissa);
    var n := d.exp + |s|;
    hide Place, ReadNumber, DigitsOf, NatOf, EndsNumber;
    if |s| <= n && n <= 21 {
      WholeReadsBack(d.neg, s, n, rest);
    } else if 0 < n && n <= 21 {
      PointInsideReadsBack(d.neg, s, n, rest);
    } else if -6 < n && n <= 0 {
      LeadingZerosReadsBack(d.neg, s, n, rest);
    } else {
      ExponentReadsBack(d.neg, s, n, rest);
    }
  }

  lemma ZeroReadsBack(rest: string)
    requires EndsNumber(rest)
    ensures ReadNumber("0" + rest) == Got(Decimal(false, 0, 0), rest)
  {
    assert "0"[..0] == [];
    assert NatOf("0") == 0;
    assert "0" + [] == "0";
    ReadsPrinted(false, "0", [], 0, "", rest);
    assert Printed(false, "0", [], "") == "0";
  }

  lemma TextReadsBack(d: Decimal, rest: string)
    requires IsNormal(d) && EndsNumber(rest)
    ensures ReadNumber(NormalText(d) + rest) == Got(d, rest)
  {
    if d.mantissa == 0 {
      ZeroReadsBack(rest);
    } else {
      PlacedReadsBack(d, rest);
    }
  }

  /** `EsNumber` keeps the number: its text reads back as exactly the value spelled, in
      each of the four placements. */
  lemma EsNumberKeepsValue(sp: Spelling)
    requires sp.Valid()
    ensures var r := ReadNumber(EsNumber(sp));
            r.Got? && r.rest == "" && r.value.Value() == sp.Denoted().Value()
  {
    var d := Normal(sp.Denoted());
    EsNumberIsNormalText(sp);
    TextReadsBack(d, "");
    assert NormalText(d) + "" == NormalText(d);
    NormalKeepsValue(sp.Denoted());
  }

  /** ... and it is a normal form: two spellings print alike if and only if they spell the
      same number. */
  lemma EsNumberIsCanonical(a: Spelling, b: Spelling)
    requires a.Valid() && b.Valid()
    ensures EsNumber(a) == EsNumber(b) <==> a.Denoted().Value() == b.Denoted().Value()
  {
    if a.Denoted().Value() == b.Denoted().Value() {
      EsNumberIsNormalText(a);
      EsNumberIsNormalText(b);
      NormalKeepsValue(a.Denoted());
      NormalKeepsValue(b.Denoted());
      NormalIsUnique(Normal(a.Denoted()), Normal(b.Denoted()));
    }
    if EsNumber(a) == EsNumber(b) {
      EsNumberKeepsValue(a);
      EsNumberKeepsValue(b);
    }
  }

  // -------------------------------------------------------- which form is printed

  lemma {:induction false} Pow10Rises(a: int, b: int)
    requires a <= b
    ensures Pow10(a) <= Pow10(b)
    decreases b - a
  {
    if a < b {
      Pow10Rises(a, b - 1);
      Pow10Step(b - 1);
      Pow10Positive(b - 1);
    }
  }

  /** A number of `k` digits lies between two powers of ten. */
  lemma {:induction false} DigitsBound(m: nat)
    requires m > 0
    ensures var k := |DigitsOf(m)|; k > 0 && TenTo(k - 1) <= m < TenTo(k)
  {
    if m >= 10 { DigitsBound(m / 10); }
  }

  lemma ScaledMore(m: nat, n: nat, e: int)
    requires m <= n
    ensures Scaled(m, e) <= Scaled(n, e)
    ensures m < n ==> Scaled(m, e) < Scaled(n, e)
  {
    Pow10Positive(e);
    ProductSign((n - m) as real, Pow10(e));
  }

  lemma TenToScaled(k: nat, e: int)
    ensures Scaled(TenTo(k), e) == Pow10(e + k)
  {
    ScaledUp(1, e, k);
  }

  /** The point of a normal decimal stands after its `n`-th digit: ten to the `n` is the first
      power of ten above it. */
  lemma PointIsWhere(d: Decimal)
    requires d.mantissa > 0
    ensures var n := d.exp + |DigitsOf(d.mantissa)|;
            Pow10(n - 1) <= Scaled(d.mantissa, d.exp) < Pow10(n)
  {
    hide Scaled, Pow10, TenTo, DigitsOf;
    var k := |DigitsOf(d.mantissa)|;
    DigitsBound(d.mantissa);
    TenToScaled(k - 1, d.exp);
    TenToScaled(k, d.exp);
    ScaledMore(TenTo(k - 1), d.mantissa, d.exp);
    ScaledMore(d.mantissa, TenTo(k), d.exp);
  }

  predicate HasExponent(t: string) { 'e' in t }

  lemma DigitsHaveNone(s: Digits)
    ensures AreDigits(s) ==> 'e' !in s && '.' !in s && '-' !in s
  {
  }

  /** The form of a placement: in exponent form, which names the sign of the exponent, one digit
      stands before the point; otherwise the point stands after the `n`-th digit, with zeros put
      where digits are missing, and there is none behind a whole number. */
  ghost predicate IsPlaced(t: string, k: nat, n: int) {
    if n > 21 || n <= -6 then
      && |t| > k > 0 && (if k == 1 then t[1] == 'e' else t[1] == '.' && |t| > k + 1 && t[k + 1] == 'e')
      && ("e+" <= t[if k == 1 then 1 else k + 1..] <==> n > 21) && ("e-" <= t[if k == 1 then 1 else k + 1..] <==> n <= -6)
    else if n <= 0 then |t| == k + 2 - n && t[0] == '0' && t[1] == '.' && forall i :: 2 <= i < 2 - n ==> t[i] == '0'
    else if k > n then |t| == k + 1 && t[n] == '.'
    else |t| == n && '.' !in t && forall i :: k <= i < n ==> t[i] == '0'
  }

  lemma PlaceIsPlaced(s: Digits, n: int)
    requires AreDigits(s) && s != []
    ensures HasExponent(Place(s, n)) <==> n > 21 || n <= -6
    ensures IsPlaced(Place(s, n), |s|, n)
    ensures Place(s, n) != "" && Place(s, n)[0] != '-'
  {
    hide Place, IsPlaced, AreDigits, HasExponent;
    if n > 21 || n <= -6 {
      ExponentIsPlaced(s, n);
    } else if n <= 0 {
      SmallIsPlaced(s, n);
    } else if n < |s| {
      MiddleIsPlaced(s, n);
    } else {
      WholeIsPlaced(s, n);
    }
  }

  lemma ExponentIsPlaced(s: Digits, n: int)
    requires AreDigits(s) && s != [] && (n > 21 || n <= -6)
    ensures HasExponent(Place(s, n)) && IsPlaced(Place(s, n), |s|, n) && Place(s, n) != "" && Place(s, n)[0] != '-'
  {
    hide DigitsOf, ExponentText;
    ExponentIs(n - 1);
    var t, e := Place(s, n), ExponentText(n - 1);
    if |s| == 1 {
      assert t == s + e && t[1..] == e && t[1] == e[0];
    } else {
      assert t == s[..1] + "." + s[1..] + e && t[|s| + 1..] == e && t[|s| + 1] == e[0];
    }
  }

  lemma SmallIsPlaced(s: Digits, n: int)
    requires AreDigits(s) && s != [] && -6 < n <= 0
    ensures !HasExponent(Place(s, n)) && IsPlaced(Place(s, n), |s|, n) && Place(s, n) != "" && Place(s, n)[0] != '-'
  {
    hide DigitsOf;
    DigitsHaveNone(s);
    DigitsHaveNone(Zeros(-n));
  }

  lemma MiddleIsPlaced(s: Digits, n: int)
    requires AreDigits(s) && 0 < n < |s| && n <= 21
    ensures !HasExponent(Place(s, n)) && IsPlaced(Place(s, n), |s|, n) && Place(s, n) != "" && Place(s, n)[0] != '-'
  {
    hide DigitsOf;
    DigitsHaveNone(s[..n]);
    DigitsHaveNone(s[n..]);
  }

  lemma WholeIsPlaced(s: Digits, n: int)
    requires AreDigits(s) && s != [] && |s| <= n <= 21
    ensures !HasExponent(Place(s, n)) && IsPlaced(Place(s, n), |s|, n) && Place(s, n) != "" && Place(s, n)[0] != '-'
  {
    hide DigitsOf;
    DigitsHaveNone(s);
    DigitsHaveNone(Zeros(n - |s|));
  }

  lemma ExponentIs(e: int)
    ensures var t := ExponentText(e); |t| > 2 && t[0] == 'e' && t[1] == (if e >= 0 then '+' else '-')
    ensures "e+" <= ExponentText(e) <==> e >= 0
    ensures "e-" <= ExponentText(e) <==> e < 0
  {
    hide DigitsOf;
  }

  /** Which form a number is printed in, by its size alone, and where its point stands: the
      exponent form from 10^21 on and below 10^-6. */
  lemma FormOfNumber(sp: Spelling) returns (k: nat, n: int)
    requires sp.Valid() && sp.Denoted().mantissa != 0
    ensures var t, v := EsNumber(sp), Scaled(sp.Denoted().mantissa, sp.Denoted().exp);
            && Pow10(n - 1) <= v < Pow10(n)
            && (HasExponent(t) <==> v >= Pow10(21) || v < Pow10(-6))
            && t != "" && (t[0] == '-' <==> sp.neg)
            && k == |DigitsOf(Normal(sp.Denoted()).mantissa)|
            && IsPlaced(if sp.neg then t[1..] else t, k, n)
  {
    hide Scaled, Pow10, DigitsOf, Place, IsPlaced, NatOf, EsNumber, Normal;
    var d := Normal(sp.Denoted());
    EsNumberIsNormalText(sp);
    NormalKeepsSign(sp.Denoted());
    var s := DigitsOf(d.mantissa);
    k, n := |s|, d.exp + |s|;
    PointIsWhere(d);
    PlaceIsPlaced(s, n);
    Pow10Rises(21, if n > 21 then n - 1 else 21);
    Pow10Rises(if n > 21 then 21 else n, 21);
    Pow10Rises(if n <= -6 then n else -6, -6);
    Pow10Rises(-6, if n <= -6 then -6 else n - 1);
    assert ("-" + Place(s, n))[1..] == Place(s, n) && "" + Place(s, n) == Place(s, n);
  }

  /** Dropping tens keeps the sign and the size. */
  lemma {:induction false} NormalKeepsSign(d: Decimal)
    requires d.mantissa != 0
    ensures Normal(d).neg == d.neg && Normal(d).mantissa != 0
    ensures Scaled(Normal(d).mantissa, Normal(d).exp) == Scaled(d.mantissa, d.exp)
    decreases d.mantissa
  {
    hide Scaled;
    if d.mantissa % 10 == 0 {
      NormalKeepsSign(Decimal(d.neg, d.mantissa / 10, d.exp + 1));
      ScaledTen(d.mantissa / 10, d.exp);
    }
  }
}
