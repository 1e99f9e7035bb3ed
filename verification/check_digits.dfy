/** The check digits of crates/core/src/dlp.rs: the IBAN remainder, taken piece by piece,
    against the whole number modulo 97, the Luhn sum, and which slips of the pen each of
    them notices. */
module CheckDigits {
  import opened Numbers
  import opened Wrappers

  predicate IsUpper(c: char) { 'A' <= c <= 'Z' }
  predicate IsLower(c: char) { 'a' <= c <= 'z' }

  /** The value of a digit in base 36, letters of either case. */
  function Base36(c: char): (v: Option<nat>)
    ensures v.Some? ==> v.value < 36 && (v.value < 10 <==> IsDigit(c))
  {
    if IsDigit(c) then Some(DigitOf(c))
    else if IsUpper(c) then Some(c as int - 'A' as int + 10)
    else if IsLower(c) then Some(c as int - 'a' as int + 10)
    else None
  }

  /** The letters go on from the digits, in either case. */
  lemma LettersAreDigits(d: nat)
    requires d < 26
    ensures Base36('A' + d as char) == Base36('a' + d as char) == Some(10 + d)
    ensures d < 10 ==> Base36('0' + d as char) == Some(d)
  {
  }

  predicate IsBase36(s: string) { forall i :: 0 <= i < |s| ==> Base36(s[i]).Some? }

  function ValueOf(c: char): (v: nat)
    requires Base36(c).Some?
    ensures v < 36 && (v < 10 <==> IsDigit(c))
  {
    Base36(c).value
  }

  // ----------------------------------------------------------------- the IBAN check

  /** Every letter written out as its two digits. */
  function Expanded(s: string): (d: Digits)
    requires IsBase36(s)
    ensures AreDigits(d)
  {
    if s == [] then [] else Expanded(s[..|s| - 1]) + DigitsOf(ValueOf(s[|s| - 1]))
  }

  function Rearranged(compact: string): string
    requires |compact| >= 4
  {
    compact[4..] + compact[..4]
  }

  /** What the check is to say: the whole rearranged number modulo 97 is 1. */
  predicate IsIban(compact: string)
    requires |compact| >= 4
  {
    IsBase36(Rearranged(compact)) && NatOf(Expanded(Rearranged(compact))) % 97 == 1
  }

  function Shift(v: nat): nat { if v < 10 then 10 else 100 }

  function Step(rem: nat, v: nat): (r: nat)
    ensures r < 97
  {
    (rem * Shift(v) + v) % 97
  }

  /** The remainder, character by character. */
  function Rem(s: string): (r: nat)
    requires IsBase36(s)
    ensures r < 97
  {
    if s == [] then 0 else Step(Rem(s[..|s| - 1]), ValueOf(s[|s| - 1]))
  }

  /** No length overflows, and none changes the remainder: taken piece by piece it is that
      of the whole number. */
  lemma {:induction false} RemIsWhole(s: string)
    requires IsBase36(s)
    ensures Rem(s) == NatOf(Expanded(s)) % 97
  {
    if s != [] {
      hide DigitsOf;
      var front, v := s[..|s| - 1], ValueOf(s[|s| - 1]);
      RemIsWhole(front);
      AppendedDigits(Expanded(front), v);
      StepIsWhole(NatOf(Expanded(front)), v);
    }
  }

  lemma AppendedDigits(d: Digits, v: nat)
    requires AreDigits(d) && v < 36
    ensures NatOf(d + DigitsOf(v)) == NatOf(d) * Shift(v) + v
  {
    if v < 10 {
      assert (d + [DigitChar(v)])[..|d|] == d;
    } else {
      var e := d + [DigitChar(v / 10)];
      assert DigitsOf(v) == [DigitChar(v / 10), DigitChar(v % 10)];
      assert d + DigitsOf(v) == e + [DigitChar(v % 10)];
      assert (e + [DigitChar(v % 10)])[..|e|] == e && e[..|d|] == d;
    }
  }

  lemma StepIsWhole(n: nat, v: nat)
    requires v < 36
    ensures Step(n % 97, v) == (n * Shift(v) + v) % 97
  {
    assert n == 97 * (n / 97) + n % 97;
    if v < 10 {
      assert n * 10 + v == 97 * (10 * (n / 97)) + (n % 97 * 10 + v);
      SameRemainder(10 * (n / 97), n % 97 * 10 + v);
    } else {
      assert n * 100 + v == 97 * (100 * (n / 97)) + (n % 97 * 100 + v);
      SameRemainder(100 * (n / 97), n % 97 * 100 + v);
    }
  }

  lemma SameRemainder(q: nat, r: nat)
    ensures (97 * q + r) % 97 == r % 97
  {
  }

  method IbanChecksumHolds(compact: string) returns (holds: bool)
    requires |compact| >= 4
    ensures holds <==> IsIban(compact)
  {
    hide Expanded, NatOf, Rem, IsBase36, Rearranged;
    var rearranged := Rearranged(compact);
    var rem := 0;
    NothingRemains(rearranged);
    for i := 0 to |rearranged|
      invariant IsBase36(rearranged[..i]) && rem == Rem(rearranged[..i])
    {
      var v := Base36(rearranged[i]);
      NextCharacter(rearranged, i);
      if v.None? {
        return false;
      }
      rem := if v.value < 10 then (rem * 10 + v.value) % 97 else (rem * 100 + v.value) % 97;
    }
    assert rearranged[..|rearranged|] == rearranged;
    RemIsWhole(rearranged);
    holds := rem == 1;
  }

  lemma NothingRemains(s: string)
    ensures IsBase36(s[..0]) && Rem(s[..0]) == 0
  {
  }

  lemma NextCharacter(s: string, i: nat)
    requires i < |s| && IsBase36(s[..i])
    ensures Base36(s[i]).None? ==> !IsBase36(s)
    ensures Base36(s[i]).Some? ==> IsBase36(s[..i + 1]) && Rem(s[..i + 1]) == Step(Rem(s[..i]), Base36(s[i]).value)
  {
    if Base36(s[i]).Some? { assert s[..i + 1][..i] == s[..i]; }
  }

  // ... which slips it notices

  /** What comes after two different remainders keeps them different: 97 is prime to 10. */
  lemma {:induction false} RestKeepsApart(p: string, q: string, t: string)
    requires IsBase36(p) && IsBase36(q) && IsBase36(t)
    ensures IsBase36(p + t) && IsBase36(q + t)
    ensures Rem(p + t) == Rem(q + t) <==> Rem(p) == Rem(q)
  {
    if t == [] {
      assert p + t == p && q + t == q;
    } else {
      var front := t[..|t| - 1];
      assert (p + t)[..|p + t| - 1] == p + front && (q + t)[..|q + t| - 1] == q + front;
      RestKeepsApart(p, q, front);
      StepIsInjective(Rem(p + front), Rem(q + front), ValueOf(t[|t| - 1]));
    }
  }

  lemma StepIsInjective(r: nat, s: nat, v: nat)
    requires r < 97 && s < 97 && v < 36
    ensures Step(r, v) == Step(s, v) <==> r == s
  {
    if v < 10 { EqualRemainders(10, r, s, v); } else { EqualRemainders(100, r, s, v); }
  }

  lemma EqualRemainders(m: nat, r: nat, s: nat, v: nat)
    requires (m == 10 || m == 100) && r < 97 && s < 97
    ensures (r * m + v) % 97 == (s * m + v) % 97 ==> r == s
  {
    var k := (r * m + v) / 97 - (s * m + v) / 97;
    var d := r - s;
    if (r * m + v) % 97 == (s * m + v) % 97 {
      if m == 10 { NoTenth(d, k); } else { NoHundredth(d, k); }
    }
  }

  /** 10 * 68 and 100 * 65 are one more than multiples of 97. */
  lemma NoTenth(d: int, k: int)
    requires -97 < d < 97 && 10 * d == 97 * k
    ensures d == 0
  {
    assert d == 97 * (68 * k - 7 * d);
  }

  lemma NoHundredth(d: int, k: int)
    requires -97 < d < 97 && 100 * d == 97 * k
    ensures d == 0
  {
    assert d == 97 * (65 * k - 67 * d);
  }

  lemma OneMore(p: string, x: char)
    requires IsBase36(p) && Base36(x).Some?
    ensures IsBase36(p + [x]) && Rem(p + [x]) == Step(Rem(p), ValueOf(x))
  {
    assert (p + [x])[..|p|] == p;
  }

  /** One character put for another of its class, digit for digit or letter for letter,
      leaves the remainder if and only if their values are equal. */
  lemma SubstitutionIsSeen(p: string, x: char, y: char, t: string)
    requires IsBase36(p) && IsBase36(t) && Base36(x).Some? && Base36(y).Some?
    requires IsDigit(x) <==> IsDigit(y)
    ensures IsBase36(p + [x] + t) && IsBase36(p + [y] + t)
    ensures Rem(p + [x] + t) == Rem(p + [y] + t) <==> ValueOf(x) == ValueOf(y)
  {
    OneMore(p, x);
    OneMore(p, y);
    RestKeepsApart(p + [x], p + [y], t);
    SameClassApart(Rem(p), ValueOf(x), ValueOf(y));
  }

  lemma SameClassApart(r: nat, v: nat, w: nat)
    requires r < 97 && v < 36 && w < 36 && Shift(v) == Shift(w)
    ensures Step(r, v) == Step(r, w) <==> v == w
  {
    var n := r * Shift(v);
    assert (n + v) % 97 == (n + w) % 97 ==> v - w == 97 * ((n + v) / 97 - (n + w) / 97);
  }

  /** Two neighbours changing places leave the remainder if and only if their values are
      equal, or they are a digit and the letter of eleven times its value: 1 and B, 2 and M,
      3 and X. */
  lemma SwapIsSeen(p: string, x: char, y: char, t: string)
    requires IsBase36(p) && IsBase36(t) && Base36(x).Some? && Base36(y).Some?
    ensures IsBase36(p + [x, y] + t) && IsBase36(p + [y, x] + t)
    ensures Rem(p + [x, y] + t) == Rem(p + [y, x] + t)
       <==> ValueOf(x) == ValueOf(y)
            || (IsDigit(x) && ValueOf(y) == 11 * ValueOf(x)) || (IsDigit(y) && ValueOf(x) == 11 * ValueOf(y))
  {
    OneMore(p, x);
    OneMore(p + [x], y);
    OneMore(p, y);
    OneMore(p + [y], x);
    assert p + [x, y] == p + [x] + [y] && p + [y, x] == p + [y] + [x];
    RestKeepsApart(p + [x, y], p + [y, x], t);
    SwappedSteps(Rem(p), ValueOf(x), ValueOf(y));
  }

  /** What two characters add to what was read before. */
  function Two(r: nat, v: nat, w: nat): nat {
    if v < 10 && w < 10 then r * 100 + v * 10 + w
    else if v < 10 then r * 1000 + v * 100 + w
    else if w < 10 then r * 1000 + v * 10 + w
    else r * 10000 + v * 100 + w
  }

  lemma SwappedSteps(r: nat, v: nat, w: nat)
    requires r < 97 && v < 36 && w < 36
    ensures Step(Step(r, v), w) == Step(Step(r, w), v)
       <==> v == w || (v < 10 && w == 11 * v) || (w < 10 && v == 11 * w)
  {
    hide Step, Two;
    TwoSteps(r, v, w);
    TwoSteps(r, w, v);
    if v < 10 && w < 10 { TwoDigits(r, v, w); }
    else if v >= 10 && w >= 10 { TwoLetters(r, v, w); }
    else if v < 10 { DigitAndLetter(r, v, w); }
    else { DigitAndLetter(r, w, v); }
  }

  lemma TwoDigits(r: nat, v: nat, w: nat)
    requires v < 10 && w < 10
    ensures Two(r, v, w) % 97 == Two(r, w, v) % 97 <==> v == w
  {
    Congruent(Two(r, v, w), Two(r, w, v), 0, 9 * (v - w));
    SmallMultiple(9 * (v - w));
  }

  lemma TwoLetters(r: nat, v: nat, w: nat)
    requires 10 <= v < 36 && 10 <= w < 36
    ensures Two(r, v, w) % 97 == Two(r, w, v) % 97 <==> v == w
  {
    Congruent(Two(r, v, w), Two(r, w, v), v - w, 2 * (v - w));
    SmallMultiple(2 * (v - w));
  }

  lemma DigitAndLetter(r: nat, v: nat, w: nat)
    requires v < 10 && 10 <= w < 36
    ensures Two(r, v, w) % 97 == Two(r, w, v) % 97 <==> w == 11 * v
  {
    Congruent(Two(r, v, w), Two(r, w, v), v, 2 * v - 9 * w);
    ElevenTimes(v, w);
  }

  lemma SmallMultiple(e: int)
    requires -97 < e < 97
    ensures e % 97 == 0 <==> e == 0
  {
  }

  lemma ElevenTimes(v: nat, w: nat)
    requires v < 10 && 10 <= w < 36
    ensures (2 * v - 9 * w) % 97 == 0 <==> w == 11 * v
  {
    var q := (2 * v - 9 * w) / 97;
    if (2 * v - 9 * w) % 97 == 0 {
      assert 2 * v - 9 * w == 97 * q && -4 < q < 1;
    }
    if w == 11 * v { assert 2 * v - 9 * w == 97 * (0 - v); }
  }

  lemma TwoSteps(r: nat, v: nat, w: nat)
    requires v < 36 && w < 36
    ensures Step(Step(r, v), w) == Two(r, v, w) % 97
  {
    StepIsWhole(r * Shift(v) + v, w);
  }

  lemma Congruent(a: nat, b: nat, k: int, e: int)
    requires a - b == 97 * k + e
    ensures a % 97 == b % 97 <==> e % 97 == 0
  {
    var q := a / 97 - b / 97 - k;
    if a % 97 == b % 97 { assert e == 97 * q; }
    if e % 97 == 0 { assert a - b == 97 * (k + e / 97); }
  }

  /** In the compact text, where the first four characters are read last. */
  lemma SubstitutionBreaksIban(compact: string, i: nat, y: char)
    requires |compact| >= 4 && i < |compact| && IsIban(compact)
    requires Base36(compact[i]).Some? && Base36(y).Some? && (IsDigit(compact[i]) <==> IsDigit(y))
    ensures IsIban(compact[i := y]) <==> ValueOf(compact[i]) == ValueOf(y)
  {
    hide IsBase36, Rem, Expanded, NatOf;
    var r, other := Rearranged(compact), Rearranged(compact[i := y]);
    var k := ReadAt(compact, i);
    assert r == r[..k] + [compact[i]] + r[k + 1..];
    assert other == r[..k] + [y] + r[k + 1..];
    PartsAreBase36(r, k);
    SubstitutionIsSeen(r[..k], compact[i], y, r[k + 1..]);
    RemIsWhole(r);
    RemIsWhole(other);
  }

  /** Where a character of the compact text is read. */
  function ReadAt(compact: string, i: nat): nat
    requires |compact| >= 4 && i < |compact|
  {
    if i < 4 then |compact| - 4 + i else i - 4
  }

  /** Two characters of a passing IBAN that are read one after the other change places: it
      still passes if and only if their values are equal, or one is a digit and the other
      the letter of eleven times it. */
  lemma SwapBreaksIban(compact: string, i: nat, j: nat)
    requires |compact| >= 4 && i < |compact| && j < |compact| && IsIban(compact)
    requires ReadAt(compact, j) == ReadAt(compact, i) + 1
    ensures Base36(compact[i]).Some? && Base36(compact[j]).Some?
    ensures IsIban(compact[i := compact[j]][j := compact[i]])
       <==> var (x, y) := (compact[i], compact[j]);
            ValueOf(x) == ValueOf(y)
            || (IsDigit(x) && ValueOf(y) == 11 * ValueOf(x)) || (IsDigit(y) && ValueOf(x) == 11 * ValueOf(y))
  {
    hide Rem, Expanded, NatOf;
    var k, x, y := ReadAt(compact, i), compact[i], compact[j];
    var r, other := Rearranged(compact), Rearranged(compact[i := y][j := x]);
    assert r[k] == x && r[k + 1] == y;
    SwappedAt(compact, i, j);
    PartsAreBase36(r, k);
    PartsAreBase36(r, k + 1);
    SwapIsSeen(r[..k], x, y, r[k + 2..]);
    RemIsWhole(r);
    RemIsWhole(other);
  }

  lemma SwappedAt(compact: string, i: nat, j: nat)
    requires |compact| >= 4 && i < |compact| && j < |compact| && ReadAt(compact, j) == ReadAt(compact, i) + 1
    ensures var k, r := ReadAt(compact, i), Rearranged(compact);
            && r == r[..k] + [compact[i], compact[j]] + r[k + 2..]
            && Rearranged(compact[i := compact[j]][j := compact[i]]) == r[..k] + [compact[j], compact[i]] + r[k + 2..]
  {
  }

  // A bank's name that ends in B before an account that begins with 1.
  const PASSES: string := "GB38WESB12345698765432"
  const PASSES_TOO: string := "GB38WES1B2345698765432"
  const WRITTEN: string := "WESB12345698765432GB38"

  /** Two texts of the length of a British IBAN that pass, one with B1 where the other has
      1B. */
  lemma SwapGoesUnseen()
    ensures |PASSES| == |PASSES_TOO| == 22 && PASSES != PASSES_TOO
    ensures IsIban(PASSES) && IsIban(PASSES_TOO)
  {
    BankPasses();
    hide IsIban;
    assert PASSES[7 := '1'][8 := 'B'] == PASSES_TOO;
    SwapBreaksIban(PASSES, 7, 8);
  }

  lemma BankPasses()
    ensures IsIban(PASSES)
  {
    RemOfWritten(WRITTEN);
    hide IsBase36, Rem, Expanded, NatOf;
    assert Rearranged(PASSES) == WRITTEN;
    RemIsWhole(WRITTEN);
  }

  lemma RemOfWritten(r: string)
    requires r == WRITTEN
    ensures IsBase36(r) && Rem(r) == 1
  {
    assert IsBase36(r[..0]) && Rem(r[..0]) == 0 && r[..22] == r;
    hide IsBase36, Rem;
    RemThroughBank(r);
    RemIntoBranch(r);
    RemThroughBranch(r);
    RemIntoAccount(r);
    RemThroughAccount(r);
    RemThroughCountry(r);
  }

  lemma NextStep(r: string, k: nat, before: nat, after: nat)
    requires k < |r| && IsBase36(r[..k]) && Base36(r[k]).Some?
    requires Rem(r[..k]) == before && Step(before, ValueOf(r[k])) == after
    ensures IsBase36(r[..k + 1]) && Rem(r[..k + 1]) == after
  {
    assert r[..k + 1] == r[..k] + [r[k]];
    OneMore(r[..k], r[k]);
  }

  lemma RemThroughBank(r: string)
    requires r == WRITTEN && IsBase36(r[..0]) && Rem(r[..0]) == 0
    ensures IsBase36(r[..4]) && Rem(r[..4]) == 18
  {
    hide IsBase36, Rem;
    NextStep(r, 0, 0, 32);
    NextStep(r, 1, 32, 13);
    NextStep(r, 2, 13, 67);
    NextStep(r, 3, 67, 18);
  }

  lemma RemIntoBranch(r: string)
    requires r == WRITTEN && IsBase36(r[..4]) && Rem(r[..4]) == 18
    ensures IsBase36(r[..7]) && Rem(r[..7]) == 81
  {
    hide IsBase36, Rem;
    NextStep(r, 4, 18, 84);
    NextStep(r, 5, 84, 66);
    NextStep(r, 6, 66, 81);
  }

  lemma RemThroughBranch(r: string)
    requires r == WRITTEN && IsBase36(r[..7]) && Rem(r[..7]) == 81
    ensures IsBase36(r[..10]) && Rem(r[..10]) == 73
  {
    hide IsBase36, Rem;
    NextStep(r, 7, 81, 38);
    NextStep(r, 8, 38, 94);
    NextStep(r, 9, 94, 73);
  }

  lemma RemIntoAccount(r: string)
    requires r == WRITTEN && IsBase36(r[..10]) && Rem(r[..10]) == 73
    ensures IsBase36(r[..14]) && Rem(r[..14]) == 57
  {
    hide IsBase36, Rem;
    NextStep(r, 10, 73, 60);
    NextStep(r, 11, 60, 26);
    NextStep(r, 12, 26, 73);
    NextStep(r, 13, 73, 57);
  }

  lemma RemThroughAccount(r: string)
    requires r == WRITTEN && IsBase36(r[..14]) && Rem(r[..14]) == 57
    ensures IsBase36(r[..18]) && Rem(r[..18]) == 28
  {
    hide IsBase36, Rem;
    NextStep(r, 14, 57, 90);
    NextStep(r, 15, 90, 31);
    NextStep(r, 16, 31, 22);
    NextStep(r, 17, 22, 28);
  }

  lemma RemThroughCountry(r: string)
    requires r == WRITTEN && IsBase36(r[..18]) && Rem(r[..18]) == 28
    ensures IsBase36(r[..22]) && Rem(r[..22]) == 1
  {
    hide IsBase36, Rem;
    NextStep(r, 18, 28, 3);
    NextStep(r, 19, 3, 20);
    NextStep(r, 20, 20, 9);
    NextStep(r, 21, 9, 1);
  }

  lemma PartsAreBase36(s: string, k: nat)
    ensures IsBase36(s) && k < |s| ==> IsBase36(s[..k]) && IsBase36(s[k + 1..])
  {
  }

  // -------------------------------------------------------------------- the Luhn check

  function Doubled(d: nat): nat { if d * 2 > 9 then d * 2 - 9 else d * 2 }

  function Weighed(d: nat, double: bool): nat { if double then Doubled(d) else d }

  /** Every second digit from the right doubled; `double` tells of the last one. */
  function LuhnSum(s: Digits, double: bool): nat
    requires AreDigits(s)
  {
    if s == [] then 0 else Weighed(DigitOf(s[|s| - 1]), double) + LuhnSum(s[..|s| - 1], !double)
  }

  predicate IsLuhn(s: string) { s != [] && AreDigits(s) && LuhnSum(s, false) % 10 == 0 }

  /** What a digit adds at the `k`-th place from the right, the last being the zeroth: itself, or
      at every second place the digits of its double. */
  function Adds(c: char, k: nat): nat
    requires IsDigit(c)
  {
    var d := c as int - '0' as int;
    if k % 2 == 0 then d else 2 * d / 10 + 2 * d % 10
  }

  /** The sum from the left. */
  function SumOfAll(s: Digits): nat
    requires AreDigits(s)
  {
    if s == [] then 0 else Adds(s[0], |s| - 1) + SumOfAll(s[1..])
  }

  /** Counting from the right, every second digit is doubled, the last is not, and a double of two
      digits counts as their sum. */
  lemma {:induction false} LuhnSumIs(s: Digits)
    requires AreDigits(s)
    ensures LuhnSum(s, false) == SumOfAll(s)
  {
    if s != [] {
      hide LuhnSum, Adds;
      var first, rest := s[0], s[1..];
      assert s == [first] + rest;
      LuhnSumIs(rest);
      LuhnSumAppend([first], rest, false);
      assert (false == (|rest| % 2 == 0)) == (|rest| % 2 != 0);
      AddsAlone(first, |rest|);
    } else {
      assert LuhnSum([], false) == 0;
    }
  }

  lemma AddsAlone(c: char, k: nat)
    requires IsDigit(c)
    ensures LuhnSum([c], k % 2 != 0) == Adds(c, k)
  {
    LuhnOfOne(c, k % 2 != 0);
  }

  method LuhnValid(digits: string) returns (valid: bool)
    ensures valid <==> IsLuhn(digits)
    ensures valid <==> digits != "" && AreDigits(digits) && SumOfAll(digits) % 10 == 0
  {
    if AreDigits(digits) { LuhnSumIs(digits); }
    if |digits| == 0 {
      return false;
    }
    var sum, double := 0, false;
    var i := |digits|;
    assert digits[..i] == digits;
    while i > 0
      invariant i <= |digits| && AreDigits(digits[i..])
      invariant AreDigits(digits) ==> LuhnSum(digits, false) == sum + LuhnSum(digits[..i], double)
    {
      i := i - 1;
      if !IsDigit(digits[i]) {
        return false;
      }
      var d := DigitOf(digits[i]);
      assert digits[..i + 1][..i] == digits[..i];
      sum := sum + Weighed(d, double);
      double := !double;
    }
    assert digits[0..] == digits;
    valid := sum % 10 == 0;
  }

  lemma {:induction false} LuhnSumAppend(a: Digits, b: Digits, double: bool)
    requires AreDigits(a) && AreDigits(b)
    ensures AreDigits(a + b)
    ensures LuhnSum(a + b, double) == LuhnSum(b, double) + LuhnSum(a, double == (|b| % 2 == 0))
  {
    if b == [] {
      assert a + b == a;
    } else {
      assert (a + b)[..|a + b| - 1] == a + b[..|b| - 1];
      LuhnSumAppend(a, b[..|b| - 1], !double);
    }
  }

  /** One digit put for another leaves the check if and only if it is the same digit. */
  lemma LuhnSubstitutionIsSeen(a: Digits, x: char, y: char, b: Digits)
    requires AreDigits(a) && AreDigits(b) && IsDigit(x) && IsDigit(y) && IsLuhn(a + [x] + b)
    ensures IsLuhn(a + [y] + b) <==> x == y
  {
    hide LuhnSum;
    var double := |b| % 2 != 0;
    LuhnOfMiddle(a, [x], b);
    LuhnOfMiddle(a, [y], b);
    LuhnOfOne(x, double);
    LuhnOfOne(y, double);
  }

  lemma LuhnOfMiddle(a: Digits, m: Digits, b: Digits)
    requires AreDigits(a) && AreDigits(m) && AreDigits(b)
    ensures AreDigits(a + m + b)
    ensures LuhnSum(a + m + b, false)
         == LuhnSum(b, false) + LuhnSum(m, |b| % 2 != 0) + LuhnSum(a, (|b| + |m|) % 2 != 0)
  {
    hide LuhnSum;
    LuhnSumAppend(a + m, b, false);
    LuhnSumAppend(a, m, |b| % 2 != 0);
  }

  lemma LuhnOfOne(x: char, double: bool)
    requires IsDigit(x)
    ensures LuhnSum([x], double) == Weighed(DigitOf(x), double)
  {
    assert [x][..0] == [];
  }

  lemma LuhnOfTwo(x: char, y: char, double: bool)
    requires IsDigit(x) && IsDigit(y)
    ensures LuhnSum([x, y], double) == Weighed(DigitOf(x), !double) + Weighed(DigitOf(y), double)
  {
    assert [x, y][..1] == [x];
    LuhnOfOne(x, !double);
  }

  /** Two neighbours changing places leave the check if and only if they are the same
      digit, or 0 and 9. */
  lemma LuhnSwapIsSeen(a: Digits, x: char, y: char, b: Digits)
    requires AreDigits(a) && AreDigits(b) && IsDigit(x) && IsDigit(y) && IsLuhn(a + [x, y] + b)
    ensures IsLuhn(a + [y, x] + b) <==> x == y || (x == '0' && y == '9') || (x == '9' && y == '0')
  {
    hide LuhnSum, Weighed;
    var double := |b| % 2 != 0;
    LuhnOfMiddle(a, [x, y], b);
    LuhnOfMiddle(a, [y, x], b);
    LuhnOfTwo(x, y, double);
    LuhnOfTwo(y, x, double);
    SwappedWeights(LuhnSum(b, false) + LuhnSum(a, |b| % 2 != 0), DigitOf(x), DigitOf(y), double);
  }

  lemma SwappedWeights(n: nat, d: nat, e: nat, double: bool)
    requires d < 10 && e < 10 && (n + Weighed(d, !double) + Weighed(e, double)) % 10 == 0
    ensures (n + Weighed(e, !double) + Weighed(d, double)) % 10 == 0
       <==> d == e || (d == 0 && e == 9) || (d == 9 && e == 0)
  {
    GainsApart(d, e);
    hide Weighed, Gain;
    TenApart(n, Weighed(d, !double) + Weighed(e, double), Weighed(e, !double) + Weighed(d, double));
  }

  /** What doubling adds to a digit. */
  function Gain(d: nat): int { Doubled(d) - d }

  lemma GainsApart(d: nat, e: nat)
    requires d < 10 && e < 10
    ensures -10 < Gain(d) - Gain(e) < 10
    ensures Gain(d) == Gain(e) <==> d == e || (d == 0 && e == 9) || (d == 9 && e == 0)
  {
  }

  lemma TenApart(n: nat, x: nat, y: nat)
    requires (n + x) % 10 == 0 && -10 < x - y < 10
    ensures (n + y) % 10 == 0 <==> x == y
  {
    var q := (n + x) / 10 - (n + y) / 10;
    if (n + y) % 10 == 0 { assert x - y == 10 * q; }
  }

}
