/**
 * Amounts: the two normalisations that turn an extracted amount into a
 * number (Argentine "1.234,56" and US "1,234.56"), Python's float() on the
 * result, and the display form `f"{v:,.2f}"` with its separators swapped,
 * which renders every total and every Mastercard amount as "1.234,56".
 *
 * Amounts are exact reals: the model has none of float's binary rounding.
 */
module Amounts {
  import opened Wrappers
  import opened Text

  predicate AllDigits(s: string) {
    forall i :: 0 <= i < |s| ==> IsDigit(s[i])
  }

  /** At least one decimal digit occurs in `s`. */
  predicate HasDigit(s: string)
    decreases |s|
  {
    s != [] && (IsDigit(s[0]) || HasDigit(s[1..]))
  }

  /** Only digits and decimal points. */
  predicate DecimalChars(s: string) {
    forall i :: 0 <= i < |s| ==> IsDigit(s[i]) || s[i] == '.'
  }

  function Pow10(n: nat): (p: nat)
    ensures p > 0
  {
    if n == 0 then 1 else 10 * Pow10(n - 1)
  }

  /** The number a string of decimal digits denotes (0 for the empty string). */
  function DigitsValue(s: string): nat
    requires AllDigits(s)
  {
    if s == [] then 0 else DigitsValue(s[..|s| - 1]) * 10 + (s[|s| - 1] as int - '0' as int)
  }

  /**
   * float() on a string that float() accepts as a plain decimal: digits,
   * at most one decimal point, at least one digit ("12", "12.5", "12.", ".5").
   */
  function ParseDecimal(s: string): (r: Option<real>)
    ensures r.Some? ==> r.value >= 0.0
  {
    var k := IndexOf(s, '.');
    if k == |s| then
      if s != [] && AllDigits(s) then Some(DigitsValue(s) as real) else None
    else
      var whole, frac := s[..k], s[k + 1..];
      if AllDigits(whole) && AllDigits(frac) && |whole| + |frac| > 0 then
        Some(DigitsValue(whole) as real + FractionValue(frac))
      else
        None
  }

  /** The value of the digits after a decimal point: "05" is 0.05. */
  function FractionValue(frac: string): (v: real)
    requires AllDigits(frac)
    ensures 0.0 <= v
  {
    DigitsValue(frac) as real / Pow10(|frac|) as real
  }

  /** float(s): surrounding whitespace is ignored; None stands for the ValueError. */
  function ParseFloat(s: string): Option<real> {
    ParseDecimal(Strip(s))
  }

  /** monto.replace('.', '').replace(',', '.'): dot-thousands, comma-decimal to a float literal. */
  function ArgentineNormalize(s: string): string {
    ReplaceChar(RemoveChar(s, '.'), ',', '.')
  }

  /** float(monto.replace('.', '').replace(',', '.')), as the Visa pipeline computes it. */
  function ParseArgentine(s: string): Option<real> {
    ParseFloat(ArgentineNormalize(s))
  }

  /** float(importe.replace(',', '')), as the Mastercard pipeline computes it. */
  function ParseUS(s: string): Option<real> {
    ParseFloat(RemoveChar(s, ','))
  }

  /** What `x or 0` contributes to a total: a failed conversion adds nothing. */
  function ValueOrZero(a: Option<real>): (v: real)
    ensures a.Some? ==> v == a.value
    ensures a.None? ==> v == 0.0
  {
    a.GetOr(0.0)
  }

  // ---------------------------------------------------------------------------
  // Display: f"{v:,.2f}".replace(',', '_').replace('.', ',').replace('_', '.')

  function DigitChar(d: nat): (c: char)
    requires d < 10
    ensures IsDigit(c)
  {
    ('0' as int + d) as char
  }

  /** str(n) for a natural number. */
  function NatToString(n: nat): (s: string)
    ensures s != [] && AllDigits(s)
  {
    if n < 10 then [DigitChar(n)] else NatToString(n / 10) + [DigitChar(n % 10)]
  }

  /** Two digits, zero-padded. */
  function Pad2(n: nat): (s: string)
    requires n < 100
    ensures |s| == 2 && AllDigits(s)
  {
    [DigitChar(n / 10), DigitChar(n % 10)]
  }

  /** Three digits, zero-padded. */
  function Pad3(n: nat): (s: string)
    requires n < 1000
    ensures |s| == 3 && AllDigits(s)
  {
    [DigitChar(n / 100)] + Pad2(n % 100)
  }

  /** The integer part under format's ',' option: a comma before each group of three digits from the right. */
  function GroupThousands(n: nat): string {
    if n < 1000 then NatToString(n) else GroupThousands(n / 1000) + "," + Pad3(n % 1000)
  }

  /** format(cents / 100, ',.2f') for an amount held as a whole number of cents. */
  function FormatFixed2(cents: nat): string {
    GroupThousands(cents / 100) + "." + Pad2(cents % 100)
  }

  /** The three-step replace .replace(',', '_').replace('.', ',').replace('_', '.'). */
  function SwapSeparators(s: string): string {
    ReplaceChar(ReplaceChar(ReplaceChar(s, ',', '_'), '.', ','), '_', '.')
  }

  /** What the swap should do to one character: ',' and '.' trade places. */
  function SwapChar(c: char): char {
    if c == ',' then '.' else if c == '.' then ',' else c
  }

  /** The number of cents ',.2f' shows for a non-negative amount (half a cent rounds up). */
  function RoundCents(v: real): nat
    requires v >= 0.0
  {
    (v * 100.0 + 0.5).Floor
  }

  /** The display form of an amount of cents. */
  function DisplayCents(cents: nat): string {
    SwapSeparators(FormatFixed2(cents))
  }

  /** The display form of a non-negative amount, as printed for subtotals and Mastercard amounts. */
  function Display(v: real): string
    requires v >= 0.0
  {
    DisplayCents(RoundCents(v))
  }

  /** The integer part of the display form: a '.' before each group of three digits from the right. */
  function DotGroups(n: nat): string {
    if n < 1000 then NatToString(n) else DotGroups(n / 1000) + "." + Pad3(n % 1000)
  }

  /** Digit groups separated by '.': one to three leading digits, then groups of exactly three. */
  predicate DotGrouped(g: string)
    decreases |g|
  {
    (1 <= |g| <= 3 && AllDigits(g))
    || (|g| >= 5 && g[|g| - 4] == '.' && AllDigits(g[|g| - 3..]) && DotGrouped(g[..|g| - 4]))
  }

  /** The Argentine display form: dot-separated digit groups, one ',' and exactly two digits. */
  predicate ArgentineDisplayForm(s: string) {
    |s| >= 4 && s[|s| - 3] == ',' && AllDigits(s[|s| - 2..]) && DotGrouped(s[..|s| - 3])
  }

  // ---------------------------------------------------------------------------
  // Lemmas: float() acceptance

  lemma {:induction false} HasDigitConcat(a: string, b: string)
    ensures HasDigit(a + b) <==> HasDigit(a) || HasDigit(b)
  {
    if a == [] {
      assert a + b == b;
    } else {
      assert (a + b)[1..] == a[1..] + b;
      HasDigitConcat(a[1..], b);
    }
  }

  /** Dropping a character that is not a digit keeps every digit. */
  lemma {:induction false} HasDigitRemove(s: string, c: char)
    requires !IsDigit(c)
    ensures HasDigit(RemoveChar(s, c)) <==> HasDigit(s)
  {
    if s != [] {
      HasDigitRemove(s[1..], c);
      HasDigitConcat(if s[0] == c then [] else [s[0]], RemoveChar(s[1..], c));
    }
  }

  lemma {:induction false} AllDigitsHasDigit(s: string)
    requires AllDigits(s)
    ensures HasDigit(s) <==> s != []
  {
    if s != [] {
      assert IsDigit(s[0]);
    }
  }

  lemma DecimalCharsAround(whole: string, frac: string)
    ensures DecimalChars(whole + ['.'] + frac) <==> DecimalChars(whole) && DecimalChars(frac)
  {
    var s := whole + ['.'] + frac;
    if DecimalChars(s) {
      assert forall i :: 0 <= i < |whole| ==> s[i] == whole[i];
      assert forall i :: 0 <= i < |frac| ==> s[|whole| + 1 + i] == frac[i];
    }
  }

  lemma CountAround(whole: string, frac: string)
    requires '.' !in whole
    ensures Count(whole + ['.'] + frac, '.') <= 1 <==> '.' !in frac
  {
    CountConcat(whole + ['.'], frac, '.');
    CountConcat(whole, ['.'], '.');
    CountZero(whole, '.');
    CountZero(frac, '.');
  }

  lemma HasDigitAround(whole: string, frac: string)
    ensures HasDigit(whole + ['.'] + frac) <==> HasDigit(whole) || HasDigit(frac)
  {
    HasDigitConcat(whole + ['.'], frac);
    HasDigitConcat(whole, ['.']);
    assert !HasDigit(['.']);
  }

  /** float() accepts exactly the strings of digits and at most one point that hold at least one digit. */
  lemma ParseDecimalAccepts(s: string)
    ensures ParseDecimal(s).Some? <==> DecimalChars(s) && Count(s, '.') <= 1 && HasDigit(s)
  {
    var k := IndexOf(s, '.');
    if k == |s| {
      CountZero(s, '.');
      assert DecimalChars(s) <==> AllDigits(s);
      if AllDigits(s) { AllDigitsHasDigit(s); }
    } else {
      var whole, frac := s[..k], s[k + 1..];
      assert s == whole + ['.'] + frac;
      DecimalCharsAround(whole, frac);
      CountAround(whole, frac);
      HasDigitAround(whole, frac);
      assert DecimalChars(whole) <==> AllDigits(whole);
      assert AllDigits(frac) <==> DecimalChars(frac) && '.' !in frac;
      if AllDigits(whole) && AllDigits(frac) {
        AllDigitsHasDigit(whole);
        AllDigitsHasDigit(frac);
      }
    }
  }

  /** The Argentine normalisation of one piece after another is the normalisation of each. */
  lemma ArgentineNormalizeConcat(a: string, b: string)
    ensures ArgentineNormalize(a + b) == ArgentineNormalize(a) + ArgentineNormalize(b)
  {
    RemoveCharConcat(a, b, '.');
    ReplaceCharConcat(RemoveChar(a, '.'), RemoveChar(b, '.'), ',', '.');
  }

  /**
   * On digits, dots and commas the normalisation leaves only digits and
   * points, one point per comma, and keeps every digit.
   */
  lemma {:induction false} ArgentineNormalizeCounts(s: string)
    requires forall i :: 0 <= i < |s| ==> IsDigit(s[i]) || s[i] == '.' || s[i] == ','
    ensures DecimalChars(ArgentineNormalize(s))
    ensures Count(ArgentineNormalize(s), '.') == Count(s, ',')
    ensures HasDigit(ArgentineNormalize(s)) <==> HasDigit(s)
  {
    if s != [] {
      var head, tail := s[..1], s[1..];
      assert s == head + tail;
      ArgentineNormalizeConcat(head, tail);
      ArgentineNormalizeCounts(tail);
      var n, nh, nt := ArgentineNormalize(s), ArgentineNormalize(head), ArgentineNormalize(tail);
      assert nh == (if s[0] == '.' then [] else if s[0] == ',' then ['.'] else [s[0]]);
      CountConcat(nh, nt, '.');
      HasDigitConcat(nh, nt);
      assert HasDigit(s) <==> IsDigit(s[0]) || HasDigit(tail);
      assert DecimalChars(n) by {
        forall i | 0 <= i < |n| ensures IsDigit(n[i]) || n[i] == '.' {
          if i >= |nh| { assert n[i] == nt[i - |nh|]; }
        }
      }
    }
  }

  /** A string of digits and points has no whitespace, so float() sees it unchanged. */
  lemma DecimalCharsStrip(s: string)
    requires DecimalChars(s)
    ensures Strip(s) == s
  {
    if s != [] {
      StripUnchanged(s);
    }
  }

  /**
   * On what the Visa amount pattern can capture (digits, dots, commas), the
   * Argentine conversion succeeds exactly when there is a digit and at most one comma.
   */
  lemma ParseArgentineAccepts(s: string)
    requires forall i :: 0 <= i < |s| ==> IsDigit(s[i]) || s[i] == '.' || s[i] == ','
    ensures ParseArgentine(s).Some? <==> HasDigit(s) && Count(s, ',') <= 1
  {
    ArgentineNormalizeCounts(s);
    DecimalCharsStrip(ArgentineNormalize(s));
    ParseDecimalAccepts(ArgentineNormalize(s));
  }

  /**
   * An amount that already has its decimal comma and is followed by a
   * sentence comma ("1.234,56,") carries two commas and is refused.
   */
  lemma TrailingCommaRefused(s: string)
    requires forall i :: 0 <= i < |s| ==> IsDigit(s[i]) || s[i] == '.' || s[i] == ','
    requires ',' in s
    ensures ParseArgentine(s + ",") == None
  {
    var t := s + ",";
    CountConcat(s, ",", ',');
    CountZero(s, ',');
    assert Count(",", ',') == 1;
    assert forall i :: 0 <= i < |t| ==> IsDigit(t[i]) || t[i] == '.' || t[i] == ',' by {
      forall i | 0 <= i < |t| ensures IsDigit(t[i]) || t[i] == '.' || t[i] == ',' {
        if i < |s| { assert t[i] == s[i]; }
      }
    }
    ParseArgentineAccepts(t);
  }

  // ---------------------------------------------------------------------------
  // Lemmas: the separator swap

  /** Without '_' in its input, the three-step replace swaps ',' and '.' and changes nothing else. */
  lemma SwapSeparatorsSwaps(s: string)
    requires '_' !in s
    ensures |SwapSeparators(s)| == |s|
    ensures forall i :: 0 <= i < |s| ==> SwapSeparators(s)[i] == SwapChar(s[i])
  {
    var a := ReplaceChar(s, ',', '_');
    var b := ReplaceChar(a, '.', ',');
    var c := ReplaceChar(b, '_', '.');
    forall i | 0 <= i < |s| ensures c[i] == SwapChar(s[i]) {
      assert s[i] != '_';
    }
  }

  /** Without '_' in its input, applying the three-step replace twice gives the input back. */
  lemma SwapSeparatorsInvolution(s: string)
    requires '_' !in s
    ensures SwapSeparators(SwapSeparators(s)) == s
  {
    SwapSeparatorsSwaps(s);
    var t := SwapSeparators(s);
    assert '_' !in t by {
      forall i | 0 <= i < |t| ensures t[i] != '_' { assert s[i] != '_'; }
    }
    SwapSeparatorsSwaps(t);
  }

  /** The swap goes piece by piece. */
  lemma SwapSeparatorsConcat(a: string, b: string)
    ensures SwapSeparators(a + b) == SwapSeparators(a) + SwapSeparators(b)
  {
    ReplaceCharConcat(a, b, ',', '_');
    ReplaceCharConcat(ReplaceChar(a, ',', '_'), ReplaceChar(b, ',', '_'), '.', ',');
    ReplaceCharConcat(ReplaceChar(ReplaceChar(a, ',', '_'), '.', ','),
                      ReplaceChar(ReplaceChar(b, ',', '_'), '.', ','), '_', '.');
  }

  /** The swap leaves digits alone. */
  lemma SwapSeparatorsDigits(s: string)
    requires AllDigits(s)
    ensures SwapSeparators(s) == s
  {
    assert ',' !in s && '.' !in s && '_' !in s;
    ReplaceCharAbsent(s, ',', '_');
    ReplaceCharAbsent(s, '.', ',');
    ReplaceCharAbsent(s, '_', '.');
  }

  /** With the separators swapped, ',' grouping becomes '.' grouping. */
  lemma {:induction false} SwapGroupThousands(n: nat)
    ensures SwapSeparators(GroupThousands(n)) == DotGroups(n)
    decreases n
  {
    if n < 1000 {
      SwapSeparatorsDigits(NatToString(n));
    } else {
      SwapSeparatorsConcat(GroupThousands(n / 1000) + ",", Pad3(n % 1000));
      SwapSeparatorsConcat(GroupThousands(n / 1000), ",");
      SwapGroupThousands(n / 1000);
      SwapSeparatorsDigits(Pad3(n % 1000));
    }
  }

  /** The display form of `cents` is its dot-grouped whole part, a comma and two digits of cents. */
  lemma DisplayCentsParts(cents: nat)
    ensures DisplayCents(cents) == DotGroups(cents / 100) + "," + Pad2(cents % 100)
  {
    SwapSeparatorsConcat(GroupThousands(cents / 100) + ".", Pad2(cents % 100));
    SwapSeparatorsConcat(GroupThousands(cents / 100), ".");
    SwapGroupThousands(cents / 100);
    SwapSeparatorsDigits(Pad2(cents % 100));
  }

  lemma {:induction false} DotGroupsGrouped(n: nat)
    ensures DotGrouped(DotGroups(n))
    decreases n
  {
    if n < 1000 {
      assert NatToString(n) == NatToString(n);
      NatToStringShort(n);
    } else {
      DotGroupsGrouped(n / 1000);
      var g := DotGroups(n);
      var head := DotGroups(n / 1000);
      assert g[..|g| - 4] == head;
      assert g[|g| - 3..] == Pad3(n % 1000);
    }
  }

  lemma {:induction false} NatToStringShort(n: nat)
    requires n < 1000
    ensures |NatToString(n)| <= 3
  {
    if n >= 10 {
      NatToStringShort(n / 10);
      if n < 100 { assert n / 10 < 10; }
    }
  }

  /** Every display form has '.'-separated groups of three digits, then ',' and exactly two digits. */
  lemma DisplayCentsForm(cents: nat)
    ensures ArgentineDisplayForm(DisplayCents(cents))
  {
    DisplayCentsParts(cents);
    DotGroupsGrouped(cents / 100);
    var s := DisplayCents(cents);
    var g := DotGroups(cents / 100);
    assert s[..|s| - 3] == g;
    assert s[|s| - 2..] == Pad2(cents % 100);
  }

  // ---------------------------------------------------------------------------
  // Lemmas: reading the display form back

  lemma {:induction false} DigitsValueConcat(a: string, b: string)
    requires AllDigits(a) && AllDigits(b)
    ensures AllDigits(a + b)
    ensures DigitsValue(a + b) == DigitsValue(a) * Pow10(|b|) + DigitsValue(b)
    decreases |b|
  {
    var ab := a + b;
    if b == [] {
      assert ab == a;
    } else {
      var b' := b[..|b| - 1];
      assert ab[..|ab| - 1] == a + b';
      DigitsValueConcat(a, b');
      var d := b[|b| - 1] as int - '0' as int;
      assert b[..|b| - 1] == b';
      ShiftDigit(DigitsValue(a), Pow10(|b'|), DigitsValue(b'), d, DigitsValue(ab), DigitsValue(b), Pow10(|b|));
    }
  }

  /** The arithmetic of appending one digit d to both a + b' and b'. */
  lemma ShiftDigit(x: int, p: int, y: int, d: int, xy: int, yd: int, p10: int)
    requires xy == (x * p + y) * 10 + d && yd == y * 10 + d && p10 == p * 10
    ensures xy == x * p10 + yd
  {
  }

  lemma {:induction false} NatToStringValue(n: nat)
    ensures DigitsValue(NatToString(n)) == n
    decreases n
  {
    if n >= 10 {
      NatToStringValue(n / 10);
      var s := NatToString(n);
      assert s[..|s| - 1] == NatToString(n / 10);
    }
  }

  lemma Pad2Value(n: nat)
    requires n < 100
    ensures DigitsValue(Pad2(n)) == n
  {
    var s := Pad2(n);
    var hi, lo := [DigitChar(n / 10)], DigitChar(n % 10);
    assert s[..1] == hi && hi[..0] == [];
    assert DigitsValue(hi) == n / 10;
    assert lo as int - '0' as int == n % 10;
  }

  lemma Pad3Value(n: nat)
    requires n < 1000
    ensures DigitsValue(Pad3(n)) == n
  {
    DigitsValueConcat([DigitChar(n / 100)], Pad2(n % 100));
    Pad2Value(n % 100);
    assert [DigitChar(n / 100)][..0] == [];
    assert Pow10(2) == 100;
  }

  /** Dropping the group dots leaves the digits of the whole part. */
  lemma {:induction false} DotGroupsDigits(n: nat)
    ensures AllDigits(RemoveChar(DotGroups(n), '.'))
    ensures RemoveChar(DotGroups(n), '.') != []
    ensures DigitsValue(RemoveChar(DotGroups(n), '.')) == n
    decreases n
  {
    if n < 1000 {
      RemoveCharAbsent(NatToString(n), '.');
      NatToStringValue(n);
    } else {
      DotGroupsDigits(n / 1000);
      DotGroupStep(DotGroups(n / 1000), n / 1000, n % 1000);
      assert DotGroups(n) == DotGroups(n / 1000) + "." + Pad3(n % 1000);
    }
  }

  /** Appending "." and a three-digit group to dotted digits of value q gives dotted digits of value q * 1000 + r. */
  lemma DotGroupStep(head: string, q: nat, r: nat)
    requires r < 1000
    requires AllDigits(RemoveChar(head, '.')) && RemoveChar(head, '.') != []
    requires DigitsValue(RemoveChar(head, '.')) == q
    ensures AllDigits(RemoveChar(head + "." + Pad3(r), '.'))
    ensures RemoveChar(head + "." + Pad3(r), '.') != []
    ensures DigitsValue(RemoveChar(head + "." + Pad3(r), '.')) == q * 1000 + r
  {
    var tail := Pad3(r);
    RemoveCharConcat(head + ".", tail, '.');
    RemoveCharConcat(head, ".", '.');
    RemoveCharAbsent(tail, '.');
    var d := RemoveChar(head, '.');
    assert RemoveChar(head + "." + tail, '.') == d + tail;
    DigitsValueConcat(d, tail);
    Pad3Value(r);
    assert Pow10(3) == 1000;
  }

  /** The Argentine normalisation of the display form is the plain float literal "<whole>.<cents>". */
  lemma NormalizeDisplay(cents: nat)
    ensures ArgentineNormalize(DisplayCents(cents))
      == RemoveChar(DotGroups(cents / 100), '.') + "." + Pad2(cents % 100)
  {
    DisplayCentsParts(cents);
    var g, p := DotGroups(cents / 100), Pad2(cents % 100);
    DotGroupsDigits(cents / 100);
    DigitsHaveNoSeparator(p);
    DigitsHaveNoSeparator(RemoveChar(g, '.'));
    DotsDroppedAroundComma(g, p);
    CommaReplacedBetween(RemoveChar(g, '.'), p);
  }

  lemma DigitsHaveNoSeparator(s: string)
    requires AllDigits(s)
    ensures '.' !in s && ',' !in s
  {
  }

  lemma DotsDroppedAroundComma(g: string, p: string)
    requires '.' !in p
    ensures RemoveChar(g + "," + p, '.') == RemoveChar(g, '.') + "," + p
  {
    RemoveCharConcat(g + ",", p, '.');
    RemoveCharConcat(g, ",", '.');
    RemoveCharAbsent(",", '.');
    RemoveCharAbsent(p, '.');
  }

  lemma CommaReplacedBetween(d: string, p: string)
    requires ',' !in d && ',' !in p
    ensures ReplaceChar(d + "," + p, ',', '.') == d + "." + p
  {
    ReplaceCharConcat(d + ",", p, ',', '.');
    ReplaceCharConcat(d, ",", ',', '.');
    ReplaceCharAbsent(d, ',', '.');
    ReplaceCharAbsent(p, ',', '.');
  }

  /** float() of "<digits>.<digits>" is the whole part plus the fraction. */
  lemma ParseDecimalPoint(whole: string, frac: string)
    requires AllDigits(whole) && AllDigits(frac) && whole != []
    ensures ParseDecimal(whole + "." + frac) == Some(DigitsValue(whole) as real + FractionValue(frac))
  {
    var s := whole + "." + frac;
    IndexOfAfterDigits(whole, frac);
    var k := IndexOf(s, '.');
    assert k == |whole| && k != |s|;
    assert s[..k] == whole;
    assert s[k + 1..] == frac;
  }

  lemma IndexOfAfterDigits(whole: string, frac: string)
    requires AllDigits(whole)
    ensures IndexOf(whole + "." + frac, '.') == |whole|
  {
    var s := whole + "." + frac;
    var k := IndexOf(s, '.');
    assert forall j :: 0 <= j < |whole| ==> s[j] == whole[j] && s[j] != '.';
    assert s[|whole|] == '.';
  }

  /** Reading a display form back with the Argentine normalisation recovers the amount exactly. */
  lemma DisplayRoundTrip(cents: nat)
    ensures ParseArgentine(DisplayCents(cents)) == Some(cents as real / 100.0)
  {
    NormalizeDisplay(cents);
    DotGroupsDigits(cents / 100);
    ReadCents(cents, RemoveChar(DotGroups(cents / 100), '.'));
  }

  /** float("<whole>.<cents>") is the amount. */
  lemma ReadCents(cents: nat, d: string)
    requires AllDigits(d) && d != [] && DigitsValue(d) == cents / 100
    ensures ParseFloat(d + "." + Pad2(cents % 100)) == Some(cents as real / 100.0)
  {
    var p := Pad2(cents % 100);
    PlainDecimalStrip(d, p);
    ReadCentsDecimal(cents, d);
    ParseFloatUnstripped(d + "." + p, ParseDecimal(d + "." + p));
  }

  lemma ReadCentsDecimal(cents: nat, d: string)
    requires AllDigits(d) && d != [] && DigitsValue(d) == cents / 100
    ensures ParseDecimal(d + "." + Pad2(cents % 100)) == Some(cents as real / 100.0)
  {
    var p := Pad2(cents % 100);
    ParseDecimalPoint(d, p);
    CentsValue(cents, d, p, ParseDecimal(d + "." + p));
  }

  lemma ParseFloatUnstripped(s: string, v: Option<real>)
    requires Strip(s) == s && ParseDecimal(s) == v
    ensures ParseFloat(s) == v
  {
  }

  lemma CentsValue(cents: nat, d: string, p: string, v: Option<real>)
    requires AllDigits(d) && DigitsValue(d) == cents / 100 && p == Pad2(cents % 100)
    requires v == Some(DigitsValue(d) as real + FractionValue(p))
    ensures v == Some(cents as real / 100.0)
  {
    CentsFraction(cents);
  }

  lemma PlainDecimalStrip(d: string, p: string)
    requires AllDigits(d) && AllDigits(p)
    ensures Strip(d + "." + p) == d + "." + p
  {
    var s := d + "." + p;
    assert DecimalChars(s) by {
      assert forall i :: 0 <= i < |d| ==> s[i] == d[i];
      assert forall i :: 0 <= i < |p| ==> s[|d| + 1 + i] == p[i];
    }
    DecimalCharsStrip(s);
  }

  lemma CentsFraction(cents: nat)
    ensures FractionValue(Pad2(cents % 100)) == (cents % 100) as real / 100.0
    ensures (cents / 100) as real + FractionValue(Pad2(cents % 100)) == cents as real / 100.0
  {
    Pad2Value(cents % 100);
    assert Pow10(2) == 100;
  }

  /** An amount with at most two decimals (a whole number of cents) shows exactly those cents. */
  lemma RoundCentsExact(cents: nat)
    ensures RoundCents(cents as real / 100.0) == cents
  {
    assert (cents as real / 100.0) * 100.0 + 0.5 == cents as real + 0.5;
  }

  /**
   * For a non-negative amount with at most two decimals, the display form has
   * the Argentine shape and reads back to the same amount.
   */
  lemma DisplayReadsBack(cents: nat)
    ensures ArgentineDisplayForm(Display(cents as real / 100.0))
    ensures ParseArgentine(Display(cents as real / 100.0)) == Some(cents as real / 100.0)
  {
    RoundCentsExact(cents);
    DisplayCentsForm(cents);
    DisplayRoundTrip(cents);
  }
}
