/**
 * The Visa alert extractor: three fixed patterns searched in the snippet,
 * and failing that in the plain-text body or else the raw HTML; the
 * timestamp split into a date and a time; and the row and amount one
 * message contributes to the Visa pipeline.
 */
module Visa {
  import opened Wrappers
  import opened Text
  import opened Amounts
  import opened Records

  /** A character of the class [\d\.,]. */
  predicate IsAmountChar(c: char) {
    IsDigit(c) || c == '.' || c == ','
  }

  /** Any character of `.`, which stops only at a line break, other than the ',' that ends the merchant. */
  predicate InMerchant(c: char) {
    c != ',' && c != '\n'
  }

  /** `\$ ([\d\.,]+)` tried at position i: "$ ", then the longest run of digits, dots and commas. */
  function AmountAt(s: string, i: nat): (r: Option<string>)
    ensures r.Some? ==> i + 2 < |s| && s[i] == '$' && s[i + 1] == ' '
    ensures r.Some? ==> r.value != [] && forall k :: 0 <= k < |r.value| ==> IsAmountChar(r.value[k])
  {
    if AmountStarts(s, i) then Some(AmountRun(s, i + 2))
    else
      None
  }

  /** "$ " at position i, followed by at least one character of the class. */
  predicate AmountStarts(s: string, i: nat) {
    i + 2 < |s| && s[i] == '$' && s[i + 1] == ' ' && IsAmountChar(s[i + 2])
  }

  /** The longest run of digits, dots and commas starting at `i`. */
  function AmountRun(s: string, i: nat): (r: string)
    requires i <= |s|
    ensures forall k :: 0 <= k < |r| ==> IsAmountChar(r[k])
    ensures |r| < |s| - i ==> !IsAmountChar(s[i + |r|])
    ensures i + |r| <= |s| && r == s[i..i + |r|]
  {
    s[i..RunEnd(s, i, IsAmountChar)]
  }

  /** `establecimiento (.*?),` tried at position i: the shortest text up to a ',' with no line break in it. */
  function MerchantAt(s: string, i: nat): (r: Option<string>)
    ensures r.Some? ==> forall k :: 0 <= k < |r.value| ==> InMerchant(r.value[k])
    ensures r.Some? ==>
              && i + 16 + |r.value| < |s| && s[i..i + 16] == "establecimiento "
              && s[i + 16..i + 16 + |r.value|] == r.value && s[i + 16 + |r.value|] == ','
  {
    if i <= |s| && StartsWith(s[i..], "establecimiento ") then
      var k := RunEnd(s, i + 16, InMerchant);
      if k < |s| && s[k] == ',' then Some(s[i + 16..k]) else None
    else
      None
  }

  /** Pattern letter `p` (lower case) matches `c` under re.IGNORECASE. */
  predicate FoldsTo(c: char, p: char) {
    c == p || c as int == p as int - 32
  }

  /** `(\d+)\s*cuotas?` with re.IGNORECASE tried at position i: digits, optional whitespace, "cuota" in any case. */
  function InstallmentsAt(s: string, i: nat): (r: Option<string>)
    ensures r.Some? ==> r.value != [] && AllDigits(r.value)
    ensures r.Some? ==> i + |r.value| < |s| && s[i..i + |r.value|] == r.value && !IsDigit(s[i + |r.value|])
  {
    if i < |s| && IsDigit(s[i]) then
      var k := RunEnd(s, i, IsDigit);
      var w := RunEnd(s, k, IsSpace);
      if w + 5 <= |s| && FoldsTo(s[w], 'c') && FoldsTo(s[w + 1], 'u') && FoldsTo(s[w + 2], 'o')
         && FoldsTo(s[w + 3], 't') && FoldsTo(s[w + 4], 'a')
      then Some(s[i..k])
      else None
    else
      None
  }

  function FindAmount(s: string): Option<string> {
    Search(|s|, (i: nat) => AmountAt(s, i), 0)
  }

  function FindMerchant(s: string): Option<string> {
    Search(|s|, (i: nat) => MerchantAt(s, i), 0)
  }

  function FindInstallments(s: string): Option<string> {
    Search(|s|, (i: nat) => InstallmentsAt(s, i), 0)
  }

  /** A match group used as a Python truth value: missing and empty are both false. */
  predicate Found(m: Option<string>) {
    m.Some? && m.value != []
  }

  /** `group or 'N/A'` */
  function OrNA(m: Option<string>): (r: string)
    ensures r != []
    ensures r == "N/A" || (m.Some? && r == m.value)
  {
    if Found(m) then m.value else "N/A"
  }

  /** The three searches over one text; installments default to "1". */
  datatype Fields = Fields(merchant: Option<string>, amount: Option<string>, installments: string)

  function Extract(text: string): Fields {
    Fields(FindMerchant(text), FindAmount(text), FindInstallments(text).GetOr("1"))
  }

  /** `if establecimiento or monto:` */
  predicate Usable(f: Fields) {
    Found(f.merchant) || Found(f.amount)
  }

  /**
   * The date and time columns from a string timestamp: the first and second
   * whitespace-separated tokens when it holds a ' ', the whole string and
   * "N/A" otherwise. None is the IndexError of `split()[0]` on a timestamp
   * made only of whitespace.
   */
  function SplitTimestamp(ts: string): (r: Option<Stamp>)
    ensures r.Some? && ' ' in ts ==> r.value.day != [] && NoSpace(r.value.day)
    ensures ' ' !in ts ==> r == Some(Stamp(ts, "N/A"))
  {
    if ' ' in ts then
      var words := Words(ts);
      if words == [] then None
      else
        assert words[0] in words;
        Some(Stamp(words[0], if |words| > 1 then words[1] else "N/A"))
    else
      Some(Stamp(ts, "N/A"))
  }

  /** The 'Fecha' and 'Hora' columns. */
  datatype Stamp = Stamp(day: string, time: string)

  /** What the amount adds to the total: float of the Argentine normalisation, when there is an amount. */
  function Contribution(f: Fields): Option<real> {
    if Found(f.amount) then ParseArgentine(f.amount.value) else None
  }

  /** The row built from fields that were found, stamped with the message's timestamp. */
  function RowStep(f: Fields, date: string): Step {
    var stamp := SplitTimestamp(date);
    if stamp.None? then Abort
    else Emit(Record(VISA, OrNA(f.merchant), OrNA(f.amount), f.installments, stamp.value.day, stamp.value.time),
              Contribution(f))
  }

  /** `message.plain or message.html or ""` */
  function FallbackText(m: Message): string {
    if m.plain != [] then m.plain else m.html
  }

  /** One iteration of the Visa loop: the snippet first, then the fallback text. */
  function MessageStep(m: Message): Step {
    if m.snippet != [] && Usable(Extract(m.snippet)) then RowStep(Extract(m.snippet), m.date)
    else if FallbackText(m) != [] && Usable(Extract(FallbackText(m))) then RowStep(Extract(FallbackText(m)), m.date)
    else NoRecord
  }

  // ---------------------------------------------------------------------------
  // Lemmas

  /** The amount found is the longest run of digits, dots and commas after the leftmost "$ " that starts one. */
  lemma FindAmountSpec(s: string)
    ensures FindAmount(s).Some? ==>
              exists i: nat :: AmountStarts(s, i) && FindAmount(s) == Some(AmountRun(s, i + 2))
                               && forall j: nat :: j < i ==> !AmountStarts(s, j)
    ensures FindAmount(s).None? <==> forall i: nat :: !AmountStarts(s, i)
  {
    if FindAmount(s).Some? {
      var k := FindAmountAt(s);
      assert AmountStarts(s, k);
    } else {
      FindAmountAbsent(s);
    }
  }

  /** Where a found amount starts. */
  lemma FindAmountAt(s: string) returns (k: nat)
    requires FindAmount(s).Some?
    ensures AmountStarts(s, k) && FindAmount(s) == Some(AmountRun(s, k + 2))
    ensures forall j: nat :: j < k ==> !AmountStarts(s, j)
  {
    var f := (i: nat) => AmountAt(s, i);
    k := SearchPosition(|s|, f, 0);
    assert f(k) == AmountAt(s, k);
    NoEarlierAmount(s, f, k);
  }

  /** No "$ " amount starts before k when the matcher `f` of FindAmount failed at every earlier position. */
  lemma NoEarlierAmount(s: string, f: nat -> Option<string>, k: nat)
    requires f == ((i: nat) => AmountAt(s, i))
    requires forall j :: 0 <= j < k ==> f(j).None?
    ensures forall j: nat :: j < k ==> !AmountStarts(s, j)
  {
    forall j: nat | j < k ensures !AmountStarts(s, j) {
      assert f(j).None?;
      assert f(j) == AmountAt(s, j);
    }
  }

  lemma FindAmountAbsent(s: string)
    requires FindAmount(s).None?
    ensures forall i: nat :: !AmountStarts(s, i)
  {
    var f := (i: nat) => AmountAt(s, i);
    forall i: nat ensures !AmountStarts(s, i) {
      if i <= |s| { assert f(i).None?; }
    }
  }

  /** The installments column is a non-empty run of digits: the captured group, or the default "1". */
  lemma InstallmentsAreDigits(text: string)
    ensures Extract(text).installments != [] && AllDigits(Extract(text).installments)
    ensures FindInstallments(text).Some? ==> Extract(text).installments == FindInstallments(text).value
    ensures FindInstallments(text).None? ==> Extract(text).installments == "1"
  {
    var f := (i: nat) => InstallmentsAt(text, i);
    if FindInstallments(text).Some? {
      var k: nat :| k <= |text| && f(k) == FindInstallments(text);
      assert InstallmentsAt(text, k).Some?;
    }
  }

  /** A found merchant holds neither the ',' that ends it nor a line break. */
  lemma MerchantOnOneLine(text: string)
    ensures FindMerchant(text).Some? ==> ',' !in FindMerchant(text).value && '\n' !in FindMerchant(text).value
  {
    var f := (i: nat) => MerchantAt(text, i);
    if FindMerchant(text).Some? {
      var k: nat :| k <= |text| && f(k) == FindMerchant(text);
      assert MerchantAt(text, k).Some?;
    }
  }

  // ---------------------------------------------------------------------------
  // Lemmas: where the merchant and installments patterns match

  /**
   * A match of `establecimiento (.*?),` at i ending at the ',' in position
   * j: the keyword, then anything but a line break up to that ','.
   */
  predicate MerchantMatch(s: string, i: nat, j: nat) {
    && LabelAt(s, i, "establecimiento ") && i + 16 <= j < |s| && s[j] == ','
    && forall k :: i + 16 <= k < j ==> s[k] != '\n'
  }

  ghost predicate MerchantStarts(s: string, i: nat) {
    exists j: nat :: MerchantMatch(s, i, j)
  }

  /** The merchant pattern succeeds at i exactly when it can match there, and the lazy group stops at the first ','. */
  lemma MerchantAtSpec(s: string, i: nat)
    ensures MerchantAt(s, i).Some? <==> MerchantStarts(s, i)
    ensures MerchantAt(s, i).Some? ==>
              exists j: nat :: && MerchantMatch(s, i, j) && (forall k :: i + 16 <= k < j ==> s[k] != ',')
                               && MerchantAt(s, i) == Some(s[i + 16..j])
  {
    MerchantAtIff(s, i);
    if MerchantAt(s, i).Some? {
      var j := MerchantFound(s, i);
    }
  }

  lemma MerchantAtIff(s: string, i: nat)
    ensures MerchantAt(s, i).Some? <==> MerchantStarts(s, i)
  {
    LabelStarts(s, i, "establecimiento ");
    if MerchantAt(s, i).Some? {
      var j := MerchantFound(s, i);
    }
    forall j: nat | MerchantMatch(s, i, j) ensures MerchantAt(s, i).Some? {
      RunEndBefore(s, i + 16, j, InMerchant);
    }
  }

  /** Where the merchant found at i ends: the first ',' after the keyword, with no line break before it. */
  lemma MerchantFound(s: string, i: nat) returns (j: nat)
    requires MerchantAt(s, i).Some?
    ensures MerchantMatch(s, i, j) && (forall k :: i + 16 <= k < j ==> s[k] != ',')
    ensures MerchantAt(s, i) == Some(s[i + 16..j])
  {
    LabelStarts(s, i, "establecimiento ");
    j := RunEnd(s, i + 16, InMerchant);
  }

  /** re.search for the merchant pattern: nothing when it matches nowhere, else the lazy group of the leftmost match. */
  lemma FindMerchantSpec(s: string)
    ensures FindMerchant(s).None? <==> forall i: nat :: !MerchantStarts(s, i)
    ensures FindMerchant(s).Some? ==>
              exists i: nat, j: nat :: && MerchantMatch(s, i, j) && (forall k :: i + 16 <= k < j ==> s[k] != ',')
                                       && FindMerchant(s) == Some(s[i + 16..j])
                                       && forall i': nat :: i' < i ==> !MerchantStarts(s, i')
  {
    var f := (i: nat) => MerchantAt(s, i);
    var g := (i: nat) => MerchantStarts(s, i);
    forall i: nat ensures (f(i).Some? <==> g(i)) && (g(i) ==> i <= |s|) {
      MerchantAtIff(s, i);
    }
    var k := SearchSpec(|s|, f, g);
    assert FindMerchant(s) == Search(|s|, f, 0);
    MerchantNowhere(s, g, FindMerchant(s));
    MerchantLeftmost(s, f, g, k, FindMerchant(s));
  }

  lemma MerchantLeftmost(s: string, f: nat -> Option<string>, g: nat -> bool, k: nat, r: Option<string>)
    requires f == ((i: nat) => MerchantAt(s, i)) && g == ((i: nat) => MerchantStarts(s, i))
    requires r.Some? ==> g(k) && f(k) == r && forall j: nat :: j < k ==> !g(j)
    ensures r.Some? ==>
              exists i: nat, j: nat :: && MerchantMatch(s, i, j) && (forall k :: i + 16 <= k < j ==> s[k] != ',')
                                       && r == Some(s[i + 16..j])
                                       && forall i': nat :: i' < i ==> !MerchantStarts(s, i')
  {
    if r.Some? {
      assert f(k).Some?;
      var j := MerchantFound(s, k);
      forall i': nat | i' < k ensures !MerchantStarts(s, i') {
        assert !g(i');
      }
      assert MerchantMatch(s, k, j) && r == Some(s[k + 16..j]);
    }
  }

  lemma MerchantNowhere(s: string, g: nat -> bool, r: Option<string>)
    requires g == ((i: nat) => MerchantStarts(s, i))
    requires r.None? <==> forall i: nat :: !g(i)
    ensures r.None? <==> forall i: nat :: !MerchantStarts(s, i)
  {
    if r.None? {
      forall i: nat ensures !MerchantStarts(s, i) {
        assert !g(i);
      }
    } else {
      var i: nat :| g(i);
      assert MerchantStarts(s, i);
    }
  }

  /**
   * A match of `(\d+)\s*cuotas?` (ignoring case) at i: digits on [i, k),
   * blanks on [k, w), then "cuota" in any case. The optional 's' never
   * decides whether the pattern matches.
   */
  predicate InstallmentsMatch(s: string, i: nat, k: nat, w: nat) {
    && i < k && Blanks(s, k, w) && w + 5 <= |s|
    && (forall j :: i <= j < k ==> IsDigit(s[j]))
    && FoldsTo(s[w], 'c') && FoldsTo(s[w + 1], 'u') && FoldsTo(s[w + 2], 'o')
    && FoldsTo(s[w + 3], 't') && FoldsTo(s[w + 4], 'a')
  }

  ghost predicate InstallmentsStarts(s: string, i: nat) {
    exists k: nat, w: nat :: InstallmentsMatch(s, i, k, w)
  }

  /** The installments pattern succeeds at i exactly when it can match there, and captures every digit from i on. */
  lemma InstallmentsAtSpec(s: string, i: nat)
    ensures InstallmentsAt(s, i).Some? <==> InstallmentsStarts(s, i)
    ensures InstallmentsAt(s, i).Some? ==>
              exists k: nat, w: nat :: InstallmentsMatch(s, i, k, w) && DigitsEnd(s, k) && InstallmentsAt(s, i) == Some(s[i..k])
  {
    if InstallmentsAt(s, i).Some? {
      var k, w := InstallmentsFound(s, i);
    }
    forall k: nat, w: nat | InstallmentsMatch(s, i, k, w) ensures InstallmentsAt(s, i).Some? {
      InstallmentsMatchFound(s, i, k, w);
    }
  }

  lemma InstallmentsFound(s: string, i: nat) returns (k: nat, w: nat)
    requires InstallmentsAt(s, i).Some?
    ensures InstallmentsMatch(s, i, k, w) && DigitsEnd(s, k) && InstallmentsAt(s, i) == Some(s[i..k])
  {
    k := RunEnd(s, i, IsDigit);
    w := RunEnd(s, k, IsSpace);
  }

  lemma InstallmentsMatchFound(s: string, i: nat, k: nat, w: nat)
    requires InstallmentsMatch(s, i, k, w)
    ensures InstallmentsAt(s, i) == Some(s[i..k])
  {
    InstallmentsForced(s, i, k, w);
  }


  /** Blanks and the letters of "cuota" are not digits, and the letters are not blanks: a match has one shape. */
  lemma InstallmentsForced(s: string, i: nat, k: nat, w: nat)
    requires InstallmentsMatch(s, i, k, w)
    ensures k == RunEnd(s, i, IsDigit) && w == RunEnd(s, k, IsSpace)
  {
    assert !IsDigit(s[k]);
    RunEndIs(s, i, k, IsDigit);
    BlanksEnd(s, k, w);
  }

  /** re.search for the installments pattern: nothing when it matches nowhere, else the digits of the leftmost match. */
  lemma FindInstallmentsSpec(s: string)
    ensures FindInstallments(s).None? <==> forall i: nat :: !InstallmentsStarts(s, i)
    ensures FindInstallments(s).Some? ==>
              exists i: nat, k: nat, w: nat :: && InstallmentsMatch(s, i, k, w) && DigitsEnd(s, k)
                                               && FindInstallments(s) == Some(s[i..k])
                                               && forall j: nat :: j < i ==> !InstallmentsStarts(s, j)
  {
    var f := (i: nat) => InstallmentsAt(s, i);
    var g := (i: nat) => InstallmentsStarts(s, i);
    forall i: nat ensures (f(i).Some? <==> g(i)) && (g(i) ==> i <= |s|) {
      InstallmentsAtSpec(s, i);
    }
    var k := SearchSpec(|s|, f, g);
    InstallmentsLeftmost(s, f, g, k);
  }

  lemma InstallmentsLeftmost(s: string, f: nat -> Option<string>, g: nat -> bool, k: nat)
    requires f == ((i: nat) => InstallmentsAt(s, i)) && g == ((i: nat) => InstallmentsStarts(s, i))
    requires Search(|s|, f, 0).None? <==> forall i: nat :: !g(i)
    requires Search(|s|, f, 0).Some? ==> g(k) && f(k) == Search(|s|, f, 0) && forall j: nat :: j < k ==> !g(j)
    ensures FindInstallments(s).None? <==> forall i: nat :: !InstallmentsStarts(s, i)
    ensures FindInstallments(s).Some? ==>
              exists i: nat, k: nat, w: nat :: && InstallmentsMatch(s, i, k, w) && DigitsEnd(s, k)
                                               && FindInstallments(s) == Some(s[i..k])
                                               && forall j: nat :: j < i ==> !InstallmentsStarts(s, j)
  {
    assert FindInstallments(s) == Search(|s|, f, 0);
    if FindInstallments(s).Some? {
      assert f(k).Some?;
      InstallmentsAtSpec(s, k);
      var e: nat, w: nat :| InstallmentsMatch(s, k, e, w) && DigitsEnd(s, e) && InstallmentsAt(s, k) == Some(s[k..e]);
      forall j: nat | j < k ensures !InstallmentsStarts(s, j) {
        assert !g(j);
      }
      assert InstallmentsMatch(s, k, e, w) && FindInstallments(s) == Some(s[k..e]);
    } else {
      forall i: nat ensures !InstallmentsStarts(s, i) {
        assert !g(i);
      }
    }
  }

  /** The amount found is a non-empty run of digits, dots and commas. */
  lemma AmountChars(text: string)
    ensures FindAmount(text).Some? ==> FindAmount(text).value != []
    ensures FindAmount(text).Some? ==>
              forall k :: 0 <= k < |FindAmount(text).value| ==> IsAmountChar(FindAmount(text).value[k])
  {
    FindAmountSpec(text);
  }

  /** A timestamp "date time" splits into those two columns. */
  lemma StampOfDateAndTime(d: string, t: string)
    requires d != [] && NoSpace(d) && t != [] && NoSpace(t)
    ensures SplitTimestamp(d + " " + t) == Some(Stamp(d, t))
  {
    var ts := d + " " + t;
    assert ts[|d|] == ' ';
    WordsOfTwo(d, t);
  }

  /** A date followed by a lone space has no time: the time column is 'N/A'. */
  lemma StampOfDateOnly(d: string)
    requires d != [] && NoSpace(d)
    ensures SplitTimestamp(d + " ") == Some(Stamp(d, "N/A"))
  {
    var ts := d + " ";
    assert ts[|d|] == ' ';
    var k := RunEnd(ts, 0, NotSpace);
    assert k == |d|;
    assert ts[..k] == d;
    assert ts[k..] == " ";
    WordsOfBlank(" ");
  }

  /**
   * A timestamp holding a space whose first two tokens are d and t, however
   * much whitespace surrounds them and whatever follows: date d, time t.
   */
  lemma StampOfTokens(b: string, d: string, c: string, t: string, rest: string)
    requires forall i :: 0 <= i < |b| ==> IsSpace(b[i])
    requires c != [] && forall i :: 0 <= i < |c| ==> IsSpace(c[i])
    requires d != [] && NoSpace(d) && t != [] && NoSpace(t)
    requires rest == [] || IsSpace(rest[0])
    requires ' ' in b + d + c + t + rest
    ensures SplitTimestamp(b + d + c + t + rest) == Some(Stamp(d, t))
  {
    WordsOfTwoTokens(b, d, c, t, rest);
  }

  /** A timestamp holding a space with a single token d: date d, time 'N/A'. */
  lemma StampOfOneToken(b: string, d: string, c: string)
    requires forall i :: 0 <= i < |b| ==> IsSpace(b[i])
    requires forall i :: 0 <= i < |c| ==> IsSpace(c[i])
    requires d != [] && NoSpace(d)
    requires ' ' in b + d + c
    ensures SplitTimestamp(b + d + c) == Some(Stamp(d, "N/A"))
  {
    var ts := b + d + c;
    assert ts == b + (d + c);
    WordsOfBlanksThen(b, d + c);
    if c != [] {
      assert (d + c)[|d|] == c[0];
    }
    WordsOfTokenThen(d, c);
    WordsOfBlank(c);
    assert Words(ts) == [d];
  }

  /** `split()[0]` raises exactly on a timestamp holding a space and nothing but whitespace. */
  lemma StampFails(ts: string)
    ensures SplitTimestamp(ts).None? <==> ' ' in ts && forall i :: 0 <= i < |ts| ==> IsSpace(ts[i])
  {
    WordsOfBlank(ts);
  }

  /**
   * An alert raises exactly when its snippet or its fallback text yields
   * fields and its timestamp holds a space and nothing but whitespace.
   */
  lemma AbortWhen(m: Message)
    ensures MessageStep(m).Abort? <==>
              && ((m.snippet != [] && Usable(Extract(m.snippet)))
                  || (FallbackText(m) != [] && Usable(Extract(FallbackText(m)))))
              && ' ' in m.date && forall i :: 0 <= i < |m.date| ==> IsSpace(m.date[i])
  {
    StampFails(m.date);
  }

  /** What a Visa row adds to the total, read back from the row: nothing for 'N/A', else its Argentine parse. */
  function RowAmount(r: Record): Option<real> {
    if r.amount == "N/A" then None else ParseArgentine(r.amount)
  }

  lemma FoundAmountNotNA(a: string)
    requires a != [] && forall k :: 0 <= k < |a| ==> IsAmountChar(a[k])
    ensures a != "N/A"
  {
    assert IsAmountChar(a[0]);
  }

  /** A row built from extracted fields adds exactly what its Monto column reads as. */
  lemma RowStepAmount(text: string, date: string)
    ensures RowStep(Extract(text), date).Emit? ==>
              RowStep(Extract(text), date).amount == RowAmount(RowStep(Extract(text), date).record)
  {
    var f := Extract(text);
    AmountChars(text);
    if Found(f.amount) {
      FoundAmountNotNA(f.amount.value);
    }
  }

  /**
   * Every Visa row: card VISA, a digit-only installments column, the
   * amount it adds being what its Monto column reads as, and that amount
   * added exactly when Monto has a digit and at most one ','.
   */
  lemma StepRecord(m: Message)
    ensures MessageStep(m).Emit? ==>
              var r := MessageStep(m).record;
              && r.card == VISA
              && r.installments != [] && AllDigits(r.installments)
              && MessageStep(m).amount == RowAmount(r)
              && (RowAmount(r).Some? <==> r.amount != "N/A" && HasDigit(r.amount) && Count(r.amount, ',') <= 1)
  {
    if MessageStep(m).Emit? {
      var text := if m.snippet != [] && Usable(Extract(m.snippet)) then m.snippet else FallbackText(m);
      assert MessageStep(m) == RowStep(Extract(text), m.date);
      InstallmentsAreDigits(text);
      AmountChars(text);
      RowFacts(Extract(text), m.date);
    }
  }

  /**
   * No Visa row has an empty Establecimiento, Monto or Cuotas cell: a group
   * that is missing or empty is written as 'N/A', and installments default
   * to "1".
   */
  lemma NoEmptyCells(m: Message)
    ensures MessageStep(m).Emit? ==>
              var r := MessageStep(m).record;
              r.merchant != [] && r.amount != [] && r.installments != []
  {
    if MessageStep(m).Emit? {
      var text := if m.snippet != [] && Usable(Extract(m.snippet)) then m.snippet else FallbackText(m);
      assert MessageStep(m) == RowStep(Extract(text), m.date);
      InstallmentsAreDigits(text);
    }
  }

  /** The facts of StepRecord for the row built from fields whose shapes the patterns guarantee. */
  lemma RowFacts(f: Fields, date: string)
    requires f.installments != [] && AllDigits(f.installments)
    requires f.amount.Some? ==> forall k :: 0 <= k < |f.amount.value| ==> IsAmountChar(f.amount.value[k])
    ensures RowStep(f, date).Emit? ==>
              var r := RowStep(f, date).record;
              && r.card == VISA
              && r.installments != [] && AllDigits(r.installments)
              && RowStep(f, date).amount == RowAmount(r)
              && (RowAmount(r).Some? <==> r.amount != "N/A" && HasDigit(r.amount) && Count(r.amount, ',') <= 1)
  {
    if Found(f.amount) {
      FoundAmountNotNA(f.amount.value);
      ParseArgentineAccepts(f.amount.value);
    }
  }

  /** A usable snippet decides the row on its own: the bodies are not looked at. */
  lemma SnippetFirst(m: Message, plain: string, html: string)
    requires m.snippet != [] && Usable(Extract(m.snippet))
    ensures MessageStep(m) == MessageStep(m.(plain := plain, html := html))
    ensures MessageStep(m) == RowStep(Extract(m.snippet), m.date)
  {
  }

  /** Without a usable snippet the row comes from `plain or html`; with neither usable there is none. */
  lemma BodyFallback(m: Message)
    requires m.snippet == [] || !Usable(Extract(m.snippet))
    ensures Usable(Extract(FallbackText(m))) ==> MessageStep(m) == RowStep(Extract(FallbackText(m)), m.date)
    ensures !Usable(Extract(FallbackText(m))) ==> MessageStep(m) == NoRecord
  {
  }
}
