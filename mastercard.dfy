/**
 * The Mastercard alert extractor. With an HTML body it reads the texts of
 * the <li type="disc"> items, classifying each by the first label it
 * contains and keeping the last value per label; without one it searches
 * the plain-text body with five fixed patterns. Either way the amount is
 * read in US notation and shown in Argentine notation.
 */
module Mastercard {
  import opened Wrappers
  import opened Text
  import opened Amounts
  import opened Records

  // ---------------------------------------------------------------------------
  // HTML branch: labelled <li> items

  datatype Label = Comercio | Importe | Fecha | Hora | Cuotas

  /** The text whose presence selects the label. */
  function LabelText(l: Label): string {
    match l
    case Comercio => "Comercio:"
    case Importe => "Importe:"
    case Fecha => "Fecha:"
    case Hora => "Hora:"
    case Cuotas => "Cantidad cuotas:"
  }

  /** Position of the label in the elif chain. */
  function Rank(l: Label): nat {
    match l
    case Comercio => 0
    case Importe => 1
    case Fecha => 2
    case Hora => 3
    case Cuotas => 4
  }

  /** One classified item: the key it sets in `data` and the value it stores. */
  datatype Entry = Entry(key: Label, value: string)

  /**
   * text.split(':', 1)[1].strip(): everything after the first ':', trimmed.
   * Without a ':' Python raises IndexError; a classified item always holds
   * one (ClassifiedHasColon), so that case never arises and yields "".
   */
  function AfterColon(text: string): string {
    var k := IndexOf(text, ':');
    if k < |text| then Strip(text[k + 1..]) else ""
  }

  /** The elif chain: the first label in the order Comercio, Importe, Fecha, Hora, Cantidad cuotas found in the text. */
  function LabelOf(text: string): Option<Label> {
    if Contains(text, "Comercio:") then Some(Comercio)
    else if Contains(text, "Importe:") then Some(Importe)
    else if Contains(text, "Fecha:") then Some(Fecha)
    else if Contains(text, "Hora:") then Some(Hora)
    else if Contains(text, "Cantidad cuotas:") then Some(Cuotas)
    else None
  }

  /** The value stored under a label: the text after the colon; for Importe also without any '$'. */
  function ValueFor(l: Label, text: string): string {
    if l == Importe then Strip(RemoveChar(AfterColon(text), '$')) else AfterColon(text)
  }

  /** The branch of the elif chain one whitespace-normalised item takes. */
  function Classify(text: string): Option<Entry> {
    match LabelOf(text)
    case Some(l) => Some(Entry(l, ValueFor(l, text)))
    case None => None
  }

  /** One <li> text as the loop sees it: whitespace collapsed, then classified. */
  function Item(raw: string): Option<Entry> {
    Classify(CollapseWhitespace(raw))
  }

  /** `data[key] = value` for a classified item; an unclassified item leaves `data` alone. */
  function Store(data: map<Label, string>, e: Option<Entry>): map<Label, string> {
    if e.Some? then data[e.value.key := e.value.value] else data
  }

  /** Storing item after item, each through `classify`. */
  function Gather(items: seq<string>, classify: string -> Option<Entry>): map<Label, string> {
    if items == [] then map[] else Store(Gather(items[..|items| - 1], classify), classify(items[|items| - 1]))
  }

  /** The `data` dict after the loop over the items: each classified item overwrites its key. */
  function Fields(items: seq<string>): map<Label, string> {
    Gather(items, Item)
  }

  lemma FieldsSnoc(items: seq<string>, n: nat)
    requires n < |items|
    ensures Fields(items[..n + 1]) == Store(Fields(items[..n]), Item(items[n]))
  {
    assert items[..n + 1][..n] == items[..n];
  }

  /** The `for item in list_items` loop filling `data`. */
  method CollectFields(items: seq<string>) returns (data: map<Label, string>)
    ensures data == Fields(items)
  {
    data := map[];
    var n := 0;
    while n < |items|
      invariant 0 <= n <= |items|
      invariant data == Fields(items[..n])
    {
      var e := Item(items[n]);
      if e.Some? {
        data := data[e.value.key := e.value.value];
      }
      FieldsSnoc(items, n);
      n := n + 1;
    }
    assert items[..n] == items;
  }

  /** data.get(key, default) */
  function Get(data: map<Label, string>, l: Label, default: string): (r: string)
    ensures r == default || r in data.Values
  {
    if l in data then data[l] else default
  }

  // ---------------------------------------------------------------------------
  // The row and the amount, shared by both branches

  /** `importe.replace('$', '').strip() if importe != 'N/A' else 'N/A'` */
  function CleanImporte(importe: string): string {
    if importe != "N/A" then Strip(RemoveChar(importe, '$')) else "N/A"
  }

  /** The Monto column: the US amount shown in Argentine form, or the cleaned text when it does not parse. */
  function DisplayImporte(clean: string): string {
    if clean != "N/A" then
      match ParseUS(clean)
      case Some(v) => Display(v)
      case None => clean
    else clean
  }

  /** What the amount adds to the total: its US parse, when it is present and not 'N/A'. */
  function ImporteValue(clean: string): Option<real> {
    if clean != [] && clean != "N/A" then ParseUS(clean) else None
  }

  /** The row appended for one message, and what it adds to the total. */
  function RowStep(comercio: string, importe: string, fecha: string, hora: string, cuotas: string): Step {
    var clean := CleanImporte(importe);
    Emit(Record(MASTERCARD, comercio, DisplayImporte(clean), cuotas, fecha, hora), ImporteValue(clean))
  }

  /** A row step is the row with its displayed and its added amount. */
  lemma RowStepParts(comercio: string, importe: string, fecha: string, hora: string, cuotas: string)
    ensures RowStep(comercio, importe, fecha, hora, cuotas)
            == Emit(Record(MASTERCARD, comercio, DisplayImporte(CleanImporte(importe)), cuotas, fecha, hora),
                    ImporteValue(CleanImporte(importe)))
  {
  }

  /** `if data:` and the defaults 'N/A' and '01'. */
  function HtmlStep(items: seq<string>): Step {
    var data := Fields(items);
    if data == map[] then NoRecord
    else RowStep(Get(data, Comercio, "N/A"), Get(data, Importe, "N/A"), Get(data, Fecha, "N/A"),
                 Get(data, Hora, "N/A"), Get(data, Cuotas, "01"))
  }

  // ---------------------------------------------------------------------------
  // Plain-text branch: five fixed patterns

  predicate NotNewline(c: char) {
    c != '\n'
  }

  predicate IsDigitOrComma(c: char) {
    IsDigit(c) || c == ','
  }

  /** The last position in [lo, hi) that is not a line break, if any. */
  function LastNotNewline(s: string, lo: nat, hi: nat): (r: Option<nat>)
    requires lo <= hi <= |s|
    ensures r.Some? ==> lo <= r.value < hi && s[r.value] != '\n'
    ensures r.Some? ==> forall j :: r.value < j < hi ==> s[j] == '\n'
    ensures r.None? ==> forall j :: lo <= j < hi ==> s[j] == '\n'
    decreases hi - lo
  {
    if hi == lo then None else if s[hi - 1] != '\n' then Some(hi - 1) else LastNotNewline(s, lo, hi - 1)
  }

  /** `tag` occurs at position i; the end of the whitespace after it. */
  function AfterLabel(s: string, i: nat, tag: string): (w: nat)
    requires i <= |s| && StartsWith(s[i..], tag)
    ensures i + |tag| <= w <= |s|
    ensures forall j :: i + |tag| <= j < w ==> IsSpace(s[j])
    ensures w < |s| ==> !IsSpace(s[w])
  {
    RunEnd(s, i + |tag|, IsSpace)
  }

  /**
   * `Comercio:\s*([^\n]+)` tried at position i. After the greedy blanks the
   * group is the rest of the line; when the blanks run to the end of the
   * text, backtracking hands the group the last blank that is not a line
   * break.
   */
  function ComercioAt(s: string, i: nat): (r: Option<string>)
    ensures r.Some? ==> r.value != [] && '\n' !in r.value
  {
    if i <= |s| && StartsWith(s[i..], "Comercio:") then
      var w := AfterLabel(s, i, "Comercio:");
      if w < |s| then
        Some(s[w..RunEnd(s, w, NotNewline)])
      else
        match LastNotNewline(s, i + 9, w)
        case Some(j) => Some(s[j..j + 1])
        case None => None
    else
      None
  }

  /**
   * `Importe:\s*\$?([\d,]+(?:\.\d+)?)` tried at position i: blanks, an
   * optional '$', a run of digits and commas, and a '.' with digits when
   * one follows.
   */
  function ImporteAt(s: string, i: nat): (r: Option<string>)
    ensures r.Some? ==> UsNumber(r.value)
  {
    if i <= |s| && StartsWith(s[i..], "Importe:") then
      var w := AfterLabel(s, i, "Importe:");
      var p := if w < |s| && s[w] == '$' then w + 1 else w;
      var e := RunEnd(s, p, IsDigitOrComma);
      if e == p then None
      else
        var f := FractionEnd(s, e);
        ImporteShape(s, p, e, f);
        Some(s[p..f])
    else
      None
  }

  /** `(?:\.\d+)?` after position e: the end of '.' and its digits when they follow, else e itself. */
  function FractionEnd(s: string, e: nat): (f: nat)
    requires e <= |s|
    ensures e <= f <= |s|
    ensures f == e <==> !(e + 1 < |s| && s[e] == '.' && IsDigit(s[e + 1]))
    ensures f != e ==> f >= e + 2 && s[e] == '.' && forall j :: e < j < f ==> IsDigit(s[j])
    ensures f != e ==> f == |s| || !IsDigit(s[f])
  {
    if e + 1 < |s| && s[e] == '.' && IsDigit(s[e + 1]) then RunEnd(s, e + 1, IsDigit) else e
  }

  /** The integer part [\d,]+ and the optional fraction \.\d+ of a plain-text Importe. */
  predicate UsNumberParts(whole: string, frac: string) {
    && whole != [] && (forall k :: 0 <= k < |whole| ==> IsDigitOrComma(whole[k]))
    && (frac == [] || (|frac| >= 2 && frac[0] == '.' && AllDigits(frac[1..])))
  }

  /** Text the Importe group can capture. */
  predicate UsNumber(g: string) {
    exists k :: 0 <= k <= |g| && UsNumberParts(g[..k], g[k..])
  }

  /** Digits and commas on [p, e), then nothing or '.' and digits on [e, f): what the Importe group captures. */
  lemma ImporteShape(s: string, p: nat, e: nat, f: nat)
    requires p < e <= f <= |s|
    requires forall j :: p <= j < e ==> IsDigitOrComma(s[j])
    requires f == e || (f >= e + 2 && s[e] == '.' && forall j :: e < j < f ==> IsDigit(s[j]))
    ensures UsNumber(s[p..f])
  {
    var g, whole, frac := s[p..f], s[p..e], s[e..f];
    forall k | 0 <= k < |whole| ensures IsDigitOrComma(whole[k]) {
      assert whole[k] == s[p + k];
    }
    if f != e {
      assert frac[0] == s[e];
      forall k | 0 <= k < |frac| - 1 ensures IsDigit(frac[1..][k]) {
        assert frac[1..][k] == s[e + 1 + k];
      }
    }
    assert UsNumberParts(whole, frac);
    assert g[..e - p] == whole && g[e - p..] == frac;
  }

  /** dd/dd/dddd */
  predicate DateShape(t: string) {
    && |t| == 10 && t[2] == '/' && t[5] == '/'
    && IsDigit(t[0]) && IsDigit(t[1]) && IsDigit(t[3]) && IsDigit(t[4])
    && IsDigit(t[6]) && IsDigit(t[7]) && IsDigit(t[8]) && IsDigit(t[9])
  }

  /** dd:dd */
  predicate TimeShape(t: string) {
    |t| == 5 && t[2] == ':' && IsDigit(t[0]) && IsDigit(t[1]) && IsDigit(t[3]) && IsDigit(t[4])
  }

  /** `Fecha:\s*(\d{2}/\d{2}/\d{4})` tried at position i. */
  function FechaAt(s: string, i: nat): (r: Option<string>)
    ensures r.Some? ==> DateShape(r.value)
  {
    if i <= |s| && StartsWith(s[i..], "Fecha:") then
      var w := AfterLabel(s, i, "Fecha:");
      if w + 10 <= |s| && DateShape(s[w..w + 10]) then Some(s[w..w + 10]) else None
    else
      None
  }

  /** `Hora:\s*(\d{2}:\d{2})` tried at position i. */
  function HoraAt(s: string, i: nat): (r: Option<string>)
    ensures r.Some? ==> TimeShape(r.value)
  {
    if i <= |s| && StartsWith(s[i..], "Hora:") then
      var w := AfterLabel(s, i, "Hora:");
      if w + 5 <= |s| && TimeShape(s[w..w + 5]) then Some(s[w..w + 5]) else None
    else
      None
  }

  /** `Cantidad cuotas:\s*(\d+)` tried at position i. */
  function CuotasAt(s: string, i: nat): (r: Option<string>)
    ensures r.Some? ==> r.value != [] && AllDigits(r.value)
  {
    if i <= |s| && StartsWith(s[i..], "Cantidad cuotas:") then
      var w := AfterLabel(s, i, "Cantidad cuotas:");
      var e := RunEnd(s, w, IsDigit);
      if e > w then Some(s[w..e]) else None
    else
      None
  }

  function FindComercio(s: string): Option<string> {
    Search(|s|, (i: nat) => ComercioAt(s, i), 0)
  }

  function FindImporte(s: string): Option<string> {
    Search(|s|, (i: nat) => ImporteAt(s, i), 0)
  }

  function FindFecha(s: string): Option<string> {
    Search(|s|, (i: nat) => FechaAt(s, i), 0)
  }

  function FindHora(s: string): Option<string> {
    Search(|s|, (i: nat) => HoraAt(s, i), 0)
  }

  function FindCuotas(s: string): Option<string> {
    Search(|s|, (i: nat) => CuotasAt(s, i), 0)
  }

  /** `if any([comercio_match, importe_match, fecha_match, hora_match])` with the defaults 'N/A' and '01'. */
  function PlainStep(text: string): Step {
    var c, im, f, h := FindComercio(text), FindImporte(text), FindFecha(text), FindHora(text);
    if c.Some? || im.Some? || f.Some? || h.Some? then
      RowStep(c.GetOr("N/A"), im.GetOr("N/A"), f.GetOr("N/A"), h.GetOr("N/A"), FindCuotas(text).GetOr("01"))
    else
      NoRecord
  }

  /** One iteration of the Mastercard loop: HTML when there is any, else plain text. */
  function MessageStep(m: Message): Step {
    if m.html != [] then HtmlStep(m.listItems)
    else if m.plain != [] then PlainStep(m.plain)
    else NoRecord
  }

  // ---------------------------------------------------------------------------
  // Lemmas: the HTML branch

  /** The elif chain: an item is classified exactly when it holds a label, and the earliest label in the chain wins. */
  lemma ClassifyOrder(text: string)
    ensures LabelOf(text).Some? <==> exists l: Label :: Contains(text, LabelText(l))
    ensures LabelOf(text).Some? ==> Contains(text, LabelText(LabelOf(text).value))
    ensures LabelOf(text).Some? ==> forall l: Label :: Rank(l) < Rank(LabelOf(text).value) ==> !Contains(text, LabelText(l))
  {
    if LabelOf(text).None? {
      forall l: Label ensures !Contains(text, LabelText(l)) {
      }
    } else {
      assert Contains(text, LabelText(LabelOf(text).value));
    }
  }

  /** The colon split(':', 1) needs is always there: every label ends with one. */
  lemma ClassifiedHasColon(text: string)
    requires LabelOf(text).Some?
    ensures ':' in text
  {
    ClassifyOrder(text);
    var l := LabelOf(text).value;
    assert ':' in LabelText(l) by { assert LabelText(l)[|LabelText(l)| - 1] == ':'; }
    ContainsChar(text, LabelText(l), ':');
  }

  /** split(':', 1)[1].strip() takes everything after the first ':', even when the value holds more. */
  lemma AfterFirstColon(key: string, v: string)
    requires ':' !in key
    ensures AfterColon(key + ":" + v) == Strip(v)
  {
    var text := key + ":" + v;
    assert text[|key|] == ':';
    assert IndexOf(text, ':') == |key| by {
      assert forall j :: 0 <= j < |key| ==> text[j] == key[j];
    }
    assert text[|key| + 1..] == v;
  }

  /** A text starting "Hora:" in which none of the earlier labels of the chain occurs is a time. */
  lemma HoraLabel(text: string)
    requires StartsWith(text, "Hora:")
    requires !Contains(text, "Comercio:") && !Contains(text, "Importe:") && !Contains(text, "Fecha:")
    ensures LabelOf(text) == Some(Hora)
  {
    assert Contains(text, "Hora:");
  }

  /** An item "Hora: v" without an earlier label is a time whose value is v trimmed, colons in v included. */
  lemma HoraItem(v: string)
    requires !Contains("Hora: " + v, "Comercio:") && !Contains("Hora: " + v, "Importe:")
    requires !Contains("Hora: " + v, "Fecha:")
    ensures Classify("Hora: " + v) == Some(Entry(Hora, Strip(v)))
  {
    var text := "Hora: " + v;
    assert text == "Hora" + ":" + (" " + v);
    assert text[..5] == "Hora:";
    HoraValue(text, v);
  }

  lemma HoraValue(text: string, v: string)
    requires text == "Hora" + ":" + (" " + v) && StartsWith(text, "Hora:")
    requires !Contains(text, "Comercio:") && !Contains(text, "Importe:") && !Contains(text, "Fecha:")
    ensures Classify(text) == Some(Entry(Hora, Strip(v)))
  {
    HoraLabel(text);
    AfterFirstColon("Hora", " " + v);
    StripLeadingSpace(v);
  }

  /** `data[key]` was set by some item. */
  predicate Keyed(e: Option<Entry>, l: Label) {
    e.Some? && e.value.key == l
  }

  /**
   * After the loop a key is present exactly when some item carried its
   * label, and its value is the one of the last such item.
   */
  lemma {:induction false} LastItemWins(items: seq<string>, classify: string -> Option<Entry>, l: Label)
    ensures l in Gather(items, classify) <==> exists i :: 0 <= i < |items| && Keyed(classify(items[i]), l)
    ensures forall i ::
              && 0 <= i < |items| && Keyed(classify(items[i]), l)
              && (forall j :: i < j < |items| ==> !Keyed(classify(items[j]), l))
              ==> l in Gather(items, classify) && Gather(items, classify)[l] == classify(items[i]).value.value
  {
    if items != [] {
      var init := items[..|items| - 1];
      var last := items[|items| - 1];
      LastItemWins(init, classify, l);
      assert forall i :: 0 <= i < |init| ==> init[i] == items[i];
      if !Keyed(classify(last), l) {
        assert l in Gather(items, classify) <==> l in Gather(init, classify);
        if l in Gather(items, classify) {
          assert Gather(items, classify)[l] == Gather(init, classify)[l];
        }
      }
    }
  }

  /** `if data:` holds exactly when some item was classified. */
  lemma {:induction false} GatherEmpty(items: seq<string>, classify: string -> Option<Entry>)
    ensures Gather(items, classify) == map[] <==> forall i :: 0 <= i < |items| ==> classify(items[i]).None?
  {
    if items != [] {
      var init := items[..|items| - 1];
      GatherEmpty(init, classify);
      assert forall i :: 0 <= i < |init| ==> init[i] == items[i];
      var e := classify(items[|items| - 1]);
      if e.Some? {
        assert e.value.key in Gather(items, classify);
      }
    }
  }

  /** An HTML alert yields a row exactly when one of its items carries a label. */
  lemma HtmlRecordIff(items: seq<string>)
    ensures HtmlStep(items).Emit? <==> exists i :: 0 <= i < |items| && Item(items[i]).Some?
    ensures HtmlStep(items).Emit? ==> HtmlStep(items).record.installments == Get(Fields(items), Cuotas, "01")
  {
    GatherEmpty(items, Item);
  }

  /** The cell of a row that a label fills. */
  function Column(r: Record, l: Label): string {
    match l
    case Comercio => r.merchant
    case Importe => r.amount
    case Fecha => r.date
    case Hora => r.time
    case Cuotas => r.installments
  }

  /** The default of `data.get`: '01' for the installments, 'N/A' for the rest. */
  function Default(l: Label): string {
    if l == Cuotas then "01" else "N/A"
  }

  /** How a stored value is written to its cell: the amount cleaned and displayed, the rest as stored. */
  function Shown(l: Label, v: string): string {
    if l == Importe then DisplayImporte(CleanImporte(v)) else v
  }

  /**
   * In the row of an HTML alert, each label's cell shows the value of the
   * last item carrying that label, or the label's default when no item does.
   */
  lemma HtmlColumns(items: seq<string>, l: Label)
    requires HtmlStep(items).Emit?
    ensures (forall i :: 0 <= i < |items| ==> !Keyed(Item(items[i]), l)) ==>
              Column(HtmlStep(items).record, l) == Shown(l, Default(l))
    ensures forall i ::
              && 0 <= i < |items| && Keyed(Item(items[i]), l)
              && (forall j :: i < j < |items| ==> !Keyed(Item(items[j]), l))
              ==> Column(HtmlStep(items).record, l) == Shown(l, Item(items[i]).value.value)
  {
    var data := Fields(items);
    assert data == Gather(items, Item);
    LastItemWins(items, Item, l);
    HtmlCell(items, l);
    if l !in data {
      assert Get(data, l, Default(l)) == Default(l);
    }
  }

  /** A label's cell in the row of an HTML alert is `data.get` of that label with its default, as written. */
  lemma HtmlCell(items: seq<string>, l: Label)
    requires HtmlStep(items).Emit?
    ensures Column(HtmlStep(items).record, l) == Shown(l, Get(Fields(items), l, Default(l)))
  {
    var data := Fields(items);
    RowStepParts(Get(data, Comercio, "N/A"), Get(data, Importe, "N/A"), Get(data, Fecha, "N/A"),
                 Get(data, Hora, "N/A"), Get(data, Cuotas, "01"));
  }

  // ---------------------------------------------------------------------------
  // Lemmas: the amount

  /** Every character the Importe group can capture is a digit, a comma or a dot. */
  lemma UsNumberChars(g: string)
    requires UsNumber(g)
    ensures g != []
    ensures forall i :: 0 <= i < |g| ==> IsDigit(g[i]) || g[i] == ',' || g[i] == '.'
    ensures !IsSpace(g[0]) && !IsSpace(g[|g| - 1])
  {
    var k :| 0 <= k <= |g| && UsNumberParts(g[..k], g[k..]);
    var a, b := g[..k], g[k..];
    assert g == a + b;
    forall i | 0 <= i < |g| ensures IsDigit(g[i]) || g[i] == ',' || g[i] == '.' {
      if i < k { assert g[i] == a[i]; } else if i > k { assert g[i] == b[1..][i - k - 1]; }
    }
  }

  /** The US reading of a plain-text Importe succeeds exactly when the group holds a digit. */
  lemma UsNumberParse(g: string)
    requires UsNumber(g)
    ensures ParseUS(g).Some? <==> HasDigit(g)
  {
    var k :| 0 <= k <= |g| && UsNumberParts(g[..k], g[k..]);
    assert g == g[..k] + g[k..];
    UsPartsParse(g[..k], g[k..]);
  }

  lemma UsPartsParse(a: string, b: string)
    requires UsNumberParts(a, b)
    ensures ParseUS(a + b).Some? <==> HasDigit(a + b)
  {
    var d := RemoveChar(a, ',');
    CommasDropped(a, b);
    FractionPart(b);
    PlainDecimalParse(d, b);
    HasDigitConcat(d, b);
    HasDigitConcat(a, b);
    HasDigitRemove(a, ',');
  }

  /** Removing the thousands commas leaves the digits of the integer part and the fraction as it was. */
  lemma CommasDropped(a: string, b: string)
    requires UsNumberParts(a, b)
    ensures AllDigits(RemoveChar(a, ','))
    ensures RemoveChar(a + b, ',') == RemoveChar(a, ',') + b
  {
    var d := RemoveChar(a, ',');
    forall i | 0 <= i < |d| ensures IsDigit(d[i]) {
      assert d[i] in d;
      var j :| 0 <= j < |a| && a[j] == d[i];
    }
    assert ',' !in b by {
      if b != [] { assert forall i :: 1 <= i < |b| ==> b[i] == b[1..][i - 1]; }
    }
    RemoveCharConcat(a, b, ',');
    RemoveCharAbsent(b, ',');
  }

  /** An optional fraction: nothing, or one '.' and digits. */
  lemma FractionPart(b: string)
    requires b == [] || (|b| >= 2 && b[0] == '.' && AllDigits(b[1..]))
    ensures DecimalChars(b) && Count(b, '.') <= 1
    ensures HasDigit(b) <==> b != []
  {
    if b != [] {
      assert b == [b[0]] + b[1..];
      CountConcat([b[0]], b[1..], '.');
      assert '.' !in b[1..];
      CountZero(b[1..], '.');
      AllDigitsHasDigit(b[1..]);
      HasDigitConcat([b[0]], b[1..]);
      assert forall i :: 1 <= i < |b| ==> b[i] == b[1..][i - 1];
    }
  }

  /** float() of digits followed by an optional fraction succeeds exactly when there is a digit somewhere. */
  lemma PlainDecimalParse(d: string, b: string)
    requires AllDigits(d) && DecimalChars(b) && Count(b, '.') <= 1
    ensures ParseFloat(d + b).Some? <==> HasDigit(d + b)
  {
    var n := d + b;
    assert DecimalChars(n) by {
      forall i | 0 <= i < |n| ensures IsDigit(n[i]) || n[i] == '.' {
        if i >= |d| { assert n[i] == b[i - |d|]; }
      }
    }
    DecimalCharsStrip(n);
    ParseDecimalAccepts(n);
    CountConcat(d, b, '.');
    assert '.' !in d;
    CountZero(d, '.');
  }

  /**
   * Every Mastercard row: card MASTERCARD and the four text columns as
   * given; an amount that parses is added and shown in Argentine display
   * form; one that does not (or 'N/A') adds nothing and is shown cleaned.
   */
  lemma RowStepAmount(comercio: string, importe: string, fecha: string, hora: string, cuotas: string)
    ensures RowStep(comercio, importe, fecha, hora, cuotas).Emit?
    ensures var r := RowStep(comercio, importe, fecha, hora, cuotas).record;
            && r.card == MASTERCARD && r.merchant == comercio && r.installments == cuotas
            && r.date == fecha && r.time == hora
    ensures var st := RowStep(comercio, importe, fecha, hora, cuotas);
            st.amount.Some? ==> st.amount.value >= 0.0 && st.record.amount == Display(st.amount.value)
                                && ArgentineDisplayForm(st.record.amount)
    ensures var st := RowStep(comercio, importe, fecha, hora, cuotas);
            st.amount.None? ==> st.record.amount == CleanImporte(importe)
    ensures importe == "N/A" ==> RowStep(comercio, importe, fecha, hora, cuotas).record.amount == "N/A"
    ensures importe == "N/A" ==> RowStep(comercio, importe, fecha, hora, cuotas).amount.None?
  {
    var clean := CleanImporte(importe);
    var st := RowStep(comercio, importe, fecha, hora, cuotas);
    if st.amount.Some? {
      DisplayCentsForm(RoundCents(st.amount.value));
    } else if clean != "N/A" && clean == [] {
      assert ParseUS(clean).None? by { assert RemoveChar(clean, ',') == []; }
    }
  }

  // ---------------------------------------------------------------------------
  // Lemmas: the plain-text branch

  /** The groups the plain-text patterns capture, by their shapes. */
  lemma PlainShapes(text: string)
    ensures FindComercio(text).Some? ==> FindComercio(text).value != [] && '\n' !in FindComercio(text).value
    ensures FindImporte(text).Some? ==> UsNumber(FindImporte(text).value)
    ensures FindFecha(text).Some? ==> DateShape(FindFecha(text).value)
    ensures FindHora(text).Some? ==> TimeShape(FindHora(text).value)
    ensures FindCuotas(text).Some? ==> FindCuotas(text).value != [] && AllDigits(FindCuotas(text).value)
  {
    if FindComercio(text).Some? {
      var f := (i: nat) => ComercioAt(text, i);
      var k: nat :| k <= |text| && f(k) == FindComercio(text);
      assert ComercioAt(text, k).Some?;
    }
    if FindImporte(text).Some? {
      var f := (i: nat) => ImporteAt(text, i);
      var k: nat :| k <= |text| && f(k) == FindImporte(text);
      assert ImporteAt(text, k).Some?;
    }
    if FindFecha(text).Some? {
      var f := (i: nat) => FechaAt(text, i);
      var k: nat :| k <= |text| && f(k) == FindFecha(text);
      assert FechaAt(text, k).Some?;
    }
    if FindHora(text).Some? {
      var f := (i: nat) => HoraAt(text, i);
      var k: nat :| k <= |text| && f(k) == FindHora(text);
      assert HoraAt(text, k).Some?;
    }
    if FindCuotas(text).Some? {
      var f := (i: nat) => CuotasAt(text, i);
      var k: nat :| k <= |text| && f(k) == FindCuotas(text);
      assert CuotasAt(text, k).Some?;
    }
  }

  /**
   * After "Comercio:" and any blanks, line breaks included, the merchant
   * is the rest of the first line that does not start blank.
   */
  lemma ComercioRestOfLine(pre: string, blanks: string, v: string, tail: string)
    requires forall j :: 0 <= j < |blanks| ==> IsSpace(blanks[j])
    requires v != [] && !IsSpace(v[0]) && '\n' !in v
    requires tail == [] || tail[0] == '\n'
    ensures ComercioAt(pre + "Comercio:" + blanks + v + tail, |pre|) == Some(v)
  {
    var s := pre + "Comercio:" + blanks + v + tail;
    var i, w := |pre|, |pre| + 9 + |blanks|;
    var e := w + |v|;
    assert s[i..i + 9] == "Comercio:";
    assert s[i + 9..w] == blanks;
    assert s[w..e] == v;
    assert s[e..] == tail;
    LabelStarts(s, i, "Comercio:");
    assert s[w] == v[0];
    assert AfterLabel(s, i, "Comercio:") == w by {
      BlanksEnd(s, i + 9, w);
    }
    LineEnd(s, w, e);
  }

  /** The line starting at w ends at e when nothing before e breaks it and e is a break or the end. */
  lemma LineEnd(s: string, w: nat, e: nat)
    requires w <= e <= |s| && '\n' !in s[w..e] && (e == |s| || s[e] == '\n')
    ensures RunEnd(s, w, NotNewline) == e
  {
    forall j | w <= j < e ensures NotNewline(s[j]) {
      assert s[j] == s[w..e][j - w];
    }
    if e < |s| {
      RunEndIs(s, w, e, NotNewline);
    }
  }



  /** Blanks that run to the end of the text: backtracking leaves the last one as the merchant. */
  lemma ComercioBlankAtEnd(pre: string)
    ensures ComercioAt(pre + "Comercio: ", |pre|) == Some(" ")
  {
    var s := pre + "Comercio: ";
    assert s[|pre|..][..9] == "Comercio:";
    assert s[|pre| + 9] == ' ';
    assert AfterLabel(s, |pre|, "Comercio:") == |s|;
    assert LastNotNewline(s, |pre| + 9, |s|) == Some(|s| - 1);
    assert s[|s| - 1..|s|] == " ";
  }

  /** A captured Importe passes through the '$'-removal and strip() unchanged. */
  lemma CleanUsNumber(g: string)
    requires UsNumber(g)
    ensures CleanImporte(g) == g && g != [] && g != "N/A"
  {
    UsNumberChars(g);
    assert '$' !in g;
    RemoveCharAbsent(g, '$');
    StripUnchanged(g);
  }

  /**
   * A plain-text alert yields a row exactly when Comercio, Importe, Fecha
   * or Hora matched; its amount is added exactly when the Importe group
   * holds a digit, and a missing Importe is shown as 'N/A'.
   */
  lemma PlainRow(text: string)
    ensures PlainStep(text).Emit? <==>
              FindComercio(text).Some? || FindImporte(text).Some? || FindFecha(text).Some? || FindHora(text).Some?
    ensures PlainStep(text).Emit? && FindImporte(text).Some? ==>
              && PlainStep(text).amount == ParseUS(FindImporte(text).value)
              && (PlainStep(text).amount.Some? <==> HasDigit(FindImporte(text).value))
    ensures PlainStep(text).Emit? && FindImporte(text).None? ==>
              PlainStep(text).record.amount == "N/A" && PlainStep(text).amount.None?
  {
    PlainShapes(text);
    if PlainStep(text).Emit? && FindImporte(text).Some? {
      var g := FindImporte(text).value;
      CleanUsNumber(g);
      UsNumberParse(g);
    }
  }

  // ---------------------------------------------------------------------------
  // Lemmas: where each plain-text pattern matches, and what it captures

  /** A match of `Comercio:\s*([^\n]+)` at i whose blanks end at p and whose group is s[p..q]. */
  predicate ComercioMatch(s: string, i: nat, p: nat, q: nat) {
    && LabelAt(s, i, "Comercio:") && Blanks(s, i + 9, p) && p < q <= |s|
    && forall j :: p <= j < q ==> s[j] != '\n'
  }

  ghost predicate ComercioStarts(s: string, i: nat) {
    exists p: nat, q: nat :: ComercioMatch(s, i, p, q)
  }

  /**
   * The match the engine settles on: the blanks run as far as still leaves a
   * group (no later blank that is not a line break), and the group runs to
   * the end of its line.
   */
  predicate ComercioGreedy(s: string, i: nat, p: nat, q: nat) {
    && q <= |s| && (q == |s| || s[q] == '\n')
    && forall p': nat :: p < p' < |s| && Blanks(s, i + 9, p') ==> s[p'] == '\n'
  }

  /**
   * The Comercio pattern succeeds at i exactly when it can match there, and
   * captures the group of its greedy match: the rest of the first line that
   * does not start blank, or the last blank that is not a line break when
   * only blanks follow the label.
   */
  lemma ComercioAtSpec(s: string, i: nat)
    ensures ComercioAt(s, i).Some? <==> ComercioStarts(s, i)
    ensures ComercioAt(s, i).Some? ==>
              exists p: nat, q: nat :: ComercioMatch(s, i, p, q) && ComercioGreedy(s, i, p, q)
                                       && ComercioAt(s, i) == Some(s[p..q])
  {
    if ComercioAt(s, i).Some? {
      var p, q := ComercioFound(s, i);
    }
    forall p: nat, q: nat | ComercioMatch(s, i, p, q) ensures ComercioAt(s, i).Some? {
      ComercioMatchFound(s, i, p, q);
    }
  }

  lemma ComercioFound(s: string, i: nat) returns (p: nat, q: nat)
    requires ComercioAt(s, i).Some?
    ensures ComercioMatch(s, i, p, q) && ComercioGreedy(s, i, p, q) && ComercioAt(s, i) == Some(s[p..q])
  {
    LabelStarts(s, i, "Comercio:");
    var w := AfterLabel(s, i, "Comercio:");
    if w < |s| {
      p, q := w, RunEnd(s, w, NotNewline);
      assert ComercioMatch(s, i, p, q);
    } else {
      p := LastNotNewline(s, i + 9, w).value;
      q := p + 1;
    }
  }

  lemma ComercioMatchFound(s: string, i: nat, p: nat, q: nat)
    requires ComercioMatch(s, i, p, q)
    ensures ComercioAt(s, i).Some?
  {
    LabelStarts(s, i, "Comercio:");
    var w := AfterLabel(s, i, "Comercio:");
    if w == |s| {
      assert s[p] != '\n';
    }
  }

  /** `re.search` of the Comercio pattern: none exactly when it matches nowhere, else the group at the leftmost match. */
  lemma FindComercioSpec(s: string)
    ensures FindComercio(s).None? <==> forall i: nat :: !ComercioStarts(s, i)
    ensures FindComercio(s).Some? ==>
              exists i: nat, p: nat, q: nat :: && ComercioMatch(s, i, p, q) && ComercioGreedy(s, i, p, q)
                                               && FindComercio(s) == Some(s[p..q])
                                               && forall j: nat :: j < i ==> !ComercioStarts(s, j)
  {
    var f := (i: nat) => ComercioAt(s, i);
    var g := (i: nat) => ComercioStarts(s, i);
    forall i: nat ensures (f(i).Some? <==> g(i)) && (g(i) ==> i <= |s|) {
      ComercioAtSpec(s, i);
    }
    var k := SearchSpec(|s|, f, g);
    assert FindComercio(s) == Search(|s|, f, 0);
    ComercioNowhere(s, g, FindComercio(s));
    ComercioLeftmost(s, f, g, k, FindComercio(s));
  }

  lemma ComercioLeftmost(s: string, f: nat -> Option<string>, g: nat -> bool, k: nat, r: Option<string>)
    requires f == ((i: nat) => ComercioAt(s, i)) && g == ((i: nat) => ComercioStarts(s, i))
    requires r.Some? ==> g(k) && f(k) == r && forall j: nat :: j < k ==> !g(j)
    ensures r.Some? ==>
              exists i: nat, p: nat, q: nat :: && ComercioMatch(s, i, p, q) && ComercioGreedy(s, i, p, q)
                                               && r == Some(s[p..q])
                                               && forall j: nat :: j < i ==> !ComercioStarts(s, j)
  {
    if r.Some? {
      assert f(k).Some?;
      var p, q := ComercioFound(s, k);
      forall j: nat | j < k ensures !ComercioStarts(s, j) {
        assert !g(j);
      }
      assert ComercioMatch(s, k, p, q) && ComercioGreedy(s, k, p, q) && r == Some(s[p..q]);
    }
  }

  lemma ComercioNowhere(s: string, g: nat -> bool, r: Option<string>)
    requires g == ((i: nat) => ComercioStarts(s, i))
    requires r.None? <==> forall i: nat :: !g(i)
    ensures r.None? <==> forall i: nat :: !ComercioStarts(s, i)
  {
    if r.None? {
      forall i: nat ensures !ComercioStarts(s, i) {
        assert !g(i);
      }
    } else {
      var i: nat :| g(i);
      assert ComercioStarts(s, i);
    }
  }

  /** A match of `Fecha:\s*(\d{2}/\d{2}/\d{4})` at i whose group starts at w. */
  predicate FechaMatch(s: string, i: nat, w: nat) {
    LabelAt(s, i, "Fecha:") && Blanks(s, i + 6, w) && w + 10 <= |s| && DateShape(s[w..w + 10])
  }

  ghost predicate FechaStarts(s: string, i: nat) {
    exists w: nat :: FechaMatch(s, i, w)
  }

  /** The Fecha pattern succeeds at i exactly when it can match there, and captures the date after the blanks. */
  lemma FechaAtSpec(s: string, i: nat)
    ensures FechaAt(s, i).Some? <==> FechaStarts(s, i)
    ensures forall w: nat :: FechaMatch(s, i, w) ==> FechaAt(s, i) == Some(s[w..w + 10])
  {
    LabelStarts(s, i, "Fecha:");
    if LabelAt(s, i, "Fecha:") {
      var w := AfterLabel(s, i, "Fecha:");
      if FechaAt(s, i).Some? {
        assert FechaMatch(s, i, w);
      }
      forall w': nat | FechaMatch(s, i, w') ensures w' == w {
        assert s[w'] == s[w'..w' + 10][0];
        BlanksEnd(s, i + 6, w');
      }
    }
  }

  /** re.search for the Fecha pattern: nothing when it matches nowhere, else the date of the leftmost match. */
  lemma FindFechaSpec(s: string)
    ensures FindFecha(s).None? <==> forall i: nat :: !FechaStarts(s, i)
    ensures FindFecha(s).Some? ==>
              exists i: nat, w: nat :: FechaMatch(s, i, w) && FindFecha(s) == Some(s[w..w + 10])
                                       && forall j: nat :: j < i ==> !FechaStarts(s, j)
  {
    var f := (i: nat) => FechaAt(s, i);
    var g := (i: nat) => FechaStarts(s, i);
    forall i: nat ensures (f(i).Some? <==> g(i)) && (g(i) ==> i <= |s|) {
      FechaAtSpec(s, i);
    }
    var k := SearchSpec(|s|, f, g);
    FechaLeftmost(s, f, g, k);
  }

  lemma FechaLeftmost(s: string, f: nat -> Option<string>, g: nat -> bool, k: nat)
    requires f == ((i: nat) => FechaAt(s, i)) && g == ((i: nat) => FechaStarts(s, i))
    requires Search(|s|, f, 0).None? <==> forall i: nat :: !g(i)
    requires Search(|s|, f, 0).Some? ==> g(k) && f(k) == Search(|s|, f, 0) && forall j: nat :: j < k ==> !g(j)
    ensures FindFecha(s).None? <==> forall i: nat :: !FechaStarts(s, i)
    ensures FindFecha(s).Some? ==>
              exists i: nat, w: nat :: FechaMatch(s, i, w) && FindFecha(s) == Some(s[w..w + 10])
                                       && forall j: nat :: j < i ==> !FechaStarts(s, j)
  {
    assert FindFecha(s) == Search(|s|, f, 0);
    if FindFecha(s).Some? {
      assert g(k);
      var w: nat :| FechaMatch(s, k, w);
      FechaAtSpec(s, k);
      forall j: nat | j < k ensures !FechaStarts(s, j) {
        assert !g(j);
      }
      assert FechaMatch(s, k, w) && FindFecha(s) == Some(s[w..w + 10]);
    } else {
      forall i: nat ensures !FechaStarts(s, i) {
        assert !g(i);
      }
    }
  }

  /** A match of `Hora:\s*(\d{2}:\d{2})` at i whose group starts at w. */
  predicate HoraMatch(s: string, i: nat, w: nat) {
    LabelAt(s, i, "Hora:") && Blanks(s, i + 5, w) && w + 5 <= |s| && TimeShape(s[w..w + 5])
  }

  ghost predicate HoraStarts(s: string, i: nat) {
    exists w: nat :: HoraMatch(s, i, w)
  }

  /** The Hora pattern succeeds at i exactly when it can match there, and captures the time after the blanks. */
  lemma HoraAtSpec(s: string, i: nat)
    ensures HoraAt(s, i).Some? <==> HoraStarts(s, i)
    ensures forall w: nat :: HoraMatch(s, i, w) ==> HoraAt(s, i) == Some(s[w..w + 5])
  {
    LabelStarts(s, i, "Hora:");
    if LabelAt(s, i, "Hora:") {
      var w := AfterLabel(s, i, "Hora:");
      if HoraAt(s, i).Some? {
        assert HoraMatch(s, i, w);
      }
      forall w': nat | HoraMatch(s, i, w') ensures w' == w {
        assert s[w'] == s[w'..w' + 5][0];
        BlanksEnd(s, i + 5, w');
      }
    }
  }

  /** re.search for the Hora pattern: nothing when it matches nowhere, else the time of the leftmost match. */
  lemma FindHoraSpec(s: string)
    ensures FindHora(s).None? <==> forall i: nat :: !HoraStarts(s, i)
    ensures FindHora(s).Some? ==>
              exists i: nat, w: nat :: HoraMatch(s, i, w) && FindHora(s) == Some(s[w..w + 5])
                                       && forall j: nat :: j < i ==> !HoraStarts(s, j)
  {
    var f := (i: nat) => HoraAt(s, i);
    var g := (i: nat) => HoraStarts(s, i);
    forall i: nat ensures (f(i).Some? <==> g(i)) && (g(i) ==> i <= |s|) {
      HoraAtSpec(s, i);
    }
    var k := SearchSpec(|s|, f, g);
    HoraLeftmost(s, f, g, k);
  }

  lemma HoraLeftmost(s: string, f: nat -> Option<string>, g: nat -> bool, k: nat)
    requires f == ((i: nat) => HoraAt(s, i)) && g == ((i: nat) => HoraStarts(s, i))
    requires Search(|s|, f, 0).None? <==> forall i: nat :: !g(i)
    requires Search(|s|, f, 0).Some? ==> g(k) && f(k) == Search(|s|, f, 0) && forall j: nat :: j < k ==> !g(j)
    ensures FindHora(s).None? <==> forall i: nat :: !HoraStarts(s, i)
    ensures FindHora(s).Some? ==>
              exists i: nat, w: nat :: HoraMatch(s, i, w) && FindHora(s) == Some(s[w..w + 5])
                                       && forall j: nat :: j < i ==> !HoraStarts(s, j)
  {
    assert FindHora(s) == Search(|s|, f, 0);
    if FindHora(s).Some? {
      assert g(k);
      var w: nat :| HoraMatch(s, k, w);
      HoraAtSpec(s, k);
      forall j: nat | j < k ensures !HoraStarts(s, j) {
        assert !g(j);
      }
      assert HoraMatch(s, k, w) && FindHora(s) == Some(s[w..w + 5]);
    } else {
      forall i: nat ensures !HoraStarts(s, i) {
        assert !g(i);
      }
    }
  }

  /** A match of `Cantidad cuotas:\s*(\d+)` at i whose group is s[w..e]. */
  predicate CuotasMatch(s: string, i: nat, w: nat, e: nat) {
    && LabelAt(s, i, "Cantidad cuotas:") && Blanks(s, i + 16, w) && w < e <= |s|
    && forall j :: w <= j < e ==> IsDigit(s[j])
  }

  ghost predicate CuotasStarts(s: string, i: nat) {
    exists w: nat, e: nat :: CuotasMatch(s, i, w, e)
  }

  /** The Cuotas pattern succeeds at i exactly when it can match there, and captures the longest digit run. */
  lemma CuotasAtSpec(s: string, i: nat)
    ensures CuotasAt(s, i).Some? <==> CuotasStarts(s, i)
    ensures CuotasAt(s, i).Some? ==>
              exists w: nat, e: nat :: CuotasMatch(s, i, w, e) && DigitsEnd(s, e) && CuotasAt(s, i) == Some(s[w..e])
  {
    LabelStarts(s, i, "Cantidad cuotas:");
    if LabelAt(s, i, "Cantidad cuotas:") {
      var w := AfterLabel(s, i, "Cantidad cuotas:");
      var e := RunEnd(s, w, IsDigit);
      if CuotasAt(s, i).Some? {
        assert CuotasMatch(s, i, w, e) && DigitsEnd(s, e);
      }
      forall w': nat, e': nat | CuotasMatch(s, i, w', e') ensures CuotasAt(s, i).Some? {
        BlanksEnd(s, i + 16, w');
        assert IsDigit(s[w]);
      }
    }
  }

  /** re.search for the Cuotas pattern: nothing when it matches nowhere, else the digits of the leftmost match. */
  lemma FindCuotasSpec(s: string)
    ensures FindCuotas(s).None? <==> forall i: nat :: !CuotasStarts(s, i)
    ensures FindCuotas(s).Some? ==>
              exists i: nat, w: nat, e: nat :: CuotasMatch(s, i, w, e) && DigitsEnd(s, e)
                                               && FindCuotas(s) == Some(s[w..e])
                                               && forall j: nat :: j < i ==> !CuotasStarts(s, j)
  {
    var f := (i: nat) => CuotasAt(s, i);
    var g := (i: nat) => CuotasStarts(s, i);
    forall i: nat ensures (f(i).Some? <==> g(i)) && (g(i) ==> i <= |s|) {
      CuotasAtSpec(s, i);
    }
    var k := SearchSpec(|s|, f, g);
    CuotasLeftmost(s, f, g, k);
  }

  lemma CuotasLeftmost(s: string, f: nat -> Option<string>, g: nat -> bool, k: nat)
    requires f == ((i: nat) => CuotasAt(s, i)) && g == ((i: nat) => CuotasStarts(s, i))
    requires Search(|s|, f, 0).None? <==> forall i: nat :: !g(i)
    requires Search(|s|, f, 0).Some? ==> g(k) && f(k) == Search(|s|, f, 0) && forall j: nat :: j < k ==> !g(j)
    ensures FindCuotas(s).None? <==> forall i: nat :: !CuotasStarts(s, i)
    ensures FindCuotas(s).Some? ==>
              exists i: nat, w: nat, e: nat :: CuotasMatch(s, i, w, e) && DigitsEnd(s, e)
                                               && FindCuotas(s) == Some(s[w..e])
                                               && forall j: nat :: j < i ==> !CuotasStarts(s, j)
  {
    assert FindCuotas(s) == Search(|s|, f, 0);
    if FindCuotas(s).Some? {
      assert f(k).Some?;
      CuotasAtSpec(s, k);
      var w: nat, e: nat :| CuotasMatch(s, k, w, e) && DigitsEnd(s, e) && CuotasAt(s, k) == Some(s[w..e]);
      forall j: nat | j < k ensures !CuotasStarts(s, j) {
        assert !g(j);
      }
      assert CuotasMatch(s, k, w, e) && FindCuotas(s) == Some(s[w..e]);
    } else {
      forall i: nat ensures !CuotasStarts(s, i) {
        assert !g(i);
      }
    }
  }

  /**
   * A match of `Importe:\s*\$?([\d,]+(?:\.\d+)?)` at i: blanks up to w, an
   * optional '$' before p, digits and commas on [p, e), and either nothing
   * or '.' and digits on [e, f). The group is s[p..f].
   */
  predicate ImporteMatch(s: string, i: nat, w: nat, p: nat, e: nat, f: nat) {
    && LabelAt(s, i, "Importe:") && Blanks(s, i + 8, w) && w <= p < e <= f <= |s|
    && (p == w || (p == w + 1 && s[w] == '$'))
    && (forall j :: p <= j < e ==> IsDigitOrComma(s[j]))
    && (f == e || (e + 1 < f && s[e] == '.' && forall j :: e < j < f ==> IsDigit(s[j])))
  }

  ghost predicate ImporteStarts(s: string, i: nat) {
    exists w: nat, p: nat, e: nat, f: nat :: ImporteMatch(s, i, w, p, e, f)
  }

  /** The greedy choices: [\d,]+ takes every digit and comma, and the fraction is taken, in full, whenever one follows. */
  predicate ImporteGreedy(s: string, e: nat, f: nat) {
    && e <= f <= |s|
    && (e == |s| || !IsDigitOrComma(s[e]))
    && (f == |s| || !IsDigit(s[f]))
    && (f == e ==> !(e + 1 < |s| && s[e] == '.' && IsDigit(s[e + 1])))
  }

  /** The Importe pattern succeeds at i exactly when it can match there, and captures its greedy group. */
  lemma ImporteAtSpec(s: string, i: nat)
    ensures ImporteAt(s, i).Some? <==> ImporteStarts(s, i)
    ensures ImporteAt(s, i).Some? ==>
              exists w: nat, p: nat, e: nat, f: nat ::
                ImporteMatch(s, i, w, p, e, f) && ImporteGreedy(s, e, f) && ImporteAt(s, i) == Some(s[p..f])
  {
    LabelStarts(s, i, "Importe:");
    if LabelAt(s, i, "Importe:") {
      if ImporteAt(s, i).Some? {
        ImporteFound(s, i);
      }
      forall w': nat, p': nat, e': nat, f': nat | ImporteMatch(s, i, w', p', e', f')
        ensures ImporteAt(s, i).Some?
      {
        ImporteGroupStart(s, i, w', p', e', f');
      }
    }
  }

  /** What the Importe pattern captures at i is the greedy group of a match there. */
  lemma ImporteFound(s: string, i: nat)
    requires ImporteAt(s, i).Some?
    ensures exists w: nat, p: nat, e: nat, f: nat ::
              ImporteMatch(s, i, w, p, e, f) && ImporteGreedy(s, e, f) && ImporteAt(s, i) == Some(s[p..f])
  {
    var w, p, e, f := ImportePositions(s, i);
    ImporteGroup(s, i, w, p, e, f);
  }

  /** The positions the Importe scanner computes when it succeeds at i. */
  lemma ImportePositions(s: string, i: nat) returns (w: nat, p: nat, e: nat, f: nat)
    requires ImporteAt(s, i).Some?
    ensures LabelAt(s, i, "Importe:") && Blanks(s, i + 8, w)
    ensures p == (if w < |s| && s[w] == '$' then w + 1 else w)
    ensures p < e <= |s| && (forall j :: p <= j < e ==> IsDigitOrComma(s[j])) && (e == |s| || !IsDigitOrComma(s[e]))
    ensures f == FractionEnd(s, e) && ImporteAt(s, i) == Some(s[p..f])
  {
    LabelStarts(s, i, "Importe:");
    w := AfterLabel(s, i, "Importe:");
    p := if w < |s| && s[w] == '$' then w + 1 else w;
    e := RunEnd(s, p, IsDigitOrComma);
    f := FractionEnd(s, e);
  }

  /** The positions the Importe scanner computes form a match with the greedy choices. */
  lemma ImporteGroup(s: string, i: nat, w: nat, p: nat, e: nat, f: nat)
    requires LabelAt(s, i, "Importe:") && Blanks(s, i + 8, w)
    requires p == (if w < |s| && s[w] == '$' then w + 1 else w)
    requires p < e <= |s| && (forall j :: p <= j < e ==> IsDigitOrComma(s[j])) && (e == |s| || !IsDigitOrComma(s[e]))
    requires f == FractionEnd(s, e)
    ensures ImporteMatch(s, i, w, p, e, f) && ImporteGreedy(s, e, f)
  {
  }

  /** Blanks are neither '$' nor digits nor commas, so every match's group starts where the model's does. */
  lemma ImporteGroupStart(s: string, i: nat, w: nat, p: nat, e: nat, f: nat)
    requires ImporteMatch(s, i, w, p, e, f)
    ensures i <= |s| && StartsWith(s[i..], "Importe:")
    ensures var w0 := AfterLabel(s, i, "Importe:");
            w0 == w && p == (if w0 < |s| && s[w0] == '$' then w0 + 1 else w0)
            && RunEnd(s, p, IsDigitOrComma) > p
  {
    LabelStarts(s, i, "Importe:");
    assert IsDigitOrComma(s[p]);
    BlanksEnd(s, i + 8, w);
  }

  /** re.search for the Importe pattern: nothing when it matches nowhere, else the greedy group of the leftmost match. */
  lemma FindImporteSpec(s: string)
    ensures FindImporte(s).None? <==> forall i: nat :: !ImporteStarts(s, i)
    ensures FindImporte(s).Some? ==>
              exists i: nat, w: nat, p: nat, e: nat, f: nat ::
                && ImporteMatch(s, i, w, p, e, f) && ImporteGreedy(s, e, f) && FindImporte(s) == Some(s[p..f])
                && forall j: nat :: j < i ==> !ImporteStarts(s, j)
  {
    var f := (i: nat) => ImporteAt(s, i);
    var g := (i: nat) => ImporteStarts(s, i);
    forall i: nat ensures (f(i).Some? <==> g(i)) && (g(i) ==> i <= |s|) {
      ImporteAtSpec(s, i);
    }
    var k := SearchSpec(|s|, f, g);
    ImporteLeftmost(s, f, g, k);
  }

  lemma ImporteLeftmost(s: string, f: nat -> Option<string>, g: nat -> bool, k: nat)
    requires f == ((i: nat) => ImporteAt(s, i)) && g == ((i: nat) => ImporteStarts(s, i))
    requires Search(|s|, f, 0).None? <==> forall i: nat :: !g(i)
    requires Search(|s|, f, 0).Some? ==> g(k) && f(k) == Search(|s|, f, 0) && forall j: nat :: j < k ==> !g(j)
    ensures FindImporte(s).None? <==> forall i: nat :: !ImporteStarts(s, i)
    ensures FindImporte(s).Some? ==>
              exists i: nat, w: nat, p: nat, e: nat, f: nat ::
                && ImporteMatch(s, i, w, p, e, f) && ImporteGreedy(s, e, f) && FindImporte(s) == Some(s[p..f])
                && forall j: nat :: j < i ==> !ImporteStarts(s, j)
  {
    assert FindImporte(s) == Search(|s|, f, 0);
    if FindImporte(s).Some? {
      assert f(k).Some?;
      ImporteAtSpec(s, k);
      var w: nat, p: nat, e: nat, f': nat :|
        ImporteMatch(s, k, w, p, e, f') && ImporteGreedy(s, e, f') && ImporteAt(s, k) == Some(s[p..f']);
      forall j: nat | j < k ensures !ImporteStarts(s, j) {
        assert !g(j);
      }
      assert ImporteMatch(s, k, w, p, e, f') && FindImporte(s) == Some(s[p..f']);
    } else {
      forall i: nat ensures !ImporteStarts(s, i) {
        assert !g(i);
      }
    }
  }

  // ---------------------------------------------------------------------------
  // Lemmas: the message

  /** A message with HTML is read from its <li> items alone; the plain-text body is not looked at. */
  lemma HtmlFirst(m: Message, plain: string)
    requires m.html != []
    ensures MessageStep(m) == HtmlStep(m.listItems) == MessageStep(m.(plain := plain))
  {
  }

  /**
   * Nothing in the Mastercard loop raises: each message gives no row or one
   * MASTERCARD row, and an amount it adds is non-negative and shown in the row.
   */
  lemma NeverAborts(m: Message)
    ensures MessageStep(m) != Abort
    ensures MessageStep(m).Emit? ==> MessageStep(m).record.card == MASTERCARD
    ensures MessageStep(m).Emit? && MessageStep(m).amount.Some? ==>
              MessageStep(m).amount.value >= 0.0 && MessageStep(m).record.amount == Display(MessageStep(m).amount.value)
  {
    if m.html != [] {
      HtmlSound(m.listItems);
    } else if m.plain != [] {
      PlainSound(m.plain);
    }
  }

  /** The facts of NeverAborts for the HTML branch. */
  lemma HtmlSound(items: seq<string>)
    ensures HtmlStep(items) != Abort
    ensures HtmlStep(items).Emit? ==> HtmlStep(items).record.card == MASTERCARD
    ensures HtmlStep(items).Emit? && HtmlStep(items).amount.Some? ==>
              HtmlStep(items).amount.value >= 0.0 && HtmlStep(items).record.amount == Display(HtmlStep(items).amount.value)
  {
    var data := Fields(items);
    RowStepAmount(Get(data, Comercio, "N/A"), Get(data, Importe, "N/A"), Get(data, Fecha, "N/A"),
                  Get(data, Hora, "N/A"), Get(data, Cuotas, "01"));
  }

  /** The facts of NeverAborts for the plain-text branch. */
  lemma PlainSound(text: string)
    ensures PlainStep(text) != Abort
    ensures PlainStep(text).Emit? ==> PlainStep(text).record.card == MASTERCARD
    ensures PlainStep(text).Emit? && PlainStep(text).amount.Some? ==>
              PlainStep(text).amount.value >= 0.0 && PlainStep(text).record.amount == Display(PlainStep(text).amount.value)
  {
    RowStepAmount(FindComercio(text).GetOr("N/A"), FindImporte(text).GetOr("N/A"), FindFecha(text).GetOr("N/A"),
                  FindHora(text).GetOr("N/A"), FindCuotas(text).GetOr("01"));
  }

}
