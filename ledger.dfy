/**
 * The two per-brand loops of main.py and the merge that feeds the CSV export.
 *
 * Each loop walks the alerts in date order, appends at most one row per
 * alert, and adds the amount it could parse to a running total.  The loops
 * are proved against `Records.Accumulate` with the brand's step function, and
 * the totals are then related to the rows they came from.
 */
module Ledger {
  import opened Wrappers
  import opened Text
  import opened Amounts
  import opened Records
  import Visa
  import Mastercard

  // ---------------------------------------------------------------------------
  // The Visa loop

  /**
   * The fields of one alert: from the snippet when it is non-empty and yields
   * a merchant or an amount, else from `plain or html` on the same terms.
   */
  method PickFields(m: Message) returns (found: Option<Visa.Fields>)
    ensures m.snippet != [] && Visa.Usable(Visa.Extract(m.snippet)) ==> found == Some(Visa.Extract(m.snippet))
    ensures !(m.snippet != [] && Visa.Usable(Visa.Extract(m.snippet))) ==>
              if Visa.FallbackText(m) != [] && Visa.Usable(Visa.Extract(Visa.FallbackText(m)))
              then found == Some(Visa.Extract(Visa.FallbackText(m)))
              else found.None?
    ensures found.None? ==> Visa.MessageStep(m) == NoRecord
    ensures found.Some? ==> Visa.Usable(found.value) && Visa.MessageStep(m) == Visa.RowStep(found.value, m.date)
  {
    found := None;
    if m.snippet != [] {
      var f := Visa.Extract(m.snippet);
      if Visa.Usable(f) {
        found := Some(f);
        return;
      }
    }
    var text := Visa.FallbackText(m);
    if text != [] {
      var f := Visa.Extract(text);
      if Visa.Usable(f) {
        found := Some(f);
      }
    }
  }

  /** Appends the Visa row for fields that were found, and adds the amount when it parses. */
  method AppendVisa(records: seq<Record>, total: real, f: Visa.Fields, stamp: Visa.Stamp)
    returns (records': seq<Record>, total': real)
    ensures records' == records + [Record(VISA, Visa.OrNA(f.merchant), Visa.OrNA(f.amount), f.installments,
                                          stamp.day, stamp.time)]
    ensures total' == total + ValueOrZero(Visa.Contribution(f))
  {
    records' := records + [Record(VISA, Visa.OrNA(f.merchant), Visa.OrNA(f.amount), f.installments,
                                  stamp.day, stamp.time)];
    total' := total;
    if Visa.Found(f.amount) {
      var v := ParseArgentine(f.amount.value);
      if v.Some? {
        total' := total + v.value;
      }
    }
  }

  /**
   * `parse_visa_with_simplegmail` after the fetch and the sort: the snippet is
   * tried first, then `plain or html`; a string timestamp whose split fails
   * raises, which ends the loop (`aborted`).
   */
  method ProcessVisa(messages: seq<Message>) returns (records: seq<Record>, total: real, aborted: bool)
    requires DateOrdered(messages)
    ensures Run(records, total, aborted) == Accumulate(messages, Visa.MessageStep)
  {
    records, total, aborted := [], 0.0, false;
    var n := 0;
    while n < |messages|
      invariant 0 <= n <= |messages|
      invariant Run(records, total, aborted) == Accumulate(messages[..n], Visa.MessageStep)
      invariant !aborted
    {
      assert messages[..n + 1][..n] == messages[..n];
      assert Accumulate(messages[..n + 1], Visa.MessageStep)
             == Next(Run(records, total, false), Visa.MessageStep(messages[n]));
      records, total, aborted := VisaMessage(records, total, messages[n]);
      if aborted {
        AbortedPrefix(messages, n + 1, Visa.MessageStep);
        return;
      }
      n := n + 1;
    }
    assert messages[..n] == messages;
  }

  /** One pass of the Visa loop: the alert's row, or the exception its timestamp raises. */
  method VisaMessage(records: seq<Record>, total: real, m: Message)
    returns (records': seq<Record>, total': real, aborted: bool)
    ensures Run(records', total', aborted) == Next(Run(records, total, false), Visa.MessageStep(m))
  {
    records', total', aborted := records, total, false;
    var found := PickFields(m);
    if found.Some? {
      var stamp := Visa.SplitTimestamp(m.date);
      if stamp.None? {
        aborted := true;
        return;
      }
      records', total' := AppendVisa(records, total, found.value, stamp.value);
    }
  }


  // ---------------------------------------------------------------------------
  // The Mastercard loop

  /** `total += float(clean_importe.replace(',', ''))` when the amount is present and parses. */
  method AddImporte(total: real, clean: string) returns (total': real)
    ensures total' == total + ValueOrZero(Mastercard.ImporteValue(clean))
  {
    total' := total;
    if clean != [] && clean != "N/A" {
      var amount := ParseUS(clean);
      if amount.Some? {
        total' := total + amount.value;
      }
    }
  }

  /** Appends the row built from the five fields and adds its amount, as both branches of the loop do. */
  method AppendMastercard(records: seq<Record>, total: real, comercio: string, importe: string, fecha: string,
                          hora: string, cuotas: string)
    returns (records': seq<Record>, total': real)
    ensures Run(records', total', false) == Next(Run(records, total, false),
                                                 Mastercard.RowStep(comercio, importe, fecha, hora, cuotas))
  {
    var clean := Mastercard.CleanImporte(importe);
    var display := clean;
    if clean != "N/A" {
      var value := ParseUS(clean);
      if value.Some? {
        display := Display(value.value);
      }
    }
    records' := records + [Record(MASTERCARD, comercio, display, cuotas, fecha, hora)];
    total' := AddImporte(total, clean);
    Mastercard.RowStepParts(comercio, importe, fecha, hora, cuotas);
  }

  /** The HTML branch: the `data` dict from the `<li>` items, and a row when it is not empty. */
  method HtmlMessage(records: seq<Record>, total: real, items: seq<string>) returns (records': seq<Record>, total': real)
    ensures Run(records', total', false) == Next(Run(records, total, false), Mastercard.HtmlStep(items))
  {
    records', total' := records, total;
    var data := Mastercard.CollectFields(items);
    if data != map[] {
      records', total' := AppendMastercard(records, total,
        Mastercard.Get(data, Mastercard.Comercio, "N/A"), Mastercard.Get(data, Mastercard.Importe, "N/A"),
        Mastercard.Get(data, Mastercard.Fecha, "N/A"), Mastercard.Get(data, Mastercard.Hora, "N/A"),
        Mastercard.Get(data, Mastercard.Cuotas, "01"));
    }
  }

  /** The plain-text branch: five patterns, and a row when Comercio, Importe, Fecha or Hora matched. */
  method PlainMessage(records: seq<Record>, total: real, text: string) returns (records': seq<Record>, total': real)
    ensures Run(records', total', false) == Next(Run(records, total, false), Mastercard.PlainStep(text))
  {
    records', total' := records, total;
    var comercio := Mastercard.FindComercio(text);
    var importe := Mastercard.FindImporte(text);
    var fecha := Mastercard.FindFecha(text);
    var hora := Mastercard.FindHora(text);
    var cuotas := Mastercard.FindCuotas(text);
    if comercio.Some? || importe.Some? || fecha.Some? || hora.Some? {
      records', total' := AppendMastercard(records, total, comercio.GetOr("N/A"), importe.GetOr("N/A"),
                                           fecha.GetOr("N/A"), hora.GetOr("N/A"), cuotas.GetOr("01"));
    }
  }

  /**
   * `parse_mastercard_with_simplegmail` after the fetch and the sort: the
   * `<li>` items when there is HTML, else the five plain-text patterns.
   * Nothing in this loop raises.
   */
  method ProcessMastercard(messages: seq<Message>) returns (records: seq<Record>, total: real)
    requires DateOrdered(messages)
    ensures Run(records, total, false) == Accumulate(messages, Mastercard.MessageStep)
  {
    records, total := [], 0.0;
    var n := 0;
    while n < |messages|
      invariant 0 <= n <= |messages|
      invariant Run(records, total, false) == Accumulate(messages[..n], Mastercard.MessageStep)
    {
      var m := messages[n];
      ghost var step := Mastercard.MessageStep(m);
      assert messages[..n + 1][..n] == messages[..n];
      assert Accumulate(messages[..n + 1], Mastercard.MessageStep) == Next(Run(records, total, false), step);
      if m.html != [] {
        assert step == Mastercard.HtmlStep(m.listItems);
        records, total := HtmlMessage(records, total, m.listItems);
      } else if m.plain != [] {
        assert step == Mastercard.PlainStep(m.plain);
        records, total := PlainMessage(records, total, m.plain);
      } else {
        assert step == NoRecord;
      }
      n := n + 1;
    }
    assert messages[..n] == messages;
  }

  // ---------------------------------------------------------------------------
  // What the totals add up to

  /** The Visa total is the sum, over the rows in order, of each row's Monto read back in Argentine form. */
  lemma VisaTotal(messages: seq<Message>)
    ensures Accumulate(messages, Visa.MessageStep).total
            == SumRecords(Accumulate(messages, Visa.MessageStep).records, Visa.RowAmount)
  {
    forall m ensures Visa.MessageStep(m).Emit? ==>
                       Visa.MessageStep(m).amount == Visa.RowAmount(Visa.MessageStep(m).record) {
      Visa.StepRecord(m);
    }
    AccumulateTotal(messages, Visa.MessageStep, Visa.RowAmount);
  }

  /** Every Visa row is tagged VISA, every Mastercard row MASTERCARD. */
  lemma Cards(messages: seq<Message>)
    ensures forall r :: r in Accumulate(messages, Visa.MessageStep).records ==> r.card == VISA
    ensures forall r :: r in Accumulate(messages, Mastercard.MessageStep).records ==> r.card == MASTERCARD
  {
    forall m ensures Visa.MessageStep(m).Emit? ==> Visa.MessageStep(m).record.card == VISA {
      Visa.StepRecord(m);
    }
    AccumulateCards(messages, Visa.MessageStep, VISA);
    forall m ensures Mastercard.MessageStep(m).Emit? ==> Mastercard.MessageStep(m).record.card == MASTERCARD {
      Mastercard.NeverAborts(m);
    }
    AccumulateCards(messages, Mastercard.MessageStep, MASTERCARD);
  }

  /** Neither total can go below zero: every amount parsed is non-negative. */
  lemma TotalsNonNegative(messages: seq<Message>)
    ensures Accumulate(messages, Visa.MessageStep).total >= 0.0
    ensures Accumulate(messages, Mastercard.MessageStep).total >= 0.0
  {
    forall m ensures Visa.MessageStep(m).Emit? && Visa.MessageStep(m).amount.Some? ==>
                       Visa.MessageStep(m).amount.value >= 0.0 {
      Visa.StepRecord(m);
    }
    TotalNonNegative(messages, Visa.MessageStep);
    forall m ensures Mastercard.MessageStep(m).Emit? && Mastercard.MessageStep(m).amount.Some? ==>
                       Mastercard.MessageStep(m).amount.value >= 0.0 {
      Mastercard.NeverAborts(m);
    }
    TotalNonNegative(messages, Mastercard.MessageStep);
  }

  /**
   * The Mastercard total is the sum of the amounts of the rows appended, in
   * order, and each row whose amount parsed shows that amount in Argentine
   * display form.
   */
  lemma MastercardTotal(messages: seq<Message>)
    ensures Accumulate(messages, Mastercard.MessageStep).records
            == RowsOf(Appended(StepsOf(messages, Mastercard.MessageStep)))
    ensures Accumulate(messages, Mastercard.MessageStep).total
            == SumOf(Appended(StepsOf(messages, Mastercard.MessageStep)))
    ensures forall s :: s in Appended(StepsOf(messages, Mastercard.MessageStep)) && s.amount.Some? ==>
                          s.amount.value >= 0.0 && s.record.amount == Display(s.amount.value)
  {
    var steps := StepsOf(messages, Mastercard.MessageStep);
    AccumulateMatchesAppended(messages, Mastercard.MessageStep);
    AppendedFrom(steps);
    forall s | s in Appended(steps) && s.amount.Some?
      ensures s.amount.value >= 0.0 && s.record.amount == Display(s.amount.value)
    {
      var i :| 0 <= i < |steps| && steps[i] == s;
      Mastercard.NeverAborts(messages[i]);
    }
  }

  // ---------------------------------------------------------------------------
  // export_to_csv

  /** The CSV header, in `fieldnames` order. */
  const Header: seq<string> := ["Tarjeta", "Establecimiento", "Monto", "Cuotas", "Fecha", "Hora"]

  /** One row's cells, in header order. */
  function Cells(r: Record): (cells: seq<string>)
    ensures |cells| == |Header|
    ensures cells[0] == BrandName(r.card) && cells[1] == r.merchant && cells[2] == r.amount
    ensures cells[3] == r.installments && cells[4] == r.date && cells[5] == r.time
  {
    [BrandName(r.card), r.merchant, r.amount, r.installments, r.date, r.time]
  }

  function Table(rows: seq<Record>): (t: seq<seq<string>>)
    ensures |t| == |rows|
    ensures forall i :: 0 <= i < |rows| ==> t[i] == Cells(rows[i])
  {
    if rows == [] then [] else [Cells(rows[0])] + Table(rows[1..])
  }

  /**
   * `all_data = visa_data + mastercard_data`: no file when both are empty;
   * otherwise the header, then every Visa row, then every Mastercard row,
   * each in its original order.
   */
  function Export(visa: seq<Record>, mastercard: seq<Record>): (table: Option<seq<seq<string>>>)
    ensures table.None? <==> visa == [] && mastercard == []
    ensures table.Some? ==> |table.value| == 1 + |visa| + |mastercard| && table.value[0] == Header
    ensures table.Some? ==> forall i :: 0 <= i < |visa| ==> table.value[1 + i] == Cells(visa[i])
    ensures table.Some? ==>
              forall j :: 0 <= j < |mastercard| ==> table.value[1 + |visa| + j] == Cells(mastercard[j])
  {
    var all := visa + mastercard;
    if all == [] then None else Some([Header] + Table(all))
  }

  /** In the exported table of the two pipelines, the Visa rows come first and then the Mastercard rows. */
  lemma ExportOrder(visaMessages: seq<Message>, mastercardMessages: seq<Message>)
    ensures var table := Export(Accumulate(visaMessages, Visa.MessageStep).records,
                                Accumulate(mastercardMessages, Mastercard.MessageStep).records);
            var visaRows := |Accumulate(visaMessages, Visa.MessageStep).records|;
            table.Some? ==>
              (forall i :: 1 <= i <= visaRows ==> table.value[i][0] == "VISA") &&
              (forall i :: 1 + visaRows <= i < |table.value| ==> table.value[i][0] == "MASTERCARD")
  {
    Cards(visaMessages);
    Cards(mastercardMessages);
    ExportColumns(Accumulate(visaMessages, Visa.MessageStep).records,
                  Accumulate(mastercardMessages, Mastercard.MessageStep).records);
  }

  lemma ExportColumns(visa: seq<Record>, mastercard: seq<Record>)
    requires forall r :: r in visa ==> r.card == VISA
    requires forall r :: r in mastercard ==> r.card == MASTERCARD
    ensures var table := Export(visa, mastercard);
            table.Some? ==>
              (forall i :: 1 <= i <= |visa| ==> table.value[i][0] == "VISA") &&
              (forall i :: 1 + |visa| <= i < |table.value| ==> table.value[i][0] == "MASTERCARD")
  {
    var table := Export(visa, mastercard);
    if table.Some? {
      forall i | 1 <= i <= |visa| ensures table.value[i][0] == "VISA" {
        assert visa[i - 1] in visa;
        assert table.value[i] == Cells(visa[i - 1]);
      }
      forall i | 1 + |visa| <= i < |table.value| ensures table.value[i][0] == "MASTERCARD" {
        assert mastercard[i - 1 - |visa|] in mastercard;
        assert table.value[i] == Cells(mastercard[i - 1 - |visa|]);
      }
    }
  }

  // ---------------------------------------------------------------------------
  // The program

  /** How a run of the program ends: an exception, no file written, or the table written to the CSV file. */
  datatype Outcome = Raised | NoFile | Written(table: seq<seq<string>>)

  /**
   * The `__main__` block with EXPORT_CSV on: the Visa loop, the Mastercard
   * loop, then the export.  An exception in the Visa loop is not caught, so
   * the program stops there and nothing is exported.
   */
  function Program(visaMessages: seq<Message>, mastercardMessages: seq<Message>): Outcome {
    var visa := Accumulate(visaMessages, Visa.MessageStep);
    if visa.aborted then Raised
    else
      match Export(visa.records, Accumulate(mastercardMessages, Mastercard.MessageStep).records)
      case None => NoFile
      case Some(table) => Written(table)
  }

  /** The program raises exactly when some Visa alert raises. */
  lemma ProgramRaises(visaMessages: seq<Message>, mastercardMessages: seq<Message>)
    ensures Program(visaMessages, mastercardMessages).Raised? <==>
              exists i :: 0 <= i < |visaMessages| && Visa.MessageStep(visaMessages[i]).Abort?
  {
    AccumulateMatchesAppended(visaMessages, Visa.MessageStep);
    var steps := StepsOf(visaMessages, Visa.MessageStep);
    if Accumulate(visaMessages, Visa.MessageStep).aborted {
      var i :| 0 <= i < |steps| && steps[i] == Abort;
      assert Visa.MessageStep(visaMessages[i]).Abort?;
    }
  }

  /** The program writes no file exactly when no alert of either brand yields a row or raises. */
  lemma ProgramNoFile(visaMessages: seq<Message>, mastercardMessages: seq<Message>)
    ensures Program(visaMessages, mastercardMessages).NoFile? <==>
              && (forall i :: 0 <= i < |visaMessages| ==> Visa.MessageStep(visaMessages[i]).NoRecord?)
              && (forall j :: 0 <= j < |mastercardMessages| ==> Mastercard.MessageStep(mastercardMessages[j]).NoRecord?)
  {
    EmptyRun(visaMessages, Visa.MessageStep);
    EmptyRun(mastercardMessages, Mastercard.MessageStep);
    MastercardNeverRaises(mastercardMessages);
  }

  /** The Mastercard loop never stops on an exception. */
  lemma MastercardNeverRaises(messages: seq<Message>)
    ensures !Accumulate(messages, Mastercard.MessageStep).aborted
  {
    forall j | 0 <= j < |messages| ensures !Mastercard.MessageStep(messages[j]).Abort? {
      Mastercard.NeverAborts(messages[j]);
    }
    AccumulateMatchesAppended(messages, Mastercard.MessageStep);
  }

  /** A written file holds the header, every Visa row, then every Mastercard row. */
  lemma ProgramWritten(visaMessages: seq<Message>, mastercardMessages: seq<Message>, table: seq<seq<string>>)
    requires Program(visaMessages, mastercardMessages) == Written(table)
    ensures |table| == 1 + |Accumulate(visaMessages, Visa.MessageStep).records|
                         + |Accumulate(mastercardMessages, Mastercard.MessageStep).records|
    ensures table[0] == Header
    ensures forall i :: 1 <= i <= |Accumulate(visaMessages, Visa.MessageStep).records| ==> table[i][0] == "VISA"
    ensures forall i :: 1 + |Accumulate(visaMessages, Visa.MessageStep).records| <= i < |table| ==>
                          table[i][0] == "MASTERCARD"
  {
    ExportOrder(visaMessages, mastercardMessages);
  }
}
