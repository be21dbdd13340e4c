/**
 * The shapes both card pipelines share: an alert message as the mail client
 * hands it over, the row each pipeline appends to its list, and the running
 * state of one pipeline's loop (record list, total, and whether an
 * exception ended the run).
 */
module Records {
  import opened Wrappers
  import opened Amounts

  datatype Brand = VISA | MASTERCARD

  /** The 'Tarjeta' column. */
  function BrandName(b: Brand): string {
    match b
    case VISA => "VISA"
    case MASTERCARD => "MASTERCARD"
  }

  /**
   * The dict appended to visa_data / mastercard_data, one field per CSV
   * column: Tarjeta, Establecimiento, Monto, Cuotas, Fecha, Hora.
   */
  datatype Record = Record(card: Brand, merchant: string, amount: string, installments: string,
                           date: string, time: string)

  /**
   * One alert. An absent body is the empty string (only its truth value is
   * ever tested). `listItems` are the texts of the body's <li type="disc">
   * elements, as the HTML parser extracts them from `html`.
   */
  datatype Message = Message(snippet: string, plain: string, html: string, listItems: seq<string>,
                             date: string)

  /** What one message does to its pipeline: nothing, one row with the amount it adds, or an exception. */
  datatype Step = NoRecord | Emit(record: Record, amount: Option<real>) | Abort

  /** The pipeline's loop state: the rows so far, the running total, and whether an exception stopped it. */
  datatype Run = Run(records: seq<Record>, total: real, aborted: bool)

  /** `total = 0.0` and an empty list. */
  const Start := Run([], 0.0, false)

  /** One loop iteration; once an exception escaped nothing further happens. */
  function Next(run: Run, step: Step): Run {
    if run.aborted then run
    else
      match step
      case NoRecord => run
      case Emit(r, a) => Run(run.records + [r], run.total + ValueOrZero(a), false)
      case Abort => Run(run.records, run.total, true)
  }

  /** The loop over the sorted messages, one `step` per message. */
  function Accumulate(messages: seq<Message>, step: Message -> Step): Run {
    if messages == [] then Start
    else Next(Accumulate(messages[..|messages| - 1], step), step(messages[|messages| - 1]))
  }

  /** Python's `<=` on strings: code point by code point, a prefix first. */
  predicate LexLe(a: string, b: string)
    decreases |a|
  {
    a == [] || (b != [] && (a[0] < b[0] || (a[0] == b[0] && LexLe(a[1..], b[1..]))))
  }

  /** messages.sort(key=lambda msg: msg.date) has been done. */
  predicate DateOrdered(messages: seq<Message>) {
    forall i, j :: 0 <= i < j < |messages| ==> LexLe(messages[i].date, messages[j].date)
  }

  // ---------------------------------------------------------------------------
  // A reference definition: the rows in order up to the first exception.

  /** The steps that append a row, in order, up to the first exception. */
  function Appended(steps: seq<Step>): seq<Step>
    ensures forall s :: s in Appended(steps) ==> s.Emit?
  {
    if steps == [] then []
    else
      match steps[0]
      case Abort => []
      case NoRecord => Appended(steps[1..])
      case Emit(_, _) => [steps[0]] + Appended(steps[1..])
  }

  function RowsOf(steps: seq<Step>): seq<Record>
    requires forall s :: s in steps ==> s.Emit?
  {
    if steps == [] then [] else [steps[0].record] + RowsOf(steps[1..])
  }

  function SumOf(steps: seq<Step>): real
    requires forall s :: s in steps ==> s.Emit?
  {
    if steps == [] then 0.0 else ValueOrZero(steps[0].amount) + SumOf(steps[1..])
  }

  function StepsOf(messages: seq<Message>, step: Message -> Step): (steps: seq<Step>)
    ensures |steps| == |messages|
    ensures forall i :: 0 <= i < |messages| ==> steps[i] == step(messages[i])
  {
    seq(|messages|, i requires 0 <= i < |messages| => step(messages[i]))
  }

  // ---------------------------------------------------------------------------
  // Lemmas about the loop

  /** Each message appends at most one row. */
  lemma {:induction false} AtMostOneRowPerMessage(messages: seq<Message>, step: Message -> Step)
    ensures |Accumulate(messages, step).records| <= |messages|
  {
    if messages != [] {
      AtMostOneRowPerMessage(messages[..|messages| - 1], step);
    }
  }

  /** After an exception the state no longer changes. */
  lemma {:induction false} AbortedStays(messages: seq<Message>, more: seq<Message>, step: Message -> Step)
    requires Accumulate(messages, step).aborted
    ensures Accumulate(messages + more, step) == Accumulate(messages, step)
    decreases |more|
  {
    var all := messages + more;
    if more == [] {
      assert all == messages;
    } else {
      assert all[..|all| - 1] == messages + more[..|more| - 1];
      AbortedStays(messages, more[..|more| - 1], step);
    }
  }

  lemma {:induction false} AppendedSnoc(steps: seq<Step>, s: Step)
    requires Abort !in steps
    ensures Appended(steps + [s]) == Appended(steps) + (if s.Emit? then [s] else [])
  {
    if steps == [] {
      assert steps + [s] == [s];
    } else {
      assert (steps + [s])[1..] == steps[1..] + [s];
      AppendedSnoc(steps[1..], s);
    }
  }

  lemma {:induction false} AppendedAbort(steps: seq<Step>, more: seq<Step>)
    requires Abort in steps
    ensures Appended(steps + more) == Appended(steps)
  {
    if steps[0] != Abort {
      assert (steps + more)[1..] == steps[1..] + more;
      AppendedAbort(steps[1..], more);
    }
  }

  lemma {:induction false} RowsOfSnoc(steps: seq<Step>, s: Step)
    requires forall x :: x in steps ==> x.Emit?
    requires s.Emit?
    ensures RowsOf(steps + [s]) == RowsOf(steps) + [s.record]
    ensures SumOf(steps + [s]) == SumOf(steps) + ValueOrZero(s.amount)
  {
    if steps == [] {
      assert steps + [s] == [s];
    } else {
      assert (steps + [s])[1..] == steps[1..] + [s];
      RowsOfSnoc(steps[1..], s);
    }
  }

  /**
   * The loop's rows are the appended rows in message order, its total is the
   * sum of their converted amounts (a failed conversion adds nothing), and it
   * is stopped exactly when some message raised.
   */
  lemma {:induction false} AccumulateMatchesAppended(messages: seq<Message>, step: Message -> Step)
    ensures Accumulate(messages, step).records == RowsOf(Appended(StepsOf(messages, step)))
    ensures Accumulate(messages, step).total == SumOf(Appended(StepsOf(messages, step)))
    ensures Accumulate(messages, step).aborted <==> Abort in StepsOf(messages, step)
  {
    if messages != [] {
      var init := messages[..|messages| - 1];
      var last := step(messages[|messages| - 1]);
      AccumulateMatchesAppended(init, step);
      var steps, initSteps := StepsOf(messages, step), StepsOf(init, step);
      assert steps == initSteps + [last];
      if Abort in initSteps {
        AppendedAbort(initSteps, [last]);
      } else {
        AppendedSnoc(initSteps, last);
        if last.Emit? {
          RowsOfSnoc(Appended(initSteps), last);
          assert Appended(steps) == Appended(initSteps) + [last];
          var before := Accumulate(init, step);
          assert !before.aborted;
          assert Accumulate(messages, step) == Next(before, last);
          assert Next(before, last).records == before.records + [last.record];
        } else {
          assert Appended(steps) == Appended(initSteps);
          assert Accumulate(messages, step) == Next(Accumulate(init, step), last);
        }
      }
    }
  }

  /** Before any exception, no row is appended exactly when no step appends one. */
  lemma {:induction false} AppendedNone(steps: seq<Step>)
    requires Abort !in steps
    ensures Appended(steps) == [] <==> forall i :: 0 <= i < |steps| ==> steps[i].NoRecord?
  {
    if steps != [] {
      assert steps[1..][0..] == steps[1..];
      assert Abort !in steps[1..] by {
        forall i | 0 <= i < |steps[1..]| ensures steps[1..][i] != Abort {
          assert steps[1..][i] == steps[i + 1];
        }
      }
      AppendedNone(steps[1..]);
      forall i | 1 <= i < |steps| ensures steps[i] == steps[1..][i - 1] { }
    }
  }

  /** A run ends with no rows and no exception exactly when no message yields a row or raises. */
  lemma EmptyRun(messages: seq<Message>, step: Message -> Step)
    ensures !Accumulate(messages, step).aborted && Accumulate(messages, step).records == []
            <==> forall i :: 0 <= i < |messages| ==> step(messages[i]).NoRecord?
  {
    var steps := StepsOf(messages, step);
    AccumulateMatchesAppended(messages, step);
    if Abort !in steps {
      AppendedNone(steps);
      if Appended(steps) != [] {
        assert RowsOf(Appended(steps)) != [];
      }
    } else {
      var i :| 0 <= i < |steps| && steps[i] == Abort;
      assert !step(messages[i]).NoRecord?;
    }
  }

  /** Once a prefix of the messages has raised, the whole run ends as that prefix did. */
  lemma AbortedPrefix(messages: seq<Message>, n: nat, step: Message -> Step)
    requires n <= |messages| && Accumulate(messages[..n], step).aborted
    ensures Accumulate(messages, step) == Accumulate(messages[..n], step)
  {
    AbortedStays(messages[..n], messages[n..], step);
    assert messages[..n] + messages[n..] == messages;
  }

  /** Every appended step is one of the steps. */
  lemma {:induction false} AppendedFrom(steps: seq<Step>)
    ensures forall s :: s in Appended(steps) ==> s in steps
  {
    if steps != [] {
      AppendedFrom(steps[1..]);
    }
  }

  /** The sum, over rows, of what `value` reads from each row (nothing when it reads no number). */
  function SumRecords(rows: seq<Record>, value: Record -> Option<real>): real {
    if rows == [] then 0.0 else ValueOrZero(value(rows[0])) + SumRecords(rows[1..], value)
  }

  lemma {:induction false} SumOfRows(steps: seq<Step>, value: Record -> Option<real>)
    requires forall s :: s in steps ==> s.Emit? && s.amount == value(s.record)
    ensures SumOf(steps) == SumRecords(RowsOf(steps), value)
  {
    if steps != [] {
      assert steps[0] in steps;
      assert forall s :: s in steps[1..] ==> s in steps;
      SumOfRows(steps[1..], value);
      assert RowsOf(steps)[1..] == RowsOf(steps[1..]);
    }
  }

  /**
   * When each row carries, readable from the row itself, the amount its
   * message adds, the final total is the sum of those amounts over the rows.
   */
  lemma AccumulateTotal(messages: seq<Message>, step: Message -> Step, value: Record -> Option<real>)
    requires forall m :: step(m).Emit? ==> step(m).amount == value(step(m).record)
    ensures Accumulate(messages, step).total == SumRecords(Accumulate(messages, step).records, value)
  {
    var steps := StepsOf(messages, step);
    AccumulateMatchesAppended(messages, step);
    AppendedFrom(steps);
    forall s | s in Appended(steps) ensures s.Emit? && s.amount == value(s.record) {
      var i :| 0 <= i < |steps| && steps[i] == s;
    }
    SumOfRows(Appended(steps), value);
  }

  /** Rows that all come from steps stamped with one brand carry that brand. */
  lemma {:induction false} AccumulateCards(messages: seq<Message>, step: Message -> Step, b: Brand)
    requires forall m :: step(m).Emit? ==> step(m).record.card == b
    ensures forall r :: r in Accumulate(messages, step).records ==> r.card == b
  {
    if messages != [] {
      AccumulateCards(messages[..|messages| - 1], step, b);
    }
  }

  /** Amounts that are never negative keep the total non-negative. */
  lemma {:induction false} TotalNonNegative(messages: seq<Message>, step: Message -> Step)
    requires forall m :: step(m).Emit? && step(m).amount.Some? ==> step(m).amount.value >= 0.0
    ensures Accumulate(messages, step).total >= 0.0
  {
    if messages != [] {
      TotalNonNegative(messages[..|messages| - 1], step);
    }
  }
}
