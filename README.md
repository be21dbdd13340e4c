# AlertaConsumos: card-alert parsing and totals, modelled in Dafny

AlertaConsumos (`main.py`) reads the purchase alerts a bank sends by e-mail
for a Visa and a Mastercard card. For each brand it turns every alert into at
most one transaction row and keeps a running subtotal. It then writes all rows,
Visa first, to one CSV file.

This project models the part of that script that does the work:

- **Visa extractor.** The alert's snippet is tried first. Only when the snippet
  gives neither a merchant nor an amount does it fall back to `plain or html`.
  Three fixed patterns are applied to the chosen text:
  - the amount: `\$ ([\d\.,]+)`;
  - the merchant: `establecimiento (.*?),`;
  - the installments: `(\d+)\s*cuotas?`, ignoring case.
  A string timestamp is split into a date and a time.
- **Mastercard extractor.** When the alert has HTML, its `<li>` texts are
  read. Each text has its whitespace collapsed and is classified through the
  `elif` chain of labels. The value is the text after the first `:`, and a
  later item overwrites an earlier one. When there is no HTML, five fixed
  patterns are applied to the plain-text body. Both branches fill in the
  defaults `'N/A'` and `'01'`.
- **Amounts.**
  - The Argentine reading drops every `.`, then turns `,` into `.`.
  - The US reading drops every `,`.
  - Python's `float()` on the result is exact here: a `real`, or nothing where
    Python raises `ValueError`.
  - The display form is `f"{v:,.2f}"` followed by the three-step replace that
    swaps `,` and `.`.
- **The two per-brand loops.** They are `Ledger.ProcessVisa` and
  `Ledger.ProcessMastercard`. Each is a method with a loop, proved equal to a
  fold (`Records.Accumulate`) of the brand's per-message step. The totals are
  then proved to be the sums of the amounts of the rows appended, in order.
- **The merge in `export_to_csv`.** The Visa rows come first, then the
  Mastercard rows. Nothing is exported when both lists are empty, and an
  exception in the Visa loop ends the program before the export
  (`Ledger.Program`).

Modules, one per file:

- `Wrappers`: `Option`.
- `Text`: the Python string operations used.
- `Amounts`: parsing and display of amounts.
- `Records`: rows, messages and the fold.
- `Visa` and `Mastercard`: the extractors.
- `Ledger`: the loops, the totals and the export.

## Model

| member | source | states |
|---|---|---|
| Text.RemoveChar | main.py:82 | `s.replace(c, '')`: the length drops by the number of `c`s; the characters left are exactly those of `s` other than `c` |
| Text.ReplaceChar | main.py:82 | `s.replace(a, b)`: same length; each position holds `b` where `s` held `a`, and is unchanged elsewhere |
| Text.IndexOf | main.py:187 | the cut point of `split(':', 1)`: the first `:`; no `:` before it; `|s|` exactly when there is none |
| Text.Words | main.py:184 | every token of `str.split()` is non-empty and holds no whitespace |
| Text.WordsOfBlank | main.py:62 | `split()` finds no token exactly when the string is all whitespace |
| Text.WordsOfTwo | main.py:62-63 | the tokens of `d + " " + t` are `d` and `t` |
| Text.WordsOfOne | main.py:62 | a single token splits to itself |
| Text.WordsOfBlanksThen | main.py:62 | leading whitespace of any kind, line breaks and tabs included, does not change the tokens of `split()` |
| Text.WordsOfTokenAfterBlanks | main.py:62 | a token after any whitespace, followed by whitespace or nothing, is the first token of `split()` |
| Text.WordsOfTwoTokens | main.py:62-63 | the first two tokens of a text made of blanks, a token, blanks, a token and whitespace or nothing, are those two tokens |
| Text.WordsOfJoin | main.py:184 | `' '.join` of non-empty tokens without whitespace splits back into exactly those tokens |
| Text.CollapseKeepsWords | main.py:184 | `' '.join(text.split())` keeps the tokens in order, and collapsing twice is the same as collapsing once |
| Text.Strip | main.py:187 | the result of `strip()` neither starts nor ends with whitespace |
| Text.StripIsTrimmedSlice | main.py:187 | `strip()` returns a slice of its argument with only whitespace cut from each end |
| Text.StripUnchanged | main.py:192 | `strip()` leaves alone a string that neither starts nor ends with whitespace |
| Text.Search | main.py:44 | `re.search`: a match at the leftmost position where the pattern matches, and no match exactly when it matches nowhere |
| Text.SearchSpec | main.py:44 | when a pattern succeeds at a position exactly where it can match, `re.search` finds nothing exactly when no position matches, and otherwise the match at the leftmost matching position |
| Text.SearchPosition | main.py:44 | when `re.search` finds a match, it is the pattern's match at some position k in range, and the pattern matches at no position before k |
| Amounts.ParseDecimal | main.py:83 | a value `float()` returns for the amount texts here is never negative |
| Amounts.ParseDecimalAccepts | main.py:83 | `float()` accepts exactly the strings of digits with at most one `.` and at least one digit |
| Amounts.ArgentineNormalizeCounts | main.py:82 | on digits, dots and commas, `.replace('.', '').replace(',', '.')` leaves only digits and points, one point per comma, and every digit |
| Amounts.ParseArgentineAccepts | main.py:82-85 | on the characters the Visa amount can hold, the conversion succeeds exactly when there is a digit and at most one `,` |
| Amounts.TrailingCommaRefused | main.py:82-85 | an amount that already holds its decimal comma and is followed by a sentence comma (`"1.234,56,"`) is refused, so it adds nothing to the total |
| Amounts.SwapSeparatorsSwaps | main.py:137 | without `_` in the input, the three-step replace swaps `,` and `.`, keeps every other character and keeps the length |
| Amounts.SwapSeparatorsInvolution | main.py:137 | without `_` in the input, applying the three-step replace twice gives back the input |
| Amounts.SwapGroupThousands | main.py:137 | the swap turns the comma-grouped integer part of `,.2f` into dot-grouped digits |
| Amounts.DisplayCentsParts | main.py:137 | the display of an amount of cents is its dot-grouped whole part, one `,`, and two digits of cents |
| Amounts.DotGroupsGrouped | main.py:137 | the whole part has one to three leading digits, then `.`-separated groups of exactly three |
| Amounts.DisplayCentsForm | main.py:137 | every display string has the Argentine form: `.`-separated digit groups, one `,`, exactly two digits |
| Amounts.NormalizeDisplay | main.py:82 | the Argentine normalisation of a display string is the plain decimal `<whole>.<cents>` |
| Amounts.DisplayRoundTrip | main.py:82-83 | reading a display string back with the Argentine conversion gives exactly the amount of cents shown |
| Amounts.RoundCentsExact | main.py:137 | an amount with at most two decimals is shown with exactly its own cents |
| Amounts.DisplayReadsBack | main.py:137 | for a non-negative amount with at most two decimals, the display has the Argentine form and reads back to that amount |
| Records.AtMostOneRowPerMessage | main.py:41-132 | each message appends at most one row |
| Records.AbortedStays | main.py:62 | once an exception escaped the loop, later messages change nothing |
| Records.AccumulateMatchesAppended | main.py:68-85 | the rows are those the messages produced, in order; the total is the sum of their converted amounts, a failed conversion adding nothing; the loop stops exactly when some message raised |
| Records.EmptyRun | main.py:41-132 | a loop ends with no rows and no exception exactly when no message yields a row or raises |
| Records.AccumulateTotal | main.py:78-85 | when each row shows the amount its message added, the total is the sum of those amounts over the rows |
| Records.AccumulateCards | main.py:69 | rows from a step that tags one brand all carry that brand |
| Records.TotalNonNegative | main.py:83 | amounts that are never negative keep the total at zero or above |
| Visa.AmountAt | main.py:44 | a match of `\$ ([\d\.,]+)` starts with `"$ "` and captures a non-empty run of digits, dots and commas |
| Visa.AmountRun | main.py:44 | the captured run is the longest one: the character after it is none of those |
| Visa.FindAmountSpec | main.py:44-45 | the amount is the run after the leftmost `"$ "` that starts one; there is none exactly when no position starts one |
| Visa.FindAmountAt | main.py:44-45 | a found amount starts at a position k where `"$ "` and an amount character begin, is the run of amount characters after it, and no earlier position starts one |
| Visa.AmountChars | main.py:44-45 | a found amount is a non-empty run of digits, dots and commas |
| Visa.MerchantAtSpec | main.py:46 | `establecimiento (.*?),` succeeds at a position exactly when `"establecimiento "` starts there and is followed, on the same line, by a `,`; the group is the text up to the first such `,` (the lazy match) |
| Visa.FindMerchantSpec | main.py:46 | the merchant search finds nothing exactly when the pattern matches nowhere; otherwise it is the lazy group at the leftmost position where the pattern matches |
| Visa.MerchantOnOneLine | main.py:46-49 | a found merchant holds neither a comma nor a line break |
| Visa.InstallmentsAtSpec | main.py:51 | `(\d+)\s*cuotas?` succeeds at a position exactly when digits, optional whitespace and `cuota` in any case follow there; the group is every digit from that position on (the greedy match) |
| Visa.InstallmentsForced | main.py:51 | in any match the digit run and the blank run are the longest ones, so the match is determined by its start |
| Visa.FindInstallmentsSpec | main.py:51-52 | the installments search finds nothing exactly when the pattern matches nowhere; otherwise it is the greedy group at the leftmost matching position |
| Visa.InstallmentsAreDigits | main.py:51-52 | the Cuotas column is a non-empty run of digits, either the captured group or the default `"1"` |
| Visa.NoEmptyCells | main.py:70-72 | no Visa row has an empty Establecimiento, Monto or Cuotas cell: a missing or empty group is written `'N/A'`, and the installments default to `"1"` |
| Visa.SplitTimestamp | main.py:61-63 | with a space in the timestamp, the date is a non-empty token without whitespace; without one, the date is the whole timestamp and the time is `'N/A'` |
| Visa.StampOfDateAndTime | main.py:62-63 | `"d t"` gives date `d` and time `t` |
| Visa.StampOfDateOnly | main.py:63 | `"d "` (one token) gives date `d` and time `'N/A'` |
| Visa.StampOfTokens | main.py:61-63 | any timestamp holding a space whose first two whitespace-separated tokens are `d` and `t` gives date `d` and time `t`, whatever surrounds or follows them (`"d t x"` gives time `t`) |
| Visa.StampOfOneToken | main.py:61-63 | any timestamp holding a space with a single token `d`, however much whitespace surrounds it, gives date `d` and time `'N/A'` |
| Visa.AbortWhen | main.py:43-62 | an alert raises exactly when its snippet or its fallback text yields a merchant or an amount and its timestamp holds a space and nothing but whitespace |
| Visa.StampFails | main.py:62 | `split()[0]` raises exactly when the timestamp holds a space and nothing but whitespace |
| Visa.RowStepAmount | main.py:78-83 | the amount a row adds is its Monto read in Argentine form, and nothing for `'N/A'` |
| Visa.StepRecord | main.py:68-85 | every Visa row has card VISA and a digit-only Cuotas; it adds what its Monto reads as, exactly when Monto has a digit and at most one `,` |
| Visa.SnippetFirst | main.py:43-86 | a snippet that yields a merchant or an amount decides the row; the bodies are never looked at |
| Visa.BodyFallback | main.py:89-102 | otherwise `plain or html` decides: one row when it yields a merchant or an amount, else none |
| Mastercard.ClassifyOrder | main.py:186-199 | an item is classified exactly when it holds one of the labels, and the earliest label in the `elif` chain wins |
| Mastercard.ClassifiedHasColon | main.py:187 | a classified item always has the `:` that `split(':', 1)[1]` needs |
| Mastercard.AfterFirstColon | main.py:187 | the value is everything after the first `:`, trimmed, even when it holds more colons |
| Mastercard.HoraLabel | main.py:196 | a text starting `"Hora:"` in which none of `Comercio:`, `Importe:`, `Fecha:` occurs is classified as Hora |
| Mastercard.HoraItem | main.py:196-197 | the item `"Hora: " + v`, when none of `Comercio:`, `Importe:`, `Fecha:` occurs in it, stores `v` trimmed under Hora, colons and other text in `v` included (`"Hora: 10:30 CET"` gives `"10:30 CET"`) |
| Mastercard.LastItemWins | main.py:181-199 | after the loop a key is present exactly when some item carried its label, and it holds the last such item's value |
| Mastercard.GatherEmpty | main.py:201 | `data` is empty exactly when no item was classified |
| Mastercard.CollectFields | main.py:181-199 | the `for item in list_items` loop builds exactly the dict of `Fields`, item by item |
| Mastercard.HtmlColumns | main.py:181-220 | in the row of an HTML alert, each label's cell shows the value of the last item carrying that label (the amount cleaned and displayed), or the label's default `'N/A'` or `'01'` when no item does |
| Mastercard.HtmlRecordIff | main.py:201-206 | an HTML alert yields a row exactly when some item carries a label; its Cuotas is the stored value or `'01'` |
| Mastercard.ComercioAtSpec | main.py:249 | `Comercio:\s*([^\n]+)` succeeds at a position exactly when the label, blanks (line breaks included) and a character other than a line break follow there; the group is that of the greedy match: the blanks run as far as still leaves a group, and the group runs to the end of its line or of the text |
| Mastercard.FindComercioSpec | main.py:249 | the Comercio search finds nothing exactly when the pattern matches nowhere; otherwise it is the greedy group at the leftmost matching position |
| Mastercard.ComercioRestOfLine | main.py:249 | after `Comercio:` and any blanks, line breaks included, the merchant is the rest of the first line that does not start blank, whether a line break or the end of the text follows it |
| Mastercard.ComercioBlankAtEnd | main.py:249 | `Comercio: ` at the very end of the text backtracks to capture the single blank |
| Mastercard.ImporteAtSpec | main.py:252 | `Importe:\s*\$?([\d,]+(?:\.\d+)?)` succeeds at a position exactly when the label, blanks, an optional `$` and a digit or comma follow there; the group is the longest run of digits and commas, extended by `.` and digits when those follow |
| Mastercard.FindImporteSpec | main.py:252 | the Importe search finds nothing exactly when the pattern matches nowhere; otherwise it is the greedy group at the leftmost matching position |
| Mastercard.FechaAtSpec | main.py:253 | `Fecha:\s*(\d{2}/\d{2}/\d{4})` succeeds at a position exactly when the label, blanks and a `dd/dd/dddd` follow there; the group is those ten characters |
| Mastercard.FindFechaSpec | main.py:253 | the Fecha search finds nothing exactly when the pattern matches nowhere; otherwise it is the date at the leftmost matching position |
| Mastercard.HoraAtSpec | main.py:254 | `Hora:\s*(\d{2}:\d{2})` succeeds at a position exactly when the label, blanks and a `dd:dd` follow there; the group is those five characters |
| Mastercard.FindHoraSpec | main.py:254 | the Hora search finds nothing exactly when the pattern matches nowhere; otherwise it is the time at the leftmost matching position |
| Mastercard.CuotasAtSpec | main.py:255 | `Cantidad cuotas:\s*(\d+)` succeeds at a position exactly when the label, blanks and a digit follow there; the group is the whole digit run |
| Mastercard.FindCuotasSpec | main.py:255 | the Cantidad cuotas search finds nothing exactly when the pattern matches nowhere; otherwise it is the digit run at the leftmost matching position |
| Mastercard.PlainShapes | main.py:249-255 | the five patterns' groups found in a text have those shapes |
| Mastercard.UsNumberChars | main.py:252 | an Importe group holds only digits, commas and dots, and has no whitespace at either end |
| Mastercard.UsNumberParse | main.py:270 | the US reading of an Importe group succeeds exactly when it holds a digit |
| Mastercard.CleanUsNumber | main.py:265 | removing `$` and stripping leaves an Importe group unchanged, and the result is neither empty nor `'N/A'` |
| Mastercard.RowStepAmount | main.py:209-242 | every row: card MASTERCARD with the four text columns as given; a parsed amount is non-negative, added, and shown in Argentine display form; an unparsed one adds nothing and is shown cleaned; `'N/A'` stays `'N/A'`; non-negative for the amounts the modelled `float()` accepts (a signed HTML amount such as `-1,000.00` is left out) |
| Mastercard.PlainRow | main.py:257-262 | a plain-text alert yields a row exactly when Comercio, Importe, Fecha or Hora matched (Cantidad cuotas alone does not count); its amount is the US reading of the Importe group, added exactly when that group has a digit; a missing Importe shows `'N/A'` |
| Mastercard.HtmlFirst | main.py:175-245 | with HTML present, the row comes from the `<li>` items alone; the plain-text body is ignored |
| Mastercard.NeverAborts | main.py:173-298 | no Mastercard alert raises; each gives no row or one MASTERCARD row, whose added amount is shown as its Monto and is non-negative for the amounts the modelled `float()` accepts (a signed HTML amount such as `-1,000.00` is left out) |
| Ledger.PickFields | main.py:43-102 | exactly the snippet's fields when the snippet is non-empty and usable, else exactly those of `plain or html` when that is non-empty and usable, else none; this agrees with the Visa step |
| Ledger.AppendVisa | main.py:68-85 | appends the Visa row with `'N/A'` for a missing merchant or amount, and adds the Argentine reading of the amount when it parses |
| Ledger.VisaMessage | main.py:43-102 | one pass of the Visa loop leaves the rows, the total and the exception flag exactly as one Visa step does |
| Ledger.ProcessVisa | main.py:38-132 | the Visa loop's rows, total and abort flag are those of the fold of the Visa step over the sorted messages |
| Ledger.AppendMastercard | main.py:209-242 | appends the Mastercard row and adds its amount, exactly as one Mastercard step does |
| Ledger.AddImporte | main.py:233-242 | the total grows by the US reading of the cleaned amount when it is non-empty, not `'N/A'` and parses, and is unchanged otherwise |
| Ledger.HtmlMessage | main.py:175-242 | the HTML branch leaves the rows and total as the Mastercard step on the `<li>` items does: a row only when some label was recognised |
| Ledger.PlainMessage | main.py:245-298 | the plain-text branch leaves the rows and total as the Mastercard step on the text does: a row only when Comercio, Importe, Fecha or Hora matched |
| Ledger.ProcessMastercard | main.py:170-298 | the Mastercard loop's rows and total are those of the fold of the Mastercard step over the sorted messages |
| Ledger.VisaTotal | main.py:78-85 | the Visa total is the sum over the rows, in order, of each Monto read back in Argentine form; `'N/A'` and unparseable amounts add nothing |
| Ledger.MastercardTotal | main.py:224-242 | the Mastercard total is the sum of the amounts of the appended rows, in order; each row whose amount parsed shows it in display form |
| Ledger.Cards | main.py:68-75 | every Visa row is tagged VISA and every Mastercard row MASTERCARD |
| Ledger.TotalsNonNegative | main.py:83 | both totals are non-negative, so the subtotal display is defined for them, for the amounts the modelled `float()` accepts (a signed HTML amount such as `-1,000.00` is left out) |
| Ledger.Cells | main.py:324 | a row's cells follow the header order `Tarjeta, Establecimiento, Monto, Cuotas, Fecha, Hora` |
| Ledger.Table | main.py:328 | one line of cells per row, in row order |
| Ledger.Export | main.py:313-317 | no table when both lists are empty; otherwise the header, every Visa row, then every Mastercard row, each in its own order |
| Ledger.ExportOrder | main.py:313 | in the exported table of the two loops, the lines after the header are VISA up to the number of Visa rows, and MASTERCARD after that |
| Ledger.MastercardNeverRaises | main.py:170-298 | the Mastercard loop never stops on an exception |
| Ledger.ProgramRaises | main.py:334-343 | the program ends in an exception, before anything is exported, exactly when some Visa alert raises |
| Ledger.ProgramNoFile | main.py:313-343 | the program writes no file exactly when no alert of either brand yields a row or raises |
| Ledger.ProgramWritten | main.py:313-343 | a written file holds the header, then as many VISA lines as the Visa loop produced rows, then the MASTERCARD lines |
| Ledger.ExportColumns | main.py:313-328 | when every Visa row is tagged VISA and every Mastercard row MASTERCARD, the table's first column reads VISA for the Visa rows and MASTERCARD after them |

## Left out

- Fetching the mail is left out: the Gmail client, the query and `get_messages` (main.py:15-24, 147-156) are network I/O. The alerts are an input sequence.
- The sort by date at main.py:31 and main.py:163 is left out. Instead, `DateOrdered` is a precondition of both loops, comparing strings code point by code point.
- BeautifulSoup parsing is left out (`find_all('li', type='disc')`, `get_text`; main.py:176-183). It is a foreign library. Each message carries the list of `<li>` texts it would produce.
- Only part of Python's `float()` is modelled: plain decimals after `strip()`, that is digits with at most one `.` and at least one digit. Left out: signs, exponents, `inf`/`nan`, underscores and non-ASCII digits. This is exact for everything the Visa pattern and the plain-text Importe pattern can capture. An HTML Importe such as `-5` or `1e3` is treated as unparseable, where Python would accept it.
- Amounts are exact reals, so binary floating point is left out: both the rounding `float()` applies to each parsed amount and the drift in `total +=`.
- `RoundCents` rounds a half cent up, where Python's `,.2f` rounds the binary value half to even. The two displays agree only while the double is within half a cent of the amount. For an amount with at most two decimals this holds below 2^46 (about 7.04·10^13), where doubles are at most 1/128 apart. From 2^46 up they are 1/64 apart, and `float()` alone can move an amount past the half cent: `70,368,744,177,664.01` becomes the double …664.015625, which `,.2f` shows as `…664.02` while `Display` shows `…664,01`. `DisplayReadsBack` is a statement about the exact amount.
- The `strftime` branch for a timestamp that is not a string (main.py:64-66) is left out. Timestamps are strings.
- Console printing and column padding are left out, including the subtotal lines (main.py:34-35, 57, 104, 138, 166, 221, 277, 304). The subtotal's text is `Amounts.Display` of the total.
- The CSV file itself is left out: the file name from `datetime.now()`, `DictWriter` quoting and the encoding (main.py:320-331). The export is modelled as a table of strings.
- `\d` and `\s` are taken as the ASCII digits and `str.isspace()`. Case-insensitive matching of `cuotas?` covers the ASCII letters only. Python's case folding also lets `s` match the long s `ſ` (U+017F), but the only `s` in the pattern is the optional one at the end of `cuotas?`, which cannot change the match or the group; non-ASCII digits are left out.
- The program is modelled with `EXPORT_CSV` on, as main.py:9 sets it; the `False` branch is left out. An exception that escapes the Visa loop is modelled as the outcome `Raised`; its traceback is left out.
- Mastercard.AfterColon: `text.split(':', 1)[1]` raises IndexError on a text without `:`. Such a text is never classified (`ClassifiedHasColon`), so this function returns `""` there instead of modelling the exception.
- Ledger.MastercardTotal: unlike the Visa total, it is stated over the appended steps and not as a function of the row alone. A Mastercard Monto that did not parse is shown cleaned but not converted, so the row does not determine what it added in general. Where the amount did parse, `Amounts.DisplayReadsBack` gives the read-back of the Monto only for amounts with at most two decimals.

Where the code and its design notes differ, the model follows the code:

- The Visa Monto column stores the raw matched text, such as `1.234,56` (main.py:71, 118), not the display form.
- The plain-text Comercio pattern skips line breaks after the label (`\s*`), so an empty Comercio line takes the next non-blank line.
