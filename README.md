# OFX statement viewer: a Dafny model of its data logic

This project models the data logic of a browser viewer for bank statements in OFX, the Open
Financial Exchange format, written in TypeScript. It covers the following parts.

- **The statement parser** (`src/components/ofx/OFXParser.ts`). It has two paths. The strict
  path reads OFX 2.x as XML. The tolerant path reads OFX 1.x, which is SGML with unclosed leaf
  tags, by plain string search. `parseOFX` uses the XML reading when it succeeds and otherwise
  falls back to the SGML one. The tolerant reader is modelled in full:
  - `section` isolates a container;
  - the leaf-field pattern `<TAG>([^\n\r<]+)` matches its tag without case;
  - the global lazy search for `<STMTTRN>…</STMTTRN>` finds the transaction records;
  - each record field has its own default.
  The parser's helpers are modelled too: `parseNumber` (a comma becomes a point, absent when
  the text is not a number), `safeText` and `formatDateBRL` (`YYYYMMDD…` gives `DD/MM/YYYY`).
- **The page** (`src/pages/Index.tsx`). `handleParsed` stores the statement and makes all of
  its transactions visible; the table's next render replaces them with its filtered, sorted view. `getCSV` exports the visible rows, each cell quoted with its quotes
  doubled, and the model gives a reader for that format.
- **The transactions table** (`src/components/ofx/TransactionsTable.tsx`):
  - the query filter;
  - the sort by date, amount or type, ascending or descending, done here as an in-place sort
    of the copied array;
  - the sort-header toggle;
  - credit classification;
  - the heat-map share and hue.
- **The summary cards** (`src/components/dashboard/SummaryCards.tsx`): the loop that adds up
  credits and debits and records the running net.
- **The charts** (`src/components/dashboard/ChartsPanel.tsx`):
  - the ordered first-match category rules of `inferCategory`;
  - the credit/debit counts;
  - the running balance;
  - the per-category totals, kept in an insertion-ordered map the loop updates.
- **The account card** (`src/components/ofx/AccountCard.tsx`): the label for the account
  type, and the balance default with its sign.

Modelling choices:

- Amounts are `real`.
- Strings are `seq<char>`. Upper- and lower-casing are on ASCII letters.
- Calls into code the model cannot see are parameters:
  - the browser's XML engine is `xml: string -> XmlParse`;
  - `crypto.randomUUID` is `newId: nat -> string`, where the n-th call of one parse gets
    `newId(n)`;
  - JavaScript's `String(number)` is `show: real -> string`.
- Each React state setter becomes a function from the old page or sort state to the new one.
- Loops stay loops:
  - `SummaryCards.Summarize`;
  - `ChartsPanel.BalanceSeries`;
  - `ChartsPanel.Categories`, over a map datatype with an insertion-ordered key list;
  - `TransactionsTable.InsertionSort`, over an `array`.
  The first three are proved against a specification function, and properties of those
  functions are proved as lemmas. `InsertionSort` is proved against `Sorted` and multiset
  equality instead: its result is sorted and a permutation of its input.

The code differs from a plain reading of the parser's behaviour in one place. The SGML path
trims only the bank id, account id and account type. `src/components/ofx/OFXParser.ts:79-81`
has `.trim()`, but lines 84 and 88-93 do not. The XML path trims every field. The model
follows the code. `OFXParser.TrimmedField` is used only for the three account fields.

Credits are not tested the same way everywhere:
- the table (`TransactionsTable.tsx:112`) and the summary (`SummaryCards.tsx:13`) upper-case
  `trnType` before looking for `CREDIT`;
- the type chart (`ChartsPanel.tsx:18`) looks for `CREDIT` with case.

Both tests are modelled as written. `ChartsPanel.TypeTestsDiffer` shows a type on which they
disagree. `ChartsPanel.CreditTestsAgreeOnUpperCased` shows they agree on every type the SGML
path produces, since that path upper-cases types.

## Model

| member | source | states |
|---|---|---|
| OFXParser.Description | src/pages/Index.tsx:31 | a non-empty name, else a non-empty memo, else the empty string |
| OFXParser.IsCredit | src/components/ofx/TransactionsTable.tsx:112 | the credit test of the table and the summary cards: the upper-cased type contains `CREDIT`; it is compared with the chart's test by `ChartsPanel.CreditTestsAgreeOnUpperCased` |
| OFXParser.ParseNumber | src/components/ofx/OFXParser.ts:25-29 | an absent or empty value gives absent |
| OFXParser.UnsignedDecimalAccepts | src/components/ofx/OFXParser.ts:27-28 | unsigned text is accepted as a number exactly when it is a decimal literal (digits, at most one point, at least one digit) |
| OFXParser.SignedDecimalAccepts | src/components/ofx/OFXParser.ts:27-28 | trimmed text is a number exactly when it is empty or an optionally signed decimal literal |
| OFXParser.StringToNumber | src/components/ofx/OFXParser.ts:27 | `Number(s)` on decimal text: the trimmed text read as a signed decimal; which texts it accepts is stated by `SignedDecimalAccepts` and `UnsignedDecimalAccepts` |
| OFXParser.ParseNumberRejectsForeignChar | src/components/ofx/OFXParser.ts:25-29 | text holding any character other than digits, separators, signs or white space gives absent |
| OFXParser.ParseNumberRejectsTwoSeparators | src/components/ofx/OFXParser.ts:27-28 | as only the first comma becomes a point, text with two separators (points or commas) gives absent |
| OFXParser.ParseNumberCommaDecimal | src/components/ofx/OFXParser.ts:27 | `whole,frac` is read as the decimal number `whole.frac` |
| OFXParser.ParseNumberCommaExample | src/components/ofx/OFXParser.ts:27 | `"123,45"` gives 123.45 |
| OFXParser.ParseNumberThousandsExample | src/components/ofx/OFXParser.ts:27-28 | `"1.234,56"` gives absent |
| OFXParser.SafeText | src/components/ofx/OFXParser.ts:31-33 | present exactly when the content is present and not blank; then exactly the trimmed content, non-empty |
| OFXParser.SafeTextIdempotent | src/components/ofx/OFXParser.ts:31-33 | applying `safeText` again changes nothing |
| OFXParser.ParseAsXML | src/components/ofx/OFXParser.ts:35-62 | null exactly when the engine throws or the document holds a `parsererror`; otherwise the extracted record |
| OFXParser.Section | src/components/ofx/OFXParser.ts:71-76 | absent exactly when `<name>` does not occur |
| OFXParser.SectionDelimited | src/components/ofx/OFXParser.ts:71-76 | the section starts at the first `<name>` and ends just before the first `</name>` after it, or at the end of the text when there is none |
| OFXParser.CloseNotInsideOpen | src/components/ofx/OFXParser.ts:74 | the closing tag cannot be found inside the opening tag, so the search from `start` ends after it |
| OFXParser.SectionStartsWithOpenTag | src/components/ofx/OFXParser.ts:72-75 | a present section begins with its opening tag |
| OFXParser.Field | src/components/ofx/OFXParser.ts:79 | a capture is non-empty and holds no `\n`, `\r` or `<`; absent exactly when no case-insensitive `<TAG>` is followed by an accepted character |
| OFXParser.FieldCapture | src/components/ofx/OFXParser.ts:79 | the capture is the longest run of accepted characters after the leftmost matching tag |
| OFXParser.FieldStartAt | src/components/ofx/OFXParser.ts:79 | the match is the leftmost position where the pattern matches |
| OFXParser.FieldOfShortScope | src/components/ofx/OFXParser.ts:78-84 | text no longer than the tag, such as the empty fallback block, yields no field |
| OFXParser.TrimmedField | src/components/ofx/OFXParser.ts:79-81 | `?.[1]?.trim()`: present exactly when the field is, then exactly the capture trimmed, still free of stop characters |
| OFXParser.BlockSpans | src/components/ofx/OFXParser.ts:86 | every match of the lazy global pattern lies within the text, start before end |
| OFXParser.BlockSpansHead | src/components/ofx/OFXParser.ts:86 | the first match starts at the first `<STMTTRN>` and is a block; the rest are the matches after its end |
| OFXParser.BlockSpansAreBlocks | src/components/ofx/OFXParser.ts:86 | each match runs from `<STMTTRN>` to the first `</STMTTRN>` after it, and matches do not overlap and come in document order |
| OFXParser.BlockSpansLeftmost | src/components/ofx/OFXParser.ts:86 | no opening tag lies between one match and the next |
| OFXParser.BlockSpansComplete | src/components/ofx/OFXParser.ts:86 | after the last match, no opening tag has a closing tag after it, so no match is missed |
| OFXParser.StmtTrnBlocks | src/components/ofx/OFXParser.ts:86 | one block per match, cut from the original text at the match's bounds |
| OFXParser.BlocksAreDelimited | src/components/ofx/OFXParser.ts:86 | every block begins with `<STMTTRN>` and ends with `</STMTTRN>`, in any case |
| OFXParser.BlockEnds | src/components/ofx/OFXParser.ts:86 | a block found on the upper-cased text, cut from the original, has the two tags at its ends |
| OFXParser.AmountOrZero | src/components/ofx/OFXParser.ts:90 | an absent amount gives 0 |
| OFXParser.ParseTransaction | src/components/ofx/OFXParser.ts:87-94 | the identifier is the FITID field, or the fresh identifier when it is missing |
| OFXParser.ParseTransactions | src/components/ofx/OFXParser.ts:87-95 | one record per block; record k is ParseTransaction of block k, as `TransactionsFollowBlocks` states |
| OFXParser.ParseTransactionDefaults | src/components/ofx/OFXParser.ts:88-93 | the type is upper-cased or `""`, the date is the field or `""`, the amount is the number or 0, the id is the field or the fresh one, and name and memo are the fields or absent |
| OFXParser.ParseAsSGML | src/components/ofx/OFXParser.ts:65-98 | one transaction per `<STMTTRN>` block of the scope |
| OFXParser.AccountBlockFallback | src/components/ofx/OFXParser.ts:78 | the account block is the BANKACCTFROM section, else the CCACCTFROM one, else `""` |
| OFXParser.AccountBlock | src/components/ofx/OFXParser.ts:78 | the fallback (`or`) chain of the account container, whose cases `AccountBlockFallback` states |
| OFXParser.BalanceBlockFallback | src/components/ofx/OFXParser.ts:83 | the balance block is the LEDGERBAL section, else the AVAILBAL one, else `""` |
| OFXParser.BalanceBlock | src/components/ofx/OFXParser.ts:83 | the fallback (`or`) chain of the balance container, whose cases `BalanceBlockFallback` states |
| OFXParser.TransactionScopeFallback | src/components/ofx/OFXParser.ts:86 | records are searched in the BANKTRANLIST section, else in the whole text |
| OFXParser.TransactionScope | src/components/ofx/OFXParser.ts:86 | the BANKTRANLIST section, falling back (`or`) to the whole text, whose cases `TransactionScopeFallback` states |
| OFXParser.NoAccountBlockNoFields | src/components/ofx/OFXParser.ts:78-81 | without either account container, bank id, account id and type are absent |
| OFXParser.NoBalanceBlockNoBalance | src/components/ofx/OFXParser.ts:83-84 | without either balance container the balance is absent |
| OFXParser.TransactionsFollowBlocks | src/components/ofx/OFXParser.ts:86-95 | transaction k is parsed from block k, with the identifier numbered by how many earlier blocks needed one |
| OFXParser.TransactionShape | src/components/ofx/OFXParser.ts:88-93 | every type is upper-cased; type and date hold no stop character; a present name or memo is non-empty |
| OFXParser.FitIdNonEmpty | src/components/ofx/OFXParser.ts:91 | with a supplier of non-empty ids, every identifier is non-empty |
| OFXParser.GeneratedIdsDistinct | src/components/ofx/OFXParser.ts:91 | with a supplier of distinct ids, two records without FITID get different identifiers |
| OFXParser.ParseOFX | src/components/ofx/OFXParser.ts:100-104 | the XML result when there is one, otherwise the SGML result |
| OFXParser.FormatDateBRL | src/components/ofx/OFXParser.ts:110-116 | with eight leading digits, `dd/mm/yyyy` of length 10 taken from them; otherwise the input unchanged |
| OFXParser.FormatDateRoundTrip | src/components/ofx/OFXParser.ts:112-115 | the date can be turned back into the eight digits, and trailing characters are ignored |
| OFXParser.FormatDateExamples | src/components/ofx/OFXParser.ts:110-116 | `20240115` and `20240115093000` give `15/01/2024`; `invalid` is returned as it is |
| IndexPage.HandleParsed | src/pages/Index.tsx:23-26 | the statement is stored and the visible rows are exactly its transactions |
| IndexPage.ViewChange | src/pages/Index.tsx:69 | the table's view becomes the visible rows; the statement is kept |
| IndexPage.FlattenLineBreaks | src/pages/Index.tsx:31 | same length; every `\n` and `\r` becomes a space and every other character is kept |
| IndexPage.FlattenedHasNoLineBreak | src/pages/Index.tsx:31 | the description cell holds no line break, and flattening again changes nothing |
| IndexPage.AmountCell | src/pages/Index.tsx:31 | the number's text with its first point turned into a comma; every other character unchanged; no point, no change |
| IndexPage.Row | src/pages/Index.tsx:31 | five cells per transaction, as many as the header |
| IndexPage.Rows | src/pages/Index.tsx:29-32 | the header, then exactly one row per visible transaction, in order |
| IndexPage.Quote | src/pages/Index.tsx:33 | every cell is wrapped in quotes |
| IndexPage.Escape | src/pages/Index.tsx:33 | every quote of the cell is doubled; text without quotes is unchanged; `ReadQuotedEscape` undoes it |
| IndexPage.Line | src/pages/Index.tsx:33 | the quoted cells joined by commas; `ReadLine` reads it back to the cells |
| IndexPage.Document | src/pages/Index.tsx:33 | the lines joined by line feeds; `ReadDocument` reads it back to the rows |
| IndexPage.GetCsv | src/pages/Index.tsx:28-34 | the document of the header and the visible rows; `CsvRoundTrip` reads it back to exactly those rows |
| IndexPage.ReadQuotedEscape | src/pages/Index.tsx:33 | an escaped cell with its closing quote reads back to the cell, whatever follows that is not a quote |
| IndexPage.ReadQuote | src/pages/Index.tsx:33 | a quoted cell opens with a quote and its body reads back to the cell |
| IndexPage.QuoteRoundTrip | src/pages/Index.tsx:33 | unescaping a quoted cell recovers the original string |
| IndexPage.LineSingle | src/pages/Index.tsx:33 | a line of one cell is that cell quoted |
| IndexPage.LineCons | src/pages/Index.tsx:33 | a longer line is the first cell quoted, a comma, and the line of the rest |
| IndexPage.DocumentSingle | src/pages/Index.tsx:33 | a document of one row is that row's line |
| IndexPage.DocumentCons | src/pages/Index.tsx:33 | a longer document is the first line, a line feed, and the document of the rest |
| IndexPage.ReadCellsLast | src/pages/Index.tsx:33 | the last quoted cell of a line reads back as that one cell |
| IndexPage.ReadCellsCons | src/pages/Index.tsx:33 | a quoted cell and a comma before a readable line read as that cell first |
| IndexPage.ReadLine | src/pages/Index.tsx:33 | a line of quoted cells joined by commas reads back to its cells |
| IndexPage.ReadDocument | src/pages/Index.tsx:33 | lines joined by line feeds read back to their rows |
| IndexPage.CsvRoundTrip | src/pages/Index.tsx:28-34 | the export reads back to the header and then one row per visible transaction, in order, cell for cell |
| IndexPage.CsvStartsWithHeader | src/pages/Index.tsx:30-33 | the export begins with the quoted header line |
| IndexPage.ExportAfterParse | src/pages/Index.tsx:23-34 | right after `handleParsed`, before the table reports its view, the export would list exactly the statement's transactions |
| IndexPage.ExportAfterView | src/pages/Index.tsx:28-34 | after the table reports its view, the export lists exactly those rows |
| IndexPage.ParsedThenShown | src/pages/Index.tsx:23-69 | after `handleParsed` and the table's report of its view, the statement is stored and the visible rows are a permutation of the kept transactions, sorted by the table's key and direction; with a blank query all transactions; for a fresh table newest date first; the export reads back to those rows |
| TransactionsTable.NormalizeQuery | src/components/ofx/TransactionsTable.tsx:26 | the query is exactly the trimmed query with each character lower-cased |
| TransactionsTable.Matches | src/components/ofx/TransactionsTable.tsx:27 | the lower-cased description contains the query; `KeptIffMatches` ties it to the filter |
| TransactionsTable.FilterMatching | src/components/ofx/TransactionsTable.tsx:27 | each transaction occurs as often as in the input when it matches and not at all otherwise |
| TransactionsTable.Kept | src/components/ofx/TransactionsTable.tsx:27 | an empty query keeps the list as it is; otherwise the matching transactions are kept |
| TransactionsTable.KeptIffMatches | src/components/ofx/TransactionsTable.tsx:26-27 | with a blank query everything is kept; otherwise a transaction is kept exactly when its lower-cased description contains the query |
| TransactionsTable.DateKey | src/components/ofx/TransactionsTable.tsx:31-35 | the key is exactly the date's first eight characters, or the whole of a shorter date |
| TransactionsTable.KeyLess | src/components/ofx/TransactionsTable.tsx:28-38 | `va < vb` on the chosen column; `KeyLessAsymmetric` and `KeyLessNegativeTransitive` make it a strict weak order |
| TransactionsTable.Compare | src/components/ofx/TransactionsTable.tsx:37-39 | the comparator returns -1, 0 or 1 |
| TransactionsTable.InOrder | src/components/ofx/TransactionsTable.tsx:28-40 | the comparator does not ask to swap x and y; `InOrderMeaning` and `InOrderIsTotalPreorder` state what that means |
| TransactionsTable.InOrderMeaning | src/components/ofx/TransactionsTable.tsx:37-39 | ascending puts x before y when y's key is not smaller; descending when x's key is not smaller |
| TransactionsTable.KeyLessAsymmetric | src/components/ofx/TransactionsTable.tsx:29-38 | no two keys are each smaller than the other |
| TransactionsTable.KeyLessNegativeTransitive | src/components/ofx/TransactionsTable.tsx:29-38 | if z's key is below x's, every y is above z or below x |
| TransactionsTable.InOrderIsTotalPreorder | src/components/ofx/TransactionsTable.tsx:28-40 | the comparator is a consistent total order, for every key and direction |
| TransactionsTable.InsertionSort | src/components/ofx/TransactionsTable.tsx:28-40 | the array is sorted in place and is a permutation of what it held |
| TransactionsTable.Filtered | src/components/ofx/TransactionsTable.tsx:25-43 | the result is a permutation of the kept transactions, sorted by the key and direction |
| TransactionsTable.SortedMeaning | src/components/ofx/TransactionsTable.tsx:37-38 | in a sorted result no later row has a smaller key (ascending) or a larger one (descending) |
| TransactionsTable.Click | src/components/ofx/TransactionsTable.tsx:52-55 | the clicked key becomes the key; the active key flips direction; a new key starts descending |
| TransactionsTable.ClickTwice | src/components/ofx/TransactionsTable.tsx:53 | clicking the active key twice restores the state |
| TransactionsTable.ClickNewColumn | src/components/ofx/TransactionsTable.tsx:54 | a new key starts descending, and a second click makes it ascending |
| TransactionsTable.MaxAbs | src/components/ofx/TransactionsTable.tsx:45 | at least 1, at least every amount's magnitude, and equal to 1 or to one of them |
| TransactionsTable.Pct | src/components/ofx/TransactionsTable.tsx:115 | the share lies in [0, 1]: the amount's magnitude over the maximum, capped at 1 |
| TransactionsTable.PctOfListed | src/components/ofx/TransactionsTable.tsx:45 | for a listed transaction the share is never capped |
| TransactionsTable.Hue | src/components/ofx/TransactionsTable.tsx:116 | credits get a hue in [70, 130], debits one in [0, 40] |
| TransactionsTable.HueMonotone | src/components/ofx/TransactionsTable.tsx:116 | larger credits get a greener hue, larger debits a redder one |
| SummaryCards.Debits | src/components/dashboard/SummaryCards.tsx:13 | debits are a sum of magnitudes, so never negative |
| SummaryCards.Credits | src/components/dashboard/SummaryCards.tsx:13 | the sum of the credit amounts; `TotalsAppend` and `TotalsCons` state how it grows |
| SummaryCards.Series | src/components/dashboard/SummaryCards.tsx:14 | one point per transaction, each carrying its index |
| SummaryCards.Summarize | src/components/dashboard/SummaryCards.tsx:10-17 | the loop computes the credit total, the debit total, `net = credits - debits` and the running series |
| SummaryCards.TotalsAppend | src/components/dashboard/SummaryCards.tsx:12-13 | both totals add up over consecutive parts of the list |
| SummaryCards.TotalsCons | src/components/dashboard/SummaryCards.tsx:13 | a credit adds its amount to credits; any other transaction adds its magnitude to debits |
| SummaryCards.SeriesStep | src/components/dashboard/SummaryCards.tsx:13-14 | consecutive points differ by the credit amount or minus the debit magnitude |
| SummaryCards.SeriesEndsAtNet | src/components/dashboard/SummaryCards.tsx:14-16 | the last point is the net |
| SummaryCards.EmptySummary | src/components/dashboard/SummaryCards.tsx:11 | an empty list gives zero totals and an empty series |
| ChartsPanel.InferCategory | src/components/dashboard/ChartsPanel.tsx:6-14 | the result is one of the six categories |
| ChartsPanel.FirstMatch | src/components/dashboard/ChartsPanel.tsx:8-13 | the reference classifier: the category of the first matching rule, else `Outros`, as `FirstMatchIsFirst` and `FirstMatchNone` state |
| ChartsPanel.FirstMatchIsFirst | src/components/dashboard/ChartsPanel.tsx:8-12 | the first rule with a matching word wins |
| ChartsPanel.FirstMatchNone | src/components/dashboard/ChartsPanel.tsx:13 | when no rule matches the result is `Outros` |
| ChartsPanel.InferCategoryIsFirstMatch | src/components/dashboard/ChartsPanel.tsx:6-14 | the chain of tests is the ordered first-match rule table on the lower-cased name |
| ChartsPanel.InferCategoryExample | src/components/dashboard/ChartsPanel.tsx:7-9 | `Pagamento SUPERMERCADO` matches both the purchase and the payment rules and is filed under `Compras` |
| ChartsPanel.CategoryOf | src/components/dashboard/ChartsPanel.tsx:33 | `inferCategory` of the name, falling back (`or`) to the memo, for one transaction |
| ChartsPanel.TypeData | src/components/dashboard/ChartsPanel.tsx:17-24 | the credit and debit counts add up to the number of transactions |
| ChartsPanel.HasCreditType | src/components/dashboard/ChartsPanel.tsx:18 | the chart's case-sensitive credit test; `TypeTestsDiffer` and `CreditTestsAgreeOnUpperCased` compare it with the table's |
| ChartsPanel.CountIfWeaker | src/components/dashboard/ChartsPanel.tsx:18 | a stricter test counts no more |
| ChartsPanel.TypeCreditsAtMostCredits | src/components/dashboard/ChartsPanel.tsx:18 | the case-sensitive count is at most the number of credits the case-insensitive test finds |
| ChartsPanel.CreditTestsAgreeOnUpperCased | src/components/dashboard/ChartsPanel.tsx:18 | on an upper-cased type, as the SGML path produces, both credit tests agree |
| ChartsPanel.TypeTestsDiffer | src/components/dashboard/ChartsPanel.tsx:18 | a lower-case `credit` is a credit for the table but not for the chart |
| ChartsPanel.BalanceSeries | src/components/dashboard/ChartsPanel.tsx:26-28 | one point per transaction; point i carries i and the sum of amounts 0..i; the last point is the sum of all |
| ChartsPanel.SumAmounts | src/components/dashboard/ChartsPanel.tsx:27 | the sum of the amounts, the reference for the running balance in `BalanceSeries` and `BalanceSteps` |
| ChartsPanel.BalanceSteps | src/components/dashboard/ChartsPanel.tsx:27 | each balance adds the transaction's amount to the previous one |
| ChartsPanel.BalanceIsNet | src/components/dashboard/ChartsPanel.tsx:26-28 | when every non-credit amount is not positive, the final balance equals the summary's net |
| ChartsPanel.CategoriesOf | src/components/dashboard/ChartsPanel.tsx:33 | each transaction's category, from name else memo |
| ChartsPanel.Magnitudes | src/components/dashboard/ChartsPanel.tsx:34 | each transaction's weight is its amount's magnitude, never negative |
| ChartsPanel.FirstOccurrences | src/components/dashboard/ChartsPanel.tsx:36 | the distinct categories, exactly those occurring |
| ChartsPanel.BucketTotal | src/components/dashboard/ChartsPanel.tsx:34 | with non-negative weights a bucket's total is not negative |
| ChartsPanel.CategoryTotal | src/components/dashboard/ChartsPanel.tsx:34 | a category's total is not negative |
| ChartsPanel.BucketEntries | src/components/dashboard/ChartsPanel.tsx:36 | one entry per key with that key's total |
| ChartsPanel.CategoryEntries | src/components/dashboard/ChartsPanel.tsx:30-37 | one entry per distinct category in first-occurrence order, with that category's total |
| ChartsPanel.OrderedMap.GetOrZero | src/components/dashboard/ChartsPanel.tsx:34 | the stored value, or 0 for a missing key |
| ChartsPanel.OrderedMap.Set | src/components/dashboard/ChartsPanel.tsx:34 | the value is replaced; an existing key keeps its place and a new one goes last |
| ChartsPanel.OrderedMap.Entries | src/components/dashboard/ChartsPanel.tsx:36 | `Array.from(map)`: the entries in key order |
| ChartsPanel.Categories | src/components/dashboard/ChartsPanel.tsx:30-37 | the loop over the map yields exactly the category entries |
| ChartsPanel.TallyStep | src/components/dashboard/ChartsPanel.tsx:32-35 | one loop step keeps the map equal to the totals of the transactions seen so far |
| ChartsPanel.TallyValues | src/components/dashboard/ChartsPanel.tsx:34 | after one step every key's value is its total over the transactions seen |
| ChartsPanel.TallyValue | src/components/dashboard/ChartsPanel.tsx:34 | after one step a key's value is its total over the transactions seen |
| ChartsPanel.SetKeepsValid | src/components/dashboard/ChartsPanel.tsx:34 | `set` keeps every key listed once with a value |
| ChartsPanel.FirstOccurrencesSnoc | src/components/dashboard/ChartsPanel.tsx:34 | a new category is appended to the key order; a known one changes nothing |
| ChartsPanel.BucketTotalSnoc | src/components/dashboard/ChartsPanel.tsx:34 | a transaction adds its weight to its own category's total only |
| ChartsPanel.BucketStep | src/components/dashboard/ChartsPanel.tsx:34 | a new transaction adds its weight to its own category only, which is appended when new |
| ChartsPanel.AbsentKeyTotal | src/components/dashboard/ChartsPanel.tsx:34 | a category nobody falls into totals 0 |
| ChartsPanel.FirstOccurrencesOrdered | src/components/dashboard/ChartsPanel.tsx:36 | categories come in the order of their first transaction |
| ChartsPanel.EntriesSnoc | src/components/dashboard/ChartsPanel.tsx:36 | appending a key adds its total to the sum of entries |
| ChartsPanel.EntriesStep | src/components/dashboard/ChartsPanel.tsx:34 | a new transaction adds its weight once to the sum of entries of distinct keys holding its category |
| ChartsPanel.BucketsSum | src/components/dashboard/ChartsPanel.tsx:30-36 | the buckets' totals add up to the total weight |
| ChartsPanel.CategoriesPartitionTotal | src/components/dashboard/ChartsPanel.tsx:30-37 | every value is not negative and the values sum to the total magnitude |
| ChartsPanel.CategoriesInFirstOccurrenceOrder | src/components/dashboard/ChartsPanel.tsx:36 | entries are distinct and ordered by first occurrence |
| ChartsPanel.CategoriesAreThoseOccurring | src/components/dashboard/ChartsPanel.tsx:33-36 | a category has an entry exactly when some transaction falls into it |
| AccountCard.RawType | src/components/ofx/AccountCard.tsx:12 | the value, or `""` when absent |
| AccountCard.MapType | src/components/ofx/AccountCard.tsx:7-13 | any label other than the value itself comes from a CHECKING or SAVINGS type |
| AccountCard.MapTypeChecking | src/components/ofx/AccountCard.tsx:7-10 | a type upper-casing to CHECKING gives `Corrente` exactly in `pt-BR` and `Checking` otherwise |
| AccountCard.MapTypeSavings | src/components/ofx/AccountCard.tsx:11 | a type upper-casing to SAVINGS gives `Poupança` exactly in `pt-BR` and `Savings` otherwise |
| AccountCard.MapTypeOther | src/components/ofx/AccountCard.tsx:12 | any other value is returned unchanged, an absent one as `""` |
| AccountCard.MapTypeIgnoresCase | src/components/ofx/AccountCard.tsx:8 | the type is recognised in any case |
| AccountCard.MapTypeDefaultLocale | src/components/ofx/AccountCard.tsx:7 | the default locale is `pt-BR` |
| AccountCard.DisplayBalance | src/components/ofx/AccountCard.tsx:17 | `?? 0`: an absent balance is shown as 0 |
| AccountCard.BalanceSign | src/components/ofx/AccountCard.tsx:17-18 | the balance is shown as positive exactly when it is absent or not negative |

## Left out

- The XML path's `DOMParser` and `querySelector` use (`OFXParser.ts:37-58`) belongs to the browser's engine. The model treats it as an oracle. `OFXParser.ParseAsXML` states only when the result is null and that otherwise it is the engine's record.
- `crypto.randomUUID` is a random source, modelled as the injected supplier `newId`. Identifiers are distinct only when that supplier's are (`OFXParser.GeneratedIdsDistinct`).
- OFXParser.ParseNumber: JavaScript's `Number` is modelled on plain decimal literals. It gives absent for exponent, hexadecimal, binary, octal and `Infinity` forms, which JavaScript accepts. Values are exact reals, not IEEE doubles.
- Amounts are exact reals throughout. Rounding of floating-point sums in `SummaryCards.Summarize`, `ChartsPanel.BalanceSeries` and `ChartsPanel.Categories` is not modelled.
- Case conversion (`toUpperCase`, `toLowerCase` and the regular-expression `i` flag) is modelled on ASCII letters only. JavaScript maps all of Unicode.
- TransactionsTable.KeyLess compares strings by code point. JavaScript compares UTF-16 code units, which can order characters outside the Basic Multilingual Plane differently. TransactionsTable.DateKey likewise takes the first eight code points, where `slice(0, 8)` takes the first eight UTF-16 code units; the two differ only on dates holding such characters.
- TransactionsTable.InsertionSort: the sort used by the engine is stable. The model states a sorted permutation but not stability, so the order among rows with equal keys is left open. `TransactionsTable.Filtered` inherits this.
- IndexPage.AmountCell: the text JavaScript's `String` gives a number is the parameter `show`. The model does not fix that text.
- `ReadRows`, `ReadCells` and `ReadQuoted` are a reader for the exported format, used to state the round trip. The application itself never reads its CSV back.
- The file export itself (`ExportCSVButton.tsx`: Blob, object URL, a click on a link) and the PDF export (`ExportPDFButton.tsx`) are not modelled.
- `onLoadLastSession` (`Index.tsx:36-45`) reads `localStorage` and `JSON.parse`, which are outside the model. So is the notification permission request (`Index.tsx:47-53`).
- The unused `get` helper inside `parseAsSGML` (`OFXParser.ts:66-69`) is never called, so it is not modelled.
- `formatCurrencyBRL` and `toLocaleString` depend on `Intl` locale data, which the model cannot see.
- `highlight` (`TransactionsTable.tsx:65-79`) only builds markup.
- React rendering, hooks and `useMemo` caching are not modelled. Each state setter is modelled as the new state it produces. Of the effect of `onViewChange?.(sorted)` inside `filtered` (`TransactionsTable.tsx:41`), the model keeps only the visible rows it sets (`IndexPage.ViewChange`).
- IndexPage.ExportAfterParse: the state it describes does not last. The render that mounts or updates the table calls `onViewChange?.(sorted)`, which replaces `visible` with the table's filtered and sorted view before any export. `IndexPage.ParsedThenShown` states the state the export is taken from.
- `UploadArea.tsx` (file reading, a progress timer, `Math.random`, `localStorage`) is UI and I/O and is not modelled. Nor are `i18n.tsx`, the theme and language toggles, `Header.tsx`, `ErrorModal.tsx` and `main.tsx`.
- `Math.max(1, ...list)` can exceed the engine's argument limit on very long lists. The model has no such limit.
