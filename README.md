# Clube da Despensa storefront: a Dafny model of its core

The storefront is a single-page React shop (`App.jsx`). It shows a product catalog,
lets the customer fill a cart and sends the order to WhatsApp. This project models
the parts of `App.jsx` that have behaviour worth stating, and proves properties of them:

- **The feed parser `parseCSV`.** It is a character-by-character scanner with an
  `inQuotes` flag, followed by the step that turns the header row into keys and
  every non-blank data row into a key-to-value record.
  - `Csv.Scan` specifies the scan as a function of the remaining input.
  - `Csv.ParseCsv` is the imperative loop itself. It is proved to compute
    `Records(Rows(text))`.
  - `CsvLaws` proves what the scan means for whole inputs:
    - the quoting round trip;
    - the reading of quote-free text as lines split at commas;
    - what happens with a quote that is never closed.
- **The product normalizer `normalizeProduto`.** Each field has its own fallback
  rule (`Products`):
  - the id slug;
  - the decimal-comma price;
  - a case size that is never 0;
  - the case-insensitive `caseOnly` and `ativo` flags.
- **Catalog selection (`Catalog`).**
  - The active products of a feed replace the catalog only when there is at least one.
  - The search box keeps, in catalog order, the products whose lower-cased
    "name brand" contains the lower-cased query.
- **Quantities, the cart and checkout.**
  - `Quantity` holds the stepping, rounding and clamping rules of a product card.
  - Two classes hold the state the page mutates:
    - `Store.Storefront`: the catalog, the search text and the cart, with `setQtd`
      and the feed load;
    - `Store.ProductCard`: a card's case-mode switch and its `inc`, `dec`,
      manual-entry and checkbox handlers.
  - `Store.Total` is the cart total. `Store.CheckoutDisabled` is the test on the
    checkout button.

Modules:

| module | file | contents |
|---|---|---|
| `Wrappers` | `wrappers.dfy` | `Option`, standing for `undefined` and `NaN` |
| `Text` | `text.dfy` | how JavaScript sees white space; `toLowerCase`, `trim`, `includes` |
| `Numeric` | `numeric.dfy` | `Number` on decimal literals; `parseInt(s, 10)` |
| `Csv` | `csv.dfy` | `parseCSV`: the scanner function, the loop, record building |
| `CsvLaws` | `csv_laws.dfy` | properties of the scan over whole inputs |
| `Products` | `products.dfy` | `normalizeProduto` and its field rules |
| `Lists` | `lists.dfy` | `filter`, `map` and the order-preserving sublist relation |
| `Catalog` | `catalog.dfy` | feed-load decision and search |
| `Quantity` | `quantity.dfy` | card quantity rules |
| `Store` | `store.dfy` | cart, total, checkout, and the `Storefront` and `ProductCard` classes |

Where the source text and its evident intent differ, the model follows the intent.
Each case is documented at the top of the module concerned (`Csv` and `Products`
for the backslashes, `Store` for the other two):

- **Doubled backslashes.** The source compares characters with `'\\n'` and `'\\r'`
  and uses the pattern `/\\s+/`. Read literally, a single character can never equal
  these two-character strings. The model reads them as newline, carriage return and
  a white-space run. This agrees with the CRLF handling and with the footer's advice
  to publish a spreadsheet as CSV.
- **`or` and `not`.** The checkout button's `disabled` test is written with `or` and
  `not`, which are not JavaScript operators. The model reads them as `||` and `!`.
- **The minimum order.** It is written `300,00` (App.jsx:6), which is not a well-formed
  number. The model takes it as the `minimum` parameter of the store.

Two behaviours of the code are worth pointing out, and the model states them as written:

- Manual entry in case mode (App.jsx:66) rounds to the *nearest* whole number of
  cases (`Math.round`, halves up): with a case of 6, typing 14 gives 12 and typing
  15 gives 18.
- A price may come out negative (App.jsx:50): a price of "-3" gives -3, and only
  `NaN` and 0 fall back to 0. The normalizer also reads only the Portuguese keys
  (`id`, `nome`, `marca`, `preco`, `unidade`, `ativo`) plus `casesize`/`caseSize`
  and `caseonly`/`caseOnly`.

## Model

| member | source | states |
|---|---|---|
| Csv.Scan | App.jsx:25-39 | the scan consumes the input one step at a time. A doubled quote inside quotes is an escaped quote, a comma ends a field, a newline ends a row and a carriage return is dropped. Rows already emitted are never changed |
| Csv.ParseCsv | App.jsx:22-43 | the scanning loop, the flush of a pending field or row, the header shift and the record mapping compute exactly `Records(Rows(text))` |
| Csv.HeaderKeys | App.jsx:41 | there is one key per header cell, the cell trimmed and lower-cased: no key holds a capital letter or starts or ends with white space |
| Csv.HeaderKeyOfPadded | App.jsx:41 | a header cell made of a piece with white space around it gives the lower-cased piece as its key |
| Csv.FromEntriesKeys | App.jsx:42 | the record's keys are exactly the header keys |
| Csv.FromEntriesValue | App.jsx:42 | a key maps to the value at its last occurrence, so a repeated header is last-wins as with `Object.fromEntries` |
| Csv.FromEntries | App.jsx:42 | definition of `Object.fromEntries` on header keys and cells, entries added left to right; its meaning is stated by FromEntriesKeys and FromEntriesValue |
| Csv.BuildRecordKeys | App.jsx:42 | a record has exactly the header's keys, whatever the length of the row |
| Csv.BuildRecordValue | App.jsx:42 | each header key maps to the trimmed cell at its index, or to "" when the row is shorter. Later cells are ignored |
| Csv.DataRecords | App.jsx:42 | there are never more records than data rows |
| Csv.DataRecordsKeys | App.jsx:42 | every record has exactly the header's keys |
| Csv.IsBlankRow | App.jsx:42 | definition of the blank-row test, cell by cell; IsBlankRowIff proves it is the negation of `some` cell being non-empty after trimming |
| Csv.IsBlankRowIff | App.jsx:42 | a row is dropped exactly when every one of its cells trims to the empty string |
| Csv.Records | App.jsx:41-42 | no rows give no records, and there are at most as many records as rows minus the header |
| Csv.DataRecordsOfNonBlank | App.jsx:42 | without blank rows, the k-th record is built from the k-th data row |
| Csv.DataRecordsAppend | App.jsx:42 | record building distributes over concatenation of the data rows |
| Csv.BlankRowDropped | App.jsx:42 | a row whose cells are all white space yields no record, wherever it stands |
| Csv.AllRowsKept | App.jsx:42 | every data row yields a record if and only if no data row is blank |
| CsvLaws.EscapedFieldScan | App.jsx:27-31 | inside quotes, a field with its quotes doubled, followed by the closing quote, reads back as exactly that field |
| CsvLaws.QuotedFieldScan | App.jsx:27-34 | a quoted field read outside quotes appends exactly the field |
| CsvLaws.EncodedRowScan | App.jsx:27-35 | a row of quoted fields joined by commas and ended by a newline is emitted as exactly those fields |
| CsvLaws.EncodedTableScan | App.jsx:25-39 | a table of such rows is emitted row by row |
| CsvLaws.QuotedRowRoundTrip | App.jsx:25-40 | quoted fields joined with commas and ended by a newline tokenize to exactly one row of those fields, even when they hold commas, quotes or line breaks |
| CsvLaws.QuotedTableRoundTrip | App.jsx:25-40 | a whole table written that way tokenizes back to the table |
| CsvLaws.SplitOn | App.jsx:34 | splitting always yields at least one piece |
| CsvLaws.RemoveCR | App.jsx:36 | the result has no carriage return, and every character in it comes from the input |
| CsvLaws.SplitOnNoSeparator | App.jsx:34 | text without a separator is one piece |
| CsvLaws.SplitOnAfterSeparator | App.jsx:34 | a separator starts a new piece |
| CsvLaws.SplitOnNonEmpty | App.jsx:34 | a non-empty text's splitting starts with its first piece |
| CsvLaws.LinesCons | App.jsx:35 | a line followed by a newline is the first of the text's lines |
| CsvLaws.LineScan | App.jsx:34-37 | outside quotes, one quote-free line is read as that line split at commas |
| CsvLaws.LastLineRow | App.jsx:40 | a final line without a newline is still emitted |
| CsvLaws.LineThenRest | App.jsx:35 | a newline ends the row of the line before it |
| CsvLaws.RowsFrom | App.jsx:25-40 | after any rows, the remaining quote-free, CR-free text adds its lines split at commas |
| CsvLaws.DropCR | App.jsx:36 | outside quotes, carriage returns have no effect on the scan |
| CsvLaws.QuoteFreeRows | App.jsx:25-40 | quote-free text reads as its lines, each split at commas. Carriage returns are removed, a final newline adds no empty row and a last unterminated line is kept |
| CsvLaws.UnclosedQuoteScan | App.jsx:27-31 | inside an unclosed quote, every remaining character goes into the field |
| CsvLaws.UnclosedQuoteTakesRest | App.jsx:27-40 | after complete rows, an unclosed quote puts the whole rest of the input into one last field, newlines and commas included, without error |
| Text.Trim | App.jsx:41-42 | `trim` never lengthens, the result neither starts nor ends with white space, and it is empty exactly when the input is all white space |
| Text.TrimOfPadded | App.jsx:41-42 | `trim` removes exactly the white space around a piece that neither starts nor ends with it |
| Text.Lower | App.jsx:41-54 | `toLowerCase` keeps the length and the position of every white-space character; each capital becomes the letter 32 code points above it and every other character is kept |
| Text.LowerChar | App.jsx:41-54 | a capital becomes its small letter, 32 code points above; any other character is unchanged, and no capital is left |
| Text.LowerCaseVariant | App.jsx:53-54 | lower-casing a text gives a capital-free word exactly when the text is that word with some letters written as capitals |
| Text.ContainsAt | App.jsx:128 | `includes` holds exactly when the needle occurs at some index |
| Text.ContainsTransitive | App.jsx:128 | an occurrence of an occurrence is an occurrence |
| Text.IndexOf | App.jsx:50 | the result is the position of the first occurrence of the character |
| Numeric.DigitsValue | App.jsx:50-64 | a digit string's value is below 10 to the power of its length |
| Numeric.Fraction | App.jsx:50-52 | the digits after a decimal point are worth at least 0 and less than 1 |
| Numeric.DigitRun | App.jsx:64 | the longest run of digits at the front of the text |
| Numeric.NumberOf | App.jsx:50-52 | definition of `Number` on decimal literals; NumberOfDigits, NumberOfPointed, NumberOfNegativeDigits and NumberOfNonNumeric state its cases |
| Numeric.ParseIntPrefix | App.jsx:64 | definition of `parseInt(s, 10)`; ParseIntOfDigitPrefix, ParseIntOfNegative and ParseIntOfNonNumeric state its cases |
| Numeric.NumberOfDigits | App.jsx:50-52 | `Number` reads a digit string as its decimal value |
| Numeric.NumberOfPointed | App.jsx:50-52 | `Number` reads digits, a point and digits as the whole part plus the fraction |
| Numeric.NumberOfNegativeDigits | App.jsx:52 | `Number` reads a minus sign followed by digits as the negated value |
| Numeric.NumberOfNonNumeric | App.jsx:50-52 | text starting with anything but white space, a sign, a point or a digit is `NaN` |
| Numeric.ParseIntOfDigitPrefix | App.jsx:64 | `parseInt` reads the digits in front and ignores whatever follows |
| Numeric.ParseIntOfNegative | App.jsx:64-65 | `parseInt` of a minus sign, digits and any text not starting with a digit is the negated value of the digits |
| Numeric.ParseIntOfNonNumeric | App.jsx:64-65 | `parseInt` of text with no sign or digit in front is `NaN` |
| Products.GetOfRecord | App.jsx:42-54 | in a record built from a row, a header key reads as the trimmed cell under its last occurrence |
| Products.GetOfMissingKey | App.jsx:42-54 | in a record built from a row, a key absent from the header reads as "", so the field falls back to its default |
| Products.Or | App.jsx:47-54 | `a \|\| b` on strings is empty only when both are |
| Products.ReplaceFirst | App.jsx:50 | only the first occurrence of the character is replaced, and text without it is unchanged |
| Products.Slug | App.jsx:47 | the slug has no white space, is never longer than its input, and is empty only for empty input |
| Products.IdOf | App.jsx:47 | the id is empty exactly when the record has neither an id nor a name |
| Products.CaseSizeOf | App.jsx:52 | the case size is never 0 |
| Products.PriceOf | App.jsx:50 | definition of the price rule: first comma to a point, `Number`, then 0 for `NaN` or 0; PriceWithComma, PriceTwoCommas and PriceFallbacks state its cases |
| Products.CaseOnlyOf | App.jsx:53 | definition of the case-only flag; CaseOnlyIff proves it holds exactly for "true" ignoring case |
| Products.ActiveOf | App.jsx:54 | definition of the active flag; ActiveIff proves it fails exactly for "false" ignoring case |
| Products.Normalize | App.jsx:45-56 | normalization is total. The case size is never 0, and the id is empty only when both the id and the name are |
| Products.IdKept | App.jsx:47 | a non-empty raw id is kept unchanged |
| Products.IdFromName | App.jsx:47 | without an id, the id is the slug of the lower-cased name, untrimmed |
| Products.SlugOfSpaceFree | App.jsx:47 | text without white space is its own slug |
| Products.SlugAppend | App.jsx:47 | the slug of a concatenation is the concatenation of the slugs, when the cut splits no white-space run |
| Products.SlugOfRun | App.jsx:47 | a whole white-space run becomes one dash |
| Products.SlugPadded | App.jsx:47 | leading and trailing white space is not trimmed: each outer run becomes its own dash |
| Products.PriceWithComma | App.jsx:50 | a price written with a decimal comma reads as the same decimal with a point |
| Products.PriceDecimalComma | App.jsx:50 | "12,50" is 12.5 |
| Products.PriceTwoCommas | App.jsx:50 | only the first comma is replaced, so "1,2,3" is not a number and the price is 0 |
| Products.PriceFallbacks | App.jsx:50 | a non-numeric ("abc"), empty or missing price is 0 |
| Products.CaseSizeLowerKeyFirst | App.jsx:52 | a non-empty `casesize` takes precedence over `caseSize` |
| Products.CaseSizeOfDigits | App.jsx:52 | a positive whole number is taken as the case size |
| Products.CaseSizeEmpty | App.jsx:52 | an empty or missing case size is 1 |
| Products.CaseSizeZero | App.jsx:52 | a zero case size ("0", "00", …) is 1 |
| Products.CaseSizeNonNumeric | App.jsx:52 | a non-numeric case size ("x") is 1 |
| Products.CaseSizeNegative | App.jsx:52 | a negative case size ("-2") is kept, because only 0 and `NaN` are replaced |
| Products.CaseSizeFractional | App.jsx:52 | a fractional case size ("2.5") is kept |
| Products.CaseOnlyIff | App.jsx:53 | `caseOnly` holds exactly when the text is "true" with any of its letters written as capitals |
| Products.ActiveIff | App.jsx:54 | a product is inactive exactly when `ativo` is "false" with any of its letters written as capitals; a missing or empty `ativo` means active |
| Products.FlagsInCapitals | App.jsx:53-54 | "FALSE" and "False" make a product inactive, and "TRUE" makes it case-only |
| Products.EmptyRecord | App.jsx:45-56 | an empty record normalizes, without failing, to: no id, price 0, case size 1, not case-only, active |
| Lists.Filter | App.jsx:123-128 | the result keeps exactly the elements that pass the test, no others, and is never longer |
| Lists.MapAppend | App.jsx:123 | mapping distributes over concatenation |
| Lists.FilterIsSubsequence | App.jsx:123-128 | filtering keeps the original order |
| Lists.FilterAppend | App.jsx:123-128 | filtering distributes over concatenation |
| Lists.FilterAll | App.jsx:128 | a list every element of which passes is its own filter |
| Lists.FilterNonEmpty | App.jsx:124 | a non-empty filter result has an element of the input that passes the test |
| Catalog.Loaded | App.jsx:122-123 | the loaded list holds only active normalized products, in input order |
| Catalog.LoadedIncludes | App.jsx:123 | every record that normalizes to an active product contributes it |
| Catalog.LoadedAppend | App.jsx:123 | loading a concatenation of feeds gives the concatenation of the loaded lists |
| Catalog.LoadedSingle | App.jsx:123 | one record contributes its product if it is active and nothing otherwise |
| Catalog.LoadedNonEmpty | App.jsx:123-124 | the loaded list is non-empty exactly when some record normalizes to an active product |
| Catalog.LoadedFirst | App.jsx:123-124 | a non-empty loaded list implies some record normalizes to an active product |
| Catalog.NextCatalog | App.jsx:124 | the catalog is replaced by the loaded list when some record is active, and is left unchanged otherwise |
| Catalog.Matches | App.jsx:128 | definition of the search test on one product; Search, SearchEmpty and SearchNarrows state what it selects |
| Catalog.Search | App.jsx:128 | the search result is an order-preserving sublist of the catalog. It holds exactly the products whose lower-cased "name brand" contains the lower-cased query |
| Catalog.SearchEmpty | App.jsx:128 | an empty query shows the whole catalog |
| Catalog.SearchIdempotent | App.jsx:128 | searching a search result again with the same query changes nothing |
| Catalog.SearchNarrows | App.jsx:128 | a query containing another one shows nothing that the other one hides |
| Quantity.Clamp | App.jsx:129 | the result is the larger of 0 and q: never below q, and either 0 or q itself |
| Quantity.Step | App.jsx:62 | the step is at least 1 |
| Quantity.RoundToMultiple | App.jsx:66 | manual entry in case mode gives the multiple of the case size nearest to the entry, halves rounded up; never negative for a non-negative entry |
| Quantity.RoundToMultipleUnique | App.jsx:66 | that multiple is the only one in the rounding window |
| Quantity.CeilDiv | App.jsx:83 | `Math.ceil(q / k)` is the least integer whose multiple reaches q |
| Quantity.CaseModeOn | App.jsx:83 | switching case mode on gives the least positive multiple of the case size that is at least the quantity, and one case for 0 |
| Quantity.RoundUpUnique | App.jsx:83 | that multiple is the only one in its window |
| Quantity.Entered | App.jsx:63-68 | a typed quantity is never negative, and in case mode it is a whole number of cases; EnteredDigits and EnteredCaseDigits give its value for typed digits |
| Quantity.AfterInc | App.jsx:69 | `inc` adds exactly one step |
| Quantity.AfterDec | App.jsx:70 | `dec` removes one step, or gives 0 when fewer than a step remain |
| Quantity.AfterToggle | App.jsx:83 | switching off keeps the quantity; switching on gives the least whole number of cases that is at least one case and at least the quantity |
| Quantity.DecUndoesInc | App.jsx:69-70 | `dec` after `inc` restores the quantity |
| Quantity.IncUndoesDec | App.jsx:69-70 | `inc` after `dec` restores the quantity when `dec` did not stop at 0 |
| Quantity.CaseModeKeepsCases | App.jsx:62-70 | in case mode, `inc` and `dec` keep a whole number of cases whole |
| Quantity.CaseModeOnFixesCases | App.jsx:83 | switching case mode on leaves a positive whole number of cases unchanged |
| Quantity.CaseOfSix | App.jsx:66-83 | with a case of 6, entries 14, 15 and 16 become 12, 18 and 18. Switching on from 14 gives 18, and from 0 gives 6 |
| Quantity.EnteredInvalid | App.jsx:64-65 | a negative or non-numeric entry becomes 0 |
| Quantity.EnteredDigits | App.jsx:64 | outside case mode, typed digits are taken as they are, whatever follows them |
| Quantity.EnteredCaseDigits | App.jsx:64-66 | in case mode, typed digits become the multiple of the case size nearest to their value, whatever follows them |
| Quantity.EnteredCaseOfSix | App.jsx:64-66 | with a case of 6, typing "14" gives 12 and typing "15" gives 18 |
| Quantity.EnteredNegative | App.jsx:64-65 | an entry with a minus sign becomes 0 |
| Store.SumOverRemove | App.jsx:130 | the total does not depend on the order of the entries: any entry can be taken first |
| Store.Total | App.jsx:130 | definition of the cart total as a sum over the entries; SumOverRemove shows it does not depend on the order, TotalEmpty and TotalUpdate give its values |
| Store.SumOverSame | App.jsx:130 | the total depends only on the entries summed |
| Store.TotalEmpty | App.jsx:130 | the total of an empty cart is 0 |
| Store.TotalUpdate | App.jsx:129-130 | setting one entry changes the total by the difference of that entry's line totals alone |
| Store.SumOverOfZeros | App.jsx:130 | entries with quantity 0 sum to 0 |
| Store.NonZeroTotalHasItem | App.jsx:130-131 | with no negative quantity, a non-zero total implies an entry with a positive quantity |
| Store.CheckoutWithPositiveMinimum | App.jsx:131-181 | with a positive minimum, checkout is enabled exactly when the total reaches the minimum and both name and phone are filled |
| Store.EmptyCartDisabled | App.jsx:181 | an empty cart can never be checked out |
| Store.CheckoutDisabled | App.jsx:181 | definition of the `disabled` test of the checkout button; CheckoutWithPositiveMinimum and EmptyCartDisabled state what it means |
| Store.FindProduct | App.jsx:129 | `find` returns the first product with the id, and nothing exactly when no product has it |
| Store.Storefront.constructor | App.jsx:110-113 | the store starts with the default catalog, an empty search and an empty cart |
| Store.Storefront.SetQuery | App.jsx:159 | the search text is replaced and nothing else changes |
| Store.Storefront.LoadFeed | App.jsx:120-124 | the catalog becomes `NextCatalog` of the parsed feed; the cart and the search are unchanged |
| Store.Storefront.Qty | App.jsx:69-70 | a product absent from the cart has quantity 0, and in a valid storefront no quantity is negative |
| Store.Storefront.LineFor | App.jsx:129 | the stored entry carries the id, the quantity clamped at 0 (a negative one becomes exactly 0), and the name and price of the first catalog product with that id |
| Store.Storefront.SetQtd | App.jsx:129 | only the entry for the id changes. It gets the first catalog product's name and price and the clamped quantity, and the total changes by that entry's difference alone |
| Store.Storefront.CheckoutEnabled | App.jsx:181 | definition of the enabled checkout button for the store's own cart and minimum |
| Store.Storefront.CheckoutEnabledIff | App.jsx:131-181 | in a valid storefront with a positive minimum, checkout is enabled exactly when the total reaches the minimum and both name and phone are filled |
| Store.ProductCard.constructor | App.jsx:61 | a case-only product's card starts in case mode |
| Store.ProductCard.HandleChange | App.jsx:63-68 | the entered quantity is stored for the card's product with the catalog's name and price; no other cart entry, the catalog and the search text are unchanged |
| Store.ProductCard.Inc | App.jsx:69 | the quantity goes up by one step, stored with the catalog's name and price; no other cart entry, the catalog and the search text are unchanged |
| Store.ProductCard.Dec | App.jsx:70 | the quantity goes down by one step but not below 0, stored with the catalog's name and price; no other cart entry, the catalog and the search text are unchanged |
| Store.ProductCard.ToggleCaseMode | App.jsx:83 | a case-only card cannot leave case mode and changes nothing. Otherwise the mode follows the box; switching on stores the quantity rounded up to whole cases with the catalog's name and price, and switching off leaves the cart alone. The catalog and the search text are unchanged |

## Left out

- Rendering: JSX, `Badge`, the presentation in `Resumo` and the layout have no behaviour to state.
- The fetch of the feed and its promise chain (App.jsx:117-126) are network I/O and
  asynchrony. `Storefront.LoadFeed` takes the text that arrived. The loading flag and the
  error message are not modelled.
- Message formatting: `formatBRL` (Intl currency formatting), the order text, `encodeURIComponent`,
  the `wa.me` URL and `window.open` (App.jsx:11-12, 134-145) are foreign library calls and side effects.
- The customer form fields (App.jsx:112, 171-179) are plain text state. The checkout test
  takes the name and phone as parameters.
- `CONFIG` and `DEFAULT_CATALOGO` are static configuration. The default catalog and the
  minimum order are constructor parameters.
- Numeric.NumberOf models JavaScript's `Number` only for decimal literals: an optional sign,
  digits, an optional point and digits, with white space around. Exponents, hexadecimal and
  `Infinity` read as `NaN` here. Prices and case sizes are exact `real`s, not IEEE doubles.
- Numeric.ParseIntPrefix models `parseInt(s, 10)` on text. The number `0` that `val || 0`
  passes for empty text is taken as the text "0".
- Text.Lower lower-cases ASCII and Latin-1 capitals only, not all of Unicode.
- Store.Total is a ghost function. The order in which `reduce` visits the entries is not
  modelled, because the sum over `real`s does not depend on it.
- Store.ProductCard: requires a whole case size of at least 1. A card for a product whose
  normalized case size is negative or fractional is not modelled.
- Quantity.CaseModeOn: for a negative quantity it follows `(Math.ceil(q / k) || 1) * k` on
  integers. The cart never holds one, so its contract speaks only of non-negative quantities.
- Store.Storefront.SetQtd: requires the id to be in the catalog, because the source
  dereferences `item.nome` on the `find` result and would throw otherwise.
- The card's quantity is read from the cart when a handler runs. React's stale-closure and
  batching behaviour is not modelled.
