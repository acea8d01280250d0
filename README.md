# OCR receipt utilities: a verified model

This project models the two routines in `ocr/utils/utility.py` of an OCR
service for payment receipts:

- `sort_text_lines_reading_order` puts the text lines a recogniser found
  into reading order. It computes each line's left edge and vertical centre
  from its bounding box, or from its polygon when there is no box. It then
  sorts the lines by centre and groups consecutive lines into rows. A line
  joins the current row when its centre is within `y_tolerance` of the row's
  most recently added line. Each row is emitted sorted left to right.
- `verify_payment_ocr` cleans the OCR text. It replaces the confusable
  Greek-letter spellings of "AM", then extracts status, amount, reference
  code and date/time using one pattern each. Each value is the first
  non-empty capture group, stripped. The routine then detects the merchant
  and decides whether the receipt shows a successful payment to the expected
  merchant.

Modules:

- `Wrappers` holds `Option`.
- `StableSort` models Python's `list.sort(key=...)`. The model is the
  functional insertion sort `SortBy`. `StableSortCharacterization` proves it
  is the only sorted rearrangement that keeps equal-key elements in their
  original order, so any stable sort (Timsort included) yields the same list.
- `Resolver` holds the reading-order specification `ReadingOrder` and the
  imperative procedure `SortTextLinesReadingOrder`. The procedure's two loops
  are the methods `PositionLines` and `GroupRows`. Each method is proved
  equal to the specification.
- `ResolverProperties` holds the properties of the reading order:
  - it is a permutation;
  - the row partition is exactly characterised;
  - the rows come top to bottom and each row is sorted left to right;
  - these properties determine the output;
  - with a negative tolerance, or a zero tolerance and distinct centres,
    there are only singleton rows;
  - a worked two-row example.
- `Strings` models the Python string operations involved:
  - `str.replace` for a non-empty pattern;
  - `str.strip()` with Python's whitespace set;
  - `str.upper()` on ASCII and on the few characters whose upper case is ASCII.
- `PaymentOcr` holds the record, the validity test and the imperative
  `VerifyPaymentOcr`.
- `PaymentReceipts` holds sample receipts: one that passes, one that is
  pending, an amount after a bare "NPR", and a mixed-case status.

Model choices:

- Coordinates are `real`. A line's geometry can make Python raise: a truthy
  `bbox` that does not have four elements, or a missing or empty polygon, or
  a point with fewer than two coordinates. In those cases the model returns
  `None`.
- An empty input returns the empty list before any geometry is read.
- Regular expressions are not given a semantics. `Matchers` supplies:
  - the cleaning substitution;
  - for each field, the groups of the first case-insensitive match, or `None`;
  - whether the merchant pattern matches.

  Everything the Python code does with those answers is modelled exactly.
  This holds for `upper()` too. The code only compares the upper-cased status
  with the ASCII word SUCCESS. `Strings.UpperChar` lists every non-ASCII
  character whose Python upper case is all ASCII, as in Python 3.12's table.
  Every other character upper-cases to something non-ASCII, so it can never
  produce SUCCESS.
- In `verify_payment_ocr`, a missing status is modelled as `None`, as the
  code does, not as a separate "unknown" status value.

## Model

| member | source | states |
|---|---|---|
| Resolver.Positions | ocr/utils/utility.py:61-74 | The entry list: each line with its position, or None when some line's geometry raises. It has no contract of its own; Resolver.PositionLines is proved equal to it, and ResolverProperties.PositionsLines states that its entries carry the input lines in order. |
| Resolver.Position | ocr/utils/utility.py:63-73 | With a truthy box, a line's position is None unless the box has four numbers; otherwise it is (box[0], (box[1]+box[3])/2). Without a box, the polygon must be present, non-empty and give every point x and y; the position is then the minimum x and the midpoint of the minimum and maximum y. |
| Resolver.MinOf | ocr/utils/utility.py:69-70 | Python's `min` of a non-empty list: the result appears in the list and is at most every element. |
| Resolver.MaxOf | ocr/utils/utility.py:71 | Python's `max` of a non-empty list: the result appears in the list and is at least every element. |
| Resolver.PositionLines | ocr/utils/utility.py:61-74 | The position loop gives the entry list of all lines, or None exactly when some line's geometry raises. |
| Resolver.Rows | ocr/utils/utility.py:80-95 | The chained row grouping is empty exactly when the input is. |
| Resolver.SortRows | ocr/utils/utility.py:92-99 | Every row sorted left to right by `SortBy` on the left edge. It has no contract of its own; ResolverProperties.ReadingOrderShape and ResolverProperties.SortedRowsDetermined state that its rows are exactly the stable left-to-right sorts of the input rows. |
| Resolver.GroupRows | ocr/utils/utility.py:80-99 | The grouping loop and the final flush emit the lines of the chained rows of the sorted entries, each row sorted left to right. |
| Resolver.ReadingOrder | ocr/utils/utility.py:51-101 | Empty input gives the empty list. The result is None exactly when some line's geometry makes Python raise. |
| Resolver.SortTextLinesReadingOrder | ocr/utils/utility.py:51-101 | The procedure returns exactly the reading-order specification for every input and tolerance. |
| ResolverProperties.RowsPartition | ocr/utils/utility.py:80-95 | The rows cut the y-sorted stream into non-empty contiguous rows. Neighbours inside a row are within tolerance; the last member of a row and the first of the next are not. |
| ResolverProperties.RowPartitionUnique | ocr/utils/utility.py:83-95 | Any partition with those properties is the one computed, so two neighbours share a row exactly when their centres differ by at most the tolerance. |
| ResolverProperties.RowsOrdered | ocr/utils/utility.py:77-95 | Rows of a y-sorted stream come top to bottom: every member of an earlier row is at most as low as every member of a later row. |
| ResolverProperties.SortRowsInOrder | ocr/utils/utility.py:92-98 | Sorting inside rows keeps the rows in top-to-bottom order. |
| ResolverProperties.ReadingOrderPermutation | ocr/utils/utility.py:61-101 | The output holds every input line exactly as often as the input does. |
| ResolverProperties.ReadingOrderShape | ocr/utils/utility.py:77-99 | The output is the concatenation of the rows: a stable sort by centre, cut into the chained row partition, each row stably sorted by left edge, the rows top to bottom. |
| ResolverProperties.ReadingOrderDetermined | ocr/utils/utility.py:77-99 | Conversely, any stable sort by centre, any chained row partition of it and any stable left-to-right sort of each row give the output. |
| ResolverProperties.ReadingOrderSingletonRows | ocr/utils/utility.py:88-95 | With a negative tolerance, or zero with distinct centres, every row is a single line and the output is the lines sorted by centre. |
| ResolverProperties.TwoRowsExample | ocr/utils/utility.py:51-101 | Four boxed lines in two rows come out upper row first, each row left to right. |
| StableSort.SortBy | ocr/utils/utility.py:77 | The stable sort by a key. It has no contract of its own; it is specified by the rows StableSort.SortByPermutation, StableSort.SortBySorted, StableSort.SortByStable and StableSort.StableSortCharacterization. |
| StableSort.SortByPermutation | ocr/utils/utility.py:77 | Sorting rearranges its input: same multiset. |
| StableSort.SortBySorted | ocr/utils/utility.py:77 | The sort's result is non-decreasing in the key. |
| StableSort.SortByStable | ocr/utils/utility.py:77 | Elements with the same key keep their relative order. |
| StableSort.StableSortCharacterization | ocr/utils/utility.py:77 | A list is a stable sort of the input exactly when it equals `SortBy`. |
| StableSort.SortByDistinct | ocr/utils/utility.py:77 | Distinct keys stay distinct after sorting. |
| Strings.Replace | ocr/utils/utility.py:13 | A same-length replacement keeps the length; with no occurrence the string is unchanged. |
| Strings.ReplacePairPointwise | ocr/utils/utility.py:13 | Replacing a pattern of two distinct characters keeps the length. It turns the first character of each occurrence into the replacement's first and the second into its second, and keeps every other character. |
| PaymentOcr.Normalize | ocr/utils/utility.py:13 | The two chained replacements of A+Greek Mu and Greek Alpha+Greek Mu by AM. It has no contract of its own; it is specified by PaymentOcr.NormalizePointwise and the normalisation rows after it. |
| PaymentOcr.SearchText | ocr/utils/utility.py:5-13 | The cleaning substitution followed by normalisation. It has no contract of its own; every property of the normalised text follows from the PaymentOcr.Normalize lemmas. |
| PaymentOcr.NormalizePointwise | ocr/utils/utility.py:13 | The normalisation keeps the length. A Greek Alpha before a Greek Mu becomes A, a Greek Mu after A or a Greek Alpha becomes M, and all else is kept. |
| PaymentOcr.NormalizeKeepsOthers | ocr/utils/utility.py:13 | Only Greek Alphas and Greek Mus are ever changed. |
| PaymentOcr.NormalizeNoConfusable | ocr/utils/utility.py:13 | After normalisation no Greek Mu follows an A or a Greek Alpha. |
| PaymentOcr.NormalizeIdempotent | ocr/utils/utility.py:13 | Normalising twice is the same as once. |
| PaymentOcr.FirstNonEmpty | ocr/utils/utility.py:28 | The result is present exactly when some group is truthy, and it is then the first truthy group. |
| PaymentOcr.FieldValue | ocr/utils/utility.py:26-29 | A pattern field's value: the first truthy group of the match, stripped, or None. It has no contract of its own; PaymentOcr.FieldValueFirstGroup states it in both directions. |
| PaymentOcr.FieldValueFirstGroup | ocr/utils/utility.py:26-29 | A field has a value exactly when its pattern matches with a truthy group, and the value is that first group, stripped. |
| PaymentOcr.MerchantValue | ocr/utils/utility.py:32-37 | The merchant value is the canonical name or None, and present exactly when the merchant pattern matches. |
| PaymentOcr.ExtractedData | ocr/utils/utility.py:23-37 | The record has exactly the five keys. Each pattern field holds its field value. The merchant is None or the canonical name. |
| PaymentOcr.IsValid | ocr/utils/utility.py:40-46 | The five-part validity test on a record. It has no contract of its own; PaymentOcr.ValidIff restates it in terms of the matchers, and the receipt lemmas show a record that passes and two that fail or pass the status test. |
| PaymentOcr.ValidIff | ocr/utils/utility.py:40-46 | The receipt is valid exactly when: the status's first truthy group, stripped and upper-cased, is SUCCESS; amount, reference code and date/time each capture; and the merchant matches. |
| PaymentOcr.StatusTestIgnoresCase | ocr/utils/utility.py:41 | On ASCII text the status test is case-insensitive equality with SUCCESS, in both directions. |
| PaymentOcr.VerifyPaymentOcr | ocr/utils/utility.py:3-48 | The procedure returns the extracted record and its validity. |
| PaymentReceipts.SuccessfulReceipt | ocr/utils/utility.py:23-46 | A receipt capturing SUCCESS, an amount after "Amount (NPR)" in the first alternative's group (the second unmatched), a code, a date and the merchant is valid, and the record holds the captures. |
| PaymentReceipts.PendingStatusRejected | ocr/utils/utility.py:41 | A captured PENDING status is recorded and fails validity. |
| PaymentReceipts.PendingReceipt | ocr/utils/utility.py:23-46 | The same receipt with PENDING is invalid while every other field is found. |
| PaymentReceipts.BareNprAmount | ocr/utils/utility.py:18-29 | An amount captured by the second alternative of the amount pattern, the first group unmatched, is recorded as the amount. |
| PaymentReceipts.MixedCaseStatus | ocr/utils/utility.py:27-41 | A status captured in mixed case (the search ignores case) is recorded as captured and passes the status test. |
| Strings.Strip | ocr/utils/utility.py:29 | `str.strip()`: StripLeft then StripRight, each of which states what it cuts and keeps. The rows Strings.StripSlice, Strings.StripCutsSpace and Strings.StripEnds below specify the whole strip. |
| Strings.StripSlice | ocr/utils/utility.py:29 | The stripped value is a contiguous slice of the input, starting where the leading whitespace ends. |
| Strings.StripPastSpace | ocr/utils/utility.py:29 | A leading whitespace character in a capture does not change the recorded value. |
| Strings.StripBeforeSpace | ocr/utils/utility.py:29 | A trailing whitespace character in a capture does not change the recorded value. |
| Strings.StripIdempotent | ocr/utils/utility.py:29 | Stripping twice is the same as once. |
| Strings.StripEnds | ocr/utils/utility.py:29 | A stripped value neither starts nor ends with whitespace. |
| Strings.StripCutsSpace | ocr/utils/utility.py:29 | Stripping removes only whitespace, at both ends. |
| Strings.StripUnchanged | ocr/utils/utility.py:29 | A value with non-space ends is kept as captured. |
| Strings.Upper | ocr/utils/utility.py:41 | `str.upper()`, character by character through UpperChar. It has no contract of its own; Strings.UpperAscii and Strings.UpperEqualsWord specify it on ASCII input. |
| Strings.UpperAscii | ocr/utils/utility.py:41 | On ASCII, upper-casing maps each character to its ASCII upper case and keeps the length. |
| Strings.UpperEqualsWord | ocr/utils/utility.py:41 | For an upper-case word, an ASCII string upper-cases to it exactly when they are equal ignoring ASCII case. |

## Left out

- The rest of the repository: image preprocessing, the OCR engine call, the web API, TLS configuration and response schemas. Only `ocr/utils/utility.py` is modelled.
- Regular-expression semantics: the cleaning substitution, the four field patterns and the merchant pattern are parameters (`Matchers`). The model does not decide what they match.
- Floating-point arithmetic: coordinates and centres are exact reals, so rounding in `(y_min + y_max) / 2` and in the tolerance comparison is not captured.
- Python's duck typing: a line is a record with an optional box and an optional polygon of number lists. A missing `bbox` attribute is the same as `bbox` being None. Non-numeric coordinates and other exceptions are not modelled.
- The in-place steps of `list.sort` (Timsort): the sorts are modelled as producing a new list, and the stable-sort characterisation shows the result is the same.
- Strings.Upper: covers ASCII and the characters whose Python upper case is ASCII (dotless i, long s, sharp s and the Latin ligatures), and leaves every other character unchanged, which is not Python's full Unicode upper case. The status test is unaffected: a character left unchanged has a non-ASCII upper case in Python too, so neither can equal SUCCESS.
- Strings.Replace: requires a non-empty pattern. Python's behaviour for an empty pattern (inserting between characters) is not modelled, and the code never uses one.
- The default `y_tolerance=15`: the model always takes the tolerance as an argument, and a call that omits it is the model applied to 15.
- Dictionary insertion order of the returned record: the record is a map, so key order is not captured.
