# Receipt points, verified

A Dafny model of the receipt processor in `main.go`. The service accepts a
receipt, scores it with seven independent rules, stores the points under a new
id and later returns them for that id. The model covers:

- the receipt record, in `scoring.dfy`. `Receipt` and `ReceiptItem` keep every field as
  the submitted text.
- the seven rules, as one function each over those text fields. `Score` is their sum.
- the handler's step-by-step accumulation, `ComputePoints`. Its retailer loop
  and its item loop are the methods `CountAlphanumerics` and `SumItemPoints`.
  Each is proved to return the rule functions' value, so `ComputePoints` returns
  exactly `Score`.
- the small parsers the rules depend on, each in its own module:
  - `strconv.ParseFloat` on plain decimal notation, in `decimals.dfy`.
  - `time.Parse` with the layouts `2006-01-02` and `15:04`, in `calendar.dfy`.
  - `strings.TrimSpace` and `len` of a string in UTF-8 bytes, in `text.dfy`.
  - digit strings, in `digits.dfy`.
- the points store, in `store.dfy`. `PointsStore` is a class with a
  `map<string, int>` field; submitting writes it and lookups read it.

Numbers are exact. A parsed number is a `Decimal`: a sign, a mantissa and a
power-of-ten scale. Its value is a `real`. The float expressions of main.go
are applied to that exact value:

- `x - float64(int64(x))` is `FractionalPart`.
- `int(...)` and `int64(...)` are `Truncate`, which rounds toward zero.
- `math.Ceil` is `Ceiling`.

Lemmas then restate each rule on the digits themselves:

- a round total is one whose fractional digits are all '0' (`RoundTotalOfParts`);
- the cents are the first two characters after the point, padded with '0'
  (`CentsOfParts`, `QuarterTotalOfParts`);
- an item earns ceil(mantissa / (5 * 10^scale)) for a non-negative price; for
  a negative price it earns minus (mantissa div 5 * 10^scale), because Ceil
  rounds a negative quotient toward zero, so "-7.50" earns -1
  (`ItemPointsValue`).

Two consequences of main.go are worth stating:

- The retailer rule counts letters and digits only, so "Target & Co." earns 8
  (`RetailerExample`).
- `ceil(price * 0.2)` is added for negative prices too, so a receipt can score
  below zero (`NegativeScore`). `ScoreNonNegative` proves the score is at least
  0 when no price is negative.

## Model

| member | source | states |
|---|---|---|
| Scoring.ComputePoints | main.go:57-111 | the handler's accumulation returns exactly Score(r), the sum of the seven rules |
| Scoring.Score | main.go:57-111 | the seven rules together: at least the two item rules, and at most the length of the retailer name plus 50 + 25 + 6 + 10 more than them |
| Scoring.TotalBonus | main.go:68-79 | the two total `if`s, with one parse of the total, add exactly RoundTotalPoints + QuarterTotalPoints |
| Scoring.CountAlphanumerics | main.go:60-66 | the retailer loop returns RetailerPoints of the name |
| Scoring.SumItemPoints | main.go:86-95 | the item loop, which skips an item whose price does not parse, returns DescriptionPoints of the items |
| Scoring.RetailerPoints | main.go:60-66 | a name earns at most one point per character |
| Scoring.RetailerPointsCountsAlphanumerics | main.go:60-66 | the retailer points are the number of positions holding a letter or a digit |
| Scoring.RetailerPointsAppend | main.go:61-65 | the retailer count is additive over concatenation |
| Scoring.RetailerIgnoresNonAlphanumeric | main.go:62-64 | inserting a space, punctuation or any other non-alphanumeric character changes nothing |
| Scoring.RetailerExample | main.go:60-66 | "Target & Co." earns 8 points |
| Scoring.RoundTotalPoints | main.go:69-73 | the round-dollar rule awards 50 or nothing |
| Scoring.TotalSpend | main.go:69-70 | totalSpend is zero exactly when the total does not parse or all its digits are '0' |
| Scoring.QuarterTotalPoints | main.go:77-79 | the quarter rule awards 25 or nothing |
| Scoring.RoundTotalIff | main.go:69-73 | +50 exactly when the total parses and its mantissa is a multiple of 10^scale; an unparsable total earns 0 |
| Scoring.RoundTotalOfParts | main.go:70-71 | for sign, digits and an optional point with digits: +50 exactly when every digit after the point is '0' |
| Scoring.RoundTotalRejects | main.go:71 | a total that does not parse earns nothing from the round-dollar rule |
| Scoring.QuarterTotalIff | main.go:77-79 | +25 exactly when the total parses to a non-zero number whose cents are a multiple of 25; an unparsable total leaves totalSpend at 0 and earns 0 |
| Scoring.QuarterTotalOfDecimal | main.go:77-79 | the same rule for a total already known to parse to d |
| Scoring.QuarterTotalOfParts | main.go:77-79 | on the text of the total: +25 exactly when some digit is not '0' and the first two digits after the point, padded with '0', are a multiple of 25 (exact decimals; see Left out) |
| Scoring.WholeTotalExample | main.go:69-79 | "100.00" earns 50 + 25 = 75 |
| Scoring.CentsTotalExample | main.go:69-79 | "35.35" earns neither total bonus |
| Scoring.TotalZeroExample | main.go:69-79 | "0.00" is round (+50) but fails totalSpend != 0 (no +25) |
| Scoring.ItemPairPoints | main.go:82 | 5 points per complete pair of items: a multiple of 5 with 2p <= 5n < 2p + 10 |
| Scoring.ItemPairExamples | main.go:82 | 0 or 1 items earn 0, 2 or 3 earn 5, 4 earn 10 |
| Scoring.ItemPoints | main.go:87-93 | an item earns something only when its trimmed description is a multiple of 3 bytes long and its price parses, and earns less than 0 only for a negative price |
| Scoring.DescriptionPoints | main.go:86-95 | the items' points added up: at least 0 when no item earns less than 0 |
| Scoring.ItemPointsValue | main.go:87-93 | an item whose trimmed description is a multiple of 3 bytes long (0 included) and whose price parses earns ceil(mantissa / (5 * 10^scale)) for a non-negative price and minus (mantissa div 5 * 10^scale) for a negative one, since Ceil rounds a negative quotient toward zero ("-7.50" earns -1); otherwise it earns 0 |
| Scoring.ItemPointsNegativeIff | main.go:87-93 | an item takes points away exactly when it qualifies and its price is -5 or less |
| Scoring.ShortDescriptionExample | main.go:87 | a 5-character ASCII description with no white space at either end, such as "Emils", earns nothing, whatever the price |
| Scoring.SixByteDescriptionExample | main.go:87-93 | a 6-character ASCII description with no white space at either end, priced "10.00", earns 2 |
| Scoring.BlankDescriptionExample | main.go:87-93 | a description of blanks trims to 0 bytes, a multiple of 3, so priced "10.00" it earns 2 |
| Scoring.DescriptionPointsAppend | main.go:86-95 | the item bonus is additive over the item list |
| Scoring.DescriptionPointsSnoc | main.go:86-95 | each loop step adds the points of one more item |
| Scoring.DescriptionPointsNonNegative | main.go:86-95 | without negative prices the item bonuses sum to at least 0 |
| Scoring.AddItemScore | main.go:82-95 | adding an item changes the score only by the pair rule and by that item's own points |
| Scoring.OddDayPoints | main.go:98-101 | the odd-day rule awards 6 or nothing |
| Scoring.OddDayIff | main.go:98-101 | +6 exactly for the YYYY-MM-DD text of a valid date (years 0000-9999) whose day is odd; every other text earns 0 |
| Scoring.OddDayExample | main.go:98-101 | "2022-01-01" earns 6; "2022-1-01" does not parse and earns 0 |
| Scoring.LeapDayExample | main.go:98-101 | "2024-02-29" earns 6; "2023-02-29" is not a date and earns 0 |
| Scoring.AfternoonPoints | main.go:104-111 | the afternoon rule awards 10 or nothing |
| Scoring.AfternoonBounds | main.go:106-107 | the two bounds the handler parses are 14:00 and 16:00 |
| Scoring.AfternoonIff | main.go:104-111 | +10 exactly for the HH:MM text of a time from 14:01 to 15:59; every other text earns 0 |
| Scoring.AfternoonWitness | main.go:104-111 | a time that earns the 10 points is written HH:MM between 14:01 and 15:59 |
| Scoring.AfternoonOfClock | main.go:104-111 | every HH:MM from 14:01 to 15:59 earns the 10 points |
| Scoring.TimeExamples | main.go:104-111 | "14:33" earns 10; "14:00" and "16:00" earn 0 (exclusive bounds); "2:30pm" does not parse |
| Scoring.BeforeTwoExample | main.go:104-111 | "13:59" earns 0 |
| Scoring.ScoreNonNegative | main.go:57-111 | the score is at least 0 when no parsed price is negative |
| Scoring.EmptyReceiptScore | main.go:57-111 | a receipt whose fields are all empty scores 0 |
| Scoring.NegativePriceLowersScore | main.go:86-93 | a qualifying item priced -5 or less adds less to the score than the pair rule alone does |
| Scoring.NegativeScore | main.go:57-111 | such an item alone gives a negative score |
| Decimals.Value | main.go:70 | the exact value of a parsed number is zero exactly when its mantissa is, and never has the opposite sign |
| Decimals.ParseUnsigned | main.go:70 | an accepted number without a sign is non-negative and has fewer digits after the point than the text has characters |
| Decimals.ParseDecimal | main.go:70 | accepted text is non-empty, has fewer digits after the point than characters, and is negative exactly when it starts with '-' |
| Decimals.ParseDecimalOfParts | main.go:70 | an optional sign, digits and an optional '.' with digits parse to the exact decimal those digits denote |
| Decimals.ParseDecimalAcceptsOnlyPlainNotation | main.go:70 | whatever parses is an optional sign, then digits with at most one '.' and at least one digit |
| Decimals.ParseFormat | main.go:88 | every decimal is parsed back from its canonical text |
| Decimals.Truncate | main.go:71 | int64(x) rounds toward zero: |x - r| < 1 and r lies between 0 and x |
| Decimals.Ceiling | main.go:93 | math.Ceil gives the least integer not below x |
| Decimals.FractionalPart | main.go:71 | x - float64(int64(x)) lies strictly between -1 and 1 and carries the sign of x |
| Decimals.TruncateValue | main.go:71 | int64 of a parsed number is its whole digits, with its sign |
| Decimals.FractionalPartValue | main.go:71 | the fractional part of a parsed number is (mantissa mod 10^scale) / 10^scale, with its sign |
| Decimals.WholeNumberIff | main.go:71 | the fractional part is zero exactly when the mantissa is a multiple of 10^scale |
| Decimals.CentsValue | main.go:77 | int(100 * fractional part) is Cents, the first two fractional digits, with the number's sign |
| Decimals.CentsText | main.go:77 | two digits: the first two characters of the fraction, with '0' for any that are missing |
| Decimals.CentsOfParts | main.go:77 | the cents of a number written whole.frac are the value of CentsText(frac) |
| Decimals.ValueZeroIff | main.go:77 | totalSpend is zero exactly when the mantissa is zero |
| Decimals.CeilingFifth | main.go:93 | math.Ceil(price * 0.2) equals the integer ceiling division by 5 * 10^scale, which rounds a negative price toward zero |
| Text.IsAlphanumeric | main.go:62 | only ASCII characters count as letters or digits |
| Text.IsSpace | main.go:87 | a white-space character is never a letter or a digit |
| Text.ByteLength | main.go:87 | len of a string lies between its character count and 4 times that |
| Text.RuneLength | main.go:87 | a character takes 1 to 4 UTF-8 bytes, and exactly 1 when it is ASCII |
| Text.ByteLengthBounds | main.go:87 | len of a string is between its character count and 4 times that, and equals the count exactly for ASCII text |
| Text.LeadingSpaces | main.go:87 | the longest run of white space at the start |
| Text.TrailingSpaces | main.go:87 | the longest run of white space at the end |
| Text.TrimSpace | main.go:87 | the result is a slice of s that neither starts nor ends with white space, and everything around it is white space |
| Text.TrimSpaceUnchanged | main.go:87 | text with no white space at either end is unchanged |
| Text.TrimSpaceAllSpace | main.go:87 | text made only of white space trims to the empty string |
| Calendar.IsLeapYear | main.go:98 | only multiples of 4 are leap years, and every multiple of 400 is one |
| Calendar.ValidDate | main.go:98 | a valid day is at most 31, and at most 29 in February |
| Calendar.DaysIn | main.go:98 | a month has 28 to 31 days, and 29 exactly for February of a leap year |
| Calendar.ParseDate | main.go:98 | a parsed date is valid and its year is at most 9999 |
| Calendar.ParseDateIff | main.go:98 | the layout 2006-01-02 accepts exactly the valid dates, each written one way only |
| Calendar.ParseDateCanonical | main.go:98 | accepted text is the canonical text of the date it parses to |
| Calendar.ParseFormatDate | main.go:98 | every valid date parses back from its canonical text |
| Calendar.IsAfter | main.go:108 | for valid times, Time.After holds exactly for a later hour, or the same hour and a later minute |
| Calendar.IsBefore | main.go:108 | Time.Before is the converse of Time.After: an earlier hour, or the same hour and an earlier minute |
| Calendar.ParseClock | main.go:104 | a parsed time has an hour below 24 and a minute below 60 |
| Calendar.ParseClockIff | main.go:104 | the layout 15:04 accepts exactly the valid times written HH:MM, and H:MM for hours below 10 |
| Calendar.ParseClockCanonical | main.go:104 | accepted text is one of the two ways of writing the time it parses to |
| Calendar.ParseFormatClock | main.go:104 | every valid time parses back from HH:MM |
| Calendar.ParseFormatClockShort | main.go:104 | every valid time before 10:00 also parses back from H:MM |
| Service.PointsStore.constructor | main.go:18 | the store starts empty |
| Service.PointsStore.Put | main.go:114 | the map gains the new id with its points, and every other id keeps its value |
| Service.ProcessReceipt | main.go:56-114 | the receipt is scored with Score, and the score is stored under the fresh id without touching any other id |
| Service.PointsStore.Lookup | main.go:130 | a non-zero lookup means the id was stored |
| Service.GetPoints | main.go:130 | the stored points of a known id, and 0 for an id never stored |
| Service.SubmitThenLookup | main.go:114-130 | after a submission, looking up its id gives its score and looking up any other id of an empty store gives 0 |

## Left out

- JSON decoding and its 400 error path, response encoding, and the gorilla/mux
  routing and server setup (main.go:49-53, 116-124, 132-162): I/O and library code.
- `uuid.New()` (main.go:56) is a call into a library. `ProcessReceipt` takes
  the id as a parameter, with a precondition that it is not in use yet.
- Concurrent requests on the unsynchronised `pointsMap`: the store is modelled
  sequentially.
- `strconv.ParseFloat` forms other than plain notation are treated as syntax
  errors. These are exponents ("1e2"), hexadecimal, "Inf"/"NaN" and
  underscores; Go accepts them. Range errors (±Inf) are also not modelled.
- Scoring.QuarterTotalIff / Scoring.QuarterTotalOfDecimal / Scoring.QuarterTotalOfParts: the cents are taken from the exact decimal, while
  Go computes them in float64. For "2.01", Go holds 2.00999999999999978…, so
  `int(100*(x - float64(int64(x))))` is 0 and Go awards +25. The model's cents
  are 1, so it awards 0. Other totals ending in .01, .26, .51 or .76 behave
  the same way, depending on the whole part.
- Decimals.CentsValue: states the cents of the exact value. Go's float64 can
  lie just below the written decimal, and its truncated cents are then one
  less (see the line above).
- Binary floating point. Prices and totals are exact decimals here, so these
  float effects are not modelled either:
  - ParseFloat rounding past about 17 significant digits. Go reads
    "1.24999999999999999" as 1.25 and "5.000000000000000001" as 5. The model
    keeps the exact digits, so the second price earns 2 here and 1 in Go.
  - Underflow. A total below about 1e-324 ("0." followed by 330 zeros and a
    1) parses to 0 in Go without an error, and earns +50 and not +25. The
    model keeps it non-zero, so it earns +25 and not +50.
  - `int64(x)` of a magnitude of 2^63 or more.
- Text.IsAlphanumeric: `unicode.IsLetter` and `unicode.IsNumber` are
  restricted to ASCII letters and digits. The Unicode tables behind them are
  not modelled.
- Scores are unbounded integers: 64-bit overflow of `points` is not modelled.
- `time.Parse` is modelled only for the two layouts main.go uses.
- Scoring.ComputePoints: the retailer loop, the two total rules and the item
  loop sit in their own methods (`CountAlphanumerics`, `TotalBonus`,
  `SumItemPoints`) instead of inline. The statements and their order are
  unchanged.
