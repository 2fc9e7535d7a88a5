/** The receipt scoring engine of ProcessRecepitsHandler (main.go:57-111).

    Each of the seven rules is a function of the receipt's text fields; a
    field that does not parse only zeroes its own rule. ComputePoints is the
    handler's step-by-step accumulation, proved equal to Score, the sum of
    the rules. */
module Scoring {
  import opened Options
  import opened Digits
  import opened Decimals
  import opened Text
  import opened Calendar

  /** recepit_items: both fields are kept as the submitted text. */
  datatype ReceiptItem = ReceiptItem(shortDescription: string, price: string)

  /** process_recepits_request. */
  datatype Receipt = Receipt(
    retailer: string,
    purchaseDate: string,
    purchaseTime: string,
    items: seq<ReceiptItem>,
    total: string)

  // ---------------------------------------------------------------------
  // The rules.

  /** One point per letter or digit of the retailer name. */
  function RetailerPoints(name: string): (p: nat)
    ensures p <= |name|
  {
    if name == [] then 0
    else (if IsAlphanumeric(name[0]) then 1 else 0) + RetailerPoints(name[1..])
  }

  /** 50 points when the total parses and `x - float64(int64(x)) == 0`. */
  function RoundTotalPoints(total: string): (p: nat)
    ensures p == 0 || p == 50
  {
    match ParseDecimal(total)
    case Some(d) => if FractionalPart(Value(d)) == 0.0 then 50 else 0
    case None => 0
  }

  /** What main.go holds in totalSpend: ParseFloat yields 0 on a syntax
      error, and the quarter rule does not look at the error. */
  function TotalSpend(total: string): (x: real)
    ensures x == 0.0 <==> ParseDecimal(total).None? || ParseDecimal(total).value.mantissa == 0
  {
    match ParseDecimal(total)
    case Some(d) => Value(d)
    case None => 0.0
  }

  /** 25 points when totalSpend != 0 and `int(100 * (x - float64(int64(x)))) % 25 == 0`.
      Go's % truncates and Dafny's is Euclidean, but both are 0 exactly on
      the multiples of 25. */
  function QuarterTotalPoints(total: string): (p: nat)
    ensures p == 0 || p == 25
  {
    var x := TotalSpend(total);
    if x != 0.0 && Truncate(100.0 * FractionalPart(x)) % 25 == 0 then 25 else 0
  }

  /** 5 points for every two items. */
  function ItemPairPoints(count: nat): (p: nat)
    ensures p % 5 == 0 && 2 * p <= 5 * count < 2 * p + 10
  {
    count / 2 * 5
  }

  /** An item whose trimmed description is a multiple of 3 bytes long earns
      `math.Ceil(price * 0.2)`, or nothing when the price does not parse. */
  function ItemPoints(item: ReceiptItem): (p: int)
    ensures p != 0 ==> ByteLength(TrimSpace(item.shortDescription)) % 3 == 0 && ParseDecimal(item.price).Some?
    ensures p < 0 ==> ParseDecimal(item.price).Some? && Value(ParseDecimal(item.price).value) < 0.0
  {
    if ByteLength(TrimSpace(item.shortDescription)) % 3 == 0 then
      match ParseDecimal(item.price)
      case Some(d) => Ceiling(Value(d) * 0.2)
      case None => 0
    else
      0
  }

  /** The item bonuses of all items, in order. */
  function DescriptionPoints(items: seq<ReceiptItem>): (s: int)
    ensures (forall i :: 0 <= i < |items| ==> ItemPoints(items[i]) >= 0) ==> s >= 0
  {
    if items == [] then 0
    else ItemPoints(items[0]) + DescriptionPoints(items[1..])
  }

  /** 6 points when the purchase date parses and its day is odd. */
  function OddDayPoints(date: string): (p: nat)
    ensures p == 0 || p == 6
  {
    match ParseDate(date)
    case Some(d) => if d.day % 2 == 1 then 6 else 0
    case None => 0
  }

  /** The two bounds main.go parses with the same layout (ParseClock("14:00")
      and ParseClock("16:00"), see AfternoonBounds). */
  const TwoPM := Clock(14, 0)
  const FourPM := Clock(16, 0)

  /** 10 points when the purchase time parses and lies strictly between 2pm and 4pm. */
  function AfternoonPoints(time: string): (p: nat)
    ensures p == 0 || p == 10
  {
    match ParseClock(time)
    case Some(c) => if IsAfter(c, TwoPM) && IsBefore(c, FourPM) then 10 else 0
    case None => 0
  }

  /** The points of a receipt: the sum of the seven rules. */
  function Score(r: Receipt): (s: int)
    ensures var items := ItemPairPoints(|r.items|) + DescriptionPoints(r.items);
            items <= s <= |r.retailer| + 50 + 25 + 6 + 10 + items
  {
    RetailerPoints(r.retailer)
    + RoundTotalPoints(r.total)
    + QuarterTotalPoints(r.total)
    + ItemPairPoints(|r.items|)
    + DescriptionPoints(r.items)
    + OddDayPoints(r.purchaseDate)
    + AfternoonPoints(r.purchaseTime)
  }

  // ---------------------------------------------------------------------
  // The handler's accumulation.

  /** The retailer loop: count the letters and digits of the name. */
  method CountAlphanumerics(name: string) returns (count: int)
    ensures count == RetailerPoints(name)
  {
    count := 0;
    for i := 0 to |name|
      invariant count == RetailerPoints(name[..i])
    {
      assert name[..i + 1] == name[..i] + [name[i]];
      RetailerPointsAppend(name[..i], [name[i]]);
      if IsAlphanumeric(name[i]) {
        count := count + 1;
      }
    }
    assert name[..|name|] == name;
  }

  /** The item loop: each item whose trimmed description is a multiple of
      3 bytes long adds the ceiling of a fifth of its price; an item whose
      price does not parse is skipped. */
  method SumItemPoints(items: seq<ReceiptItem>) returns (sum: int)
    ensures sum == DescriptionPoints(items)
  {
    sum := 0;
    for i := 0 to |items|
      invariant sum == DescriptionPoints(items[..i])
    {
      var item := items[i];
      DescriptionPointsSnoc(items, i);
      if ByteLength(TrimSpace(item.shortDescription)) % 3 == 0 {
        var price := ParseDecimal(item.price);
        if price.None? {
          continue;
        }
        sum := sum + Ceiling(Value(price.value) * 0.2);
      }
    }
    assert items[..|items|] == items;
  }

  /** The two total rules: parse the total once, then test for a whole
      amount and for cents that are a multiple of 25. */
  method TotalBonus(total: string) returns (bonus: int)
    ensures bonus == RoundTotalPoints(total) + QuarterTotalPoints(total)
  {
    bonus := 0;
    var parsed := ParseDecimal(total);
    var totalSpend := if parsed.Some? then Value(parsed.value) else 0.0;
    if parsed.Some? && totalSpend - Truncate(totalSpend) as real == 0.0 {
      bonus := bonus + 50;
    }
    if totalSpend != 0.0 && Truncate(100.0 * (totalSpend - Truncate(totalSpend) as real)) % 25 == 0 {
      bonus := bonus + 25;
    }
  }

  /** ProcessRecepitsHandler's scoring, statement by statement, with its
      two loops and its total rules in the methods above. */
  method ComputePoints(r: Receipt) returns (points: int)
    ensures points == Score(r)
  {
    points := 0;

    var alphanumCount := CountAlphanumerics(r.retailer);
    points := points + alphanumCount;

    var totalBonus := TotalBonus(r.total);
    points := points + totalBonus;

    points := points + |r.items| / 2 * 5;

    var itemPoints := SumItemPoints(r.items);
    points := points + itemPoints;

    var purchaseDate := ParseDate(r.purchaseDate);
    if purchaseDate.Some? && purchaseDate.value.day % 2 == 1 {
      points := points + 6;
    }

    var purchaseTime := ParseClock(r.purchaseTime);
    if purchaseTime.Some? {
      if IsAfter(purchaseTime.value, TwoPM) && IsBefore(purchaseTime.value, FourPM) {
        points := points + 10;
      }
    }
  }

  // ---------------------------------------------------------------------
  // Retailer rule.

  /** The retailer rule counts the letter/digit positions of the name. */
  lemma {:induction false} RetailerPointsCountsAlphanumerics(name: string)
    ensures RetailerPoints(name) == |set i | 0 <= i < |name| && IsAlphanumeric(name[i])|
    decreases |name|
  {
    if name != [] {
      var n := |name| - 1;
      var name' := name[..n];
      RetailerPointsCountsAlphanumerics(name');
      assert name == name' + [name[n]];
      RetailerPointsAppend(name', [name[n]]);
      var before := set i | 0 <= i < n && IsAlphanumeric(name'[i]);
      var after := set i | 0 <= i < |name| && IsAlphanumeric(name[i]);
      if IsAlphanumeric(name[n]) {
        assert after == before + {n};
      } else {
        assert after == before;
      }
    }
  }

  /** The rule is additive over concatenation of names. */
  lemma {:induction false} RetailerPointsAppend(a: string, b: string)
    ensures RetailerPoints(a + b) == RetailerPoints(a) + RetailerPoints(b)
    decreases |a|
  {
    if a == [] {
      assert a + b == b;
    } else {
      assert (a + b)[1..] == a[1..] + b;
      RetailerPointsAppend(a[1..], b);
    }
  }

  /** Spaces, punctuation and every other non-alphanumeric character add nothing. */
  lemma RetailerIgnoresNonAlphanumeric(a: string, c: char, b: string)
    requires !IsAlphanumeric(c)
    ensures RetailerPoints(a + [c] + b) == RetailerPoints(a + b)
  {
    RetailerPointsAppend(a + [c], b);
    RetailerPointsAppend(a, [c]);
    RetailerPointsAppend(a, b);
    assert [c][..0] == [];
  }

  /** "Target & Co." has six letters in "Target" and two in "Co". */
  lemma RetailerExample()
    ensures RetailerPoints("Target & Co.") == 8
  {
  }

  // ---------------------------------------------------------------------
  // Total rules.

  /** +50 exactly when the total parses and every digit after its point is '0'. */
  lemma RoundTotalOfParts(sign: string, whole: string, frac: string, dot: bool)
    requires IsSign(sign) && AllDigits(whole) && AllDigits(frac)
    requires |whole| + |frac| > 0 && (dot || frac == "")
    ensures RoundTotalPoints(sign + whole + (if dot then "." + frac else "")) ==
            if forall i :: 0 <= i < |frac| ==> frac[i] == '0' then 50 else 0
  {
    ParseDecimalOfParts(sign, whole, frac, dot);
    var d := Decimal(IsMinus(sign), DigitsValue(whole + frac), |frac|);
    WholeNumberIff(d);
    DigitsValueAppend(whole, frac);
    DivUnique(d.mantissa, Pow10(|frac|), DigitsValue(whole), DigitsValue(frac));
    DigitsValueZero(frac);
  }

  /** Unparsable totals score nothing for the round-dollar rule. */
  lemma RoundTotalRejects(total: string)
    requires ParseDecimal(total).None?
    ensures RoundTotalPoints(total) == 0
  {
  }

  /** +50 exactly when the total parses to a whole number: the digits past
      the point, read as one number, are a multiple of 10^scale. */
  lemma RoundTotalIff(total: string)
    ensures RoundTotalPoints(total) ==
            match ParseDecimal(total)
            case None => 0
            case Some(d) => if d.mantissa % Pow10(d.scale) == 0 then 50 else 0
  {
    match ParseDecimal(total)
    case None =>
    case Some(d) =>
      WholeNumberIff(d);
  }

  /** +25 exactly when the total parses to a non-zero number whose cents
      (the first two digits after the point) are a multiple of 25. */
  lemma QuarterTotalIff(total: string)
    ensures QuarterTotalPoints(total) ==
            match ParseDecimal(total)
            case None => 0
            case Some(d) => if d.mantissa != 0 && Cents(d) % 25 == 0 then 25 else 0
  {
    match ParseDecimal(total)
    case None =>
    case Some(d) =>
      QuarterTotalOfDecimal(total, d);
  }

  lemma QuarterTotalOfDecimal(total: string, d: Decimal)
    requires ParseDecimal(total) == Some(d)
    ensures QuarterTotalPoints(total) == if d.mantissa != 0 && Cents(d) % 25 == 0 then 25 else 0
  {
    var c := Cents(d);
    var signed := if d.negative then -c else c;
    MultipleNegate(c, 25);
    ValueZeroIff(d);
    CentsValue(d);
    QuarterOfSpend(total, Value(d), signed);
  }

  /** On the text itself: +25 exactly when some digit of the total is not
      '0' and the first two digits after its point (padded with '0') are a
      multiple of 25. */
  lemma QuarterTotalOfParts(sign: string, whole: string, frac: string, dot: bool)
    requires IsSign(sign) && AllDigits(whole) && AllDigits(frac)
    requires |whole| + |frac| > 0 && (dot || frac == "")
    ensures QuarterTotalPoints(sign + whole + (if dot then "." + frac else "")) ==
            if (exists i :: 0 <= i < |whole + frac| && (whole + frac)[i] != '0') &&
               DigitsValue(CentsText(frac)) % 25 == 0 then 25 else 0
  {
    var total := sign + whole + (if dot then "." + frac else "");
    ParseDecimalOfParts(sign, whole, frac, dot);
    CentsOfParts(IsMinus(sign), whole, frac);
    DigitsValueZero(whole + frac);
    QuarterTotalOfDecimal(total, Decimal(IsMinus(sign), DigitsValue(whole + frac), |frac|));
  }

  /** The quarter rule reads totalSpend only through whether it is zero and
      through its truncated cents. */
  lemma QuarterOfSpend(total: string, x: real, cents: int)
    requires TotalSpend(total) == x && Truncate(100.0 * FractionalPart(x)) == cents
    ensures QuarterTotalPoints(total) == if x != 0.0 && cents % 25 == 0 then 25 else 0
  {
  }

  /** A whole amount earns both total rules. */
  lemma WholeTotalExample()
    ensures RoundTotalPoints("100.00") + QuarterTotalPoints("100.00") == 75
  {
    ParseHundred();
    RoundTotalIff("100.00");
    QuarterTotalOfDecimal("100.00", Decimal(false, 10000, 2));
    assert Pow10(2) == 100;
  }

  /** 35 cents earn neither total rule. */
  lemma CentsTotalExample()
    ensures RoundTotalPoints("35.35") + QuarterTotalPoints("35.35") == 0
  {
    ParseCents();
    RoundTotalIff("35.35");
    QuarterTotalOfDecimal("35.35", Decimal(false, 3535, 2));
    assert Pow10(2) == 100;
  }

  /** A zero total is a round amount, but totalSpend != 0 fails, so it
      earns the 50 points and not the 25. */
  lemma TotalZeroExample()
    ensures RoundTotalPoints("0.00") == 50 && QuarterTotalPoints("0.00") == 0
  {
    ParseZero();
    RoundTotalIff("0.00");
    QuarterTotalOfDecimal("0.00", Decimal(false, 0, 2));
  }

  // ---------------------------------------------------------------------
  // Item rules.

  lemma ItemPairExamples()
    ensures ItemPairPoints(0) == 0 && ItemPairPoints(1) == 0
    ensures ItemPairPoints(2) == 5 && ItemPairPoints(3) == 5 && ItemPairPoints(4) == 10
  {
  }

  /** An item earns ceil(price / 5), computed exactly on the parsed digits,
      when its trimmed description is a multiple of 3 bytes long (0 included)
      and its price parses; otherwise it earns nothing. Ceil rounds a negative
      quotient toward zero, so a negative price loses mantissa div 5*10^scale
      ("-7.50" earns -1). */
  lemma ItemPointsValue(item: ReceiptItem)
    ensures ItemPoints(item) ==
            if ByteLength(TrimSpace(item.shortDescription)) % 3 == 0 && ParseDecimal(item.price).Some? then
              var d := ParseDecimal(item.price).value;
              var q := 5 * Pow10(d.scale);
              if d.negative then -(d.mantissa / q) else (d.mantissa + q - 1) / q
            else 0
  {
    match ParseDecimal(item.price)
    case None =>
    case Some(d) =>
      var x := Value(d) * 0.2;
      assert ItemPoints(item) == if ByteLength(TrimSpace(item.shortDescription)) % 3 == 0 then Ceiling(x) else 0;
      CeilingFifth(d);
  }

  /** An item takes points away exactly when it qualifies and its price is -5 or less. */
  lemma ItemPointsNegativeIff(item: ReceiptItem)
    ensures ItemPoints(item) < 0 <==>
            ByteLength(TrimSpace(item.shortDescription)) % 3 == 0 &&
            ParseDecimal(item.price).Some? && Value(ParseDecimal(item.price).value) <= -5.0
  {
  }

  /** An ASCII description without white space at either end counts one
      byte per character. */
  lemma PlainDescriptionLength(description: string)
    requires IsAscii(description)
    requires description == [] || (!IsSpace(description[0]) && !IsSpace(description[|description| - 1]))
    ensures ByteLength(TrimSpace(description)) == |description|
  {
    TrimSpaceUnchanged(description);
    ByteLengthBounds(description);
  }

  /** A 5-character ASCII description such as "Emils" is 5 bytes long, so
      the item earns nothing whatever its price. */
  lemma ShortDescriptionExample(description: string, price: string)
    requires |description| == 5 && IsAscii(description)
    requires !IsSpace(description[0]) && !IsSpace(description[4])
    ensures ItemPoints(ReceiptItem(description, price)) == 0
  {
    PlainDescriptionLength(description);
  }

  /** A 6-character ASCII description priced "10.00" earns
      ceil(10.00 * 0.2) = 2. */
  lemma SixByteDescriptionExample(description: string)
    requires |description| == 6 && IsAscii(description)
    requires !IsSpace(description[0]) && !IsSpace(description[5])
    ensures ItemPoints(ReceiptItem(description, "10.00")) == 2
  {
    PlainDescriptionLength(description);
    TenDollarItem(ReceiptItem(description, "10.00"));
  }

  /** A description of blanks trims to "", which is 0 bytes long and so a
      multiple of 3: priced "10.00", the item earns ceil(10.00 * 0.2) = 2. */
  lemma BlankDescriptionExample(description: string)
    requires forall i :: 0 <= i < |description| ==> IsSpace(description[i])
    ensures ItemPoints(ReceiptItem(description, "10.00")) == 2
  {
    TrimSpaceAllSpace(description);
    TenDollarItem(ReceiptItem(description, "10.00"));
  }

  /** A qualifying item priced "10.00" earns 2. */
  lemma TenDollarItem(item: ReceiptItem)
    requires ByteLength(TrimSpace(item.shortDescription)) % 3 == 0 && item.price == "10.00"
    ensures ItemPoints(item) == 2
  {
    ParseTen();
    ItemPointsValue(item);
    assert 5 * Pow10(2) == 500;
  }

  /** Items score independently: the rule is additive over the item list. */
  lemma {:induction false} DescriptionPointsAppend(a: seq<ReceiptItem>, b: seq<ReceiptItem>)
    ensures DescriptionPoints(a + b) == DescriptionPoints(a) + DescriptionPoints(b)
    decreases |a|
  {
    if a == [] {
      assert a + b == b;
    } else {
      assert (a + b)[1..] == a[1..] + b;
      DescriptionPointsAppend(a[1..], b);
    }
  }

  lemma DescriptionPointsSnoc(items: seq<ReceiptItem>, i: nat)
    requires i < |items|
    ensures DescriptionPoints(items[..i + 1]) == DescriptionPoints(items[..i]) + ItemPoints(items[i])
  {
    assert items[..i + 1] == items[..i] + [items[i]];
    DescriptionPointsAppend(items[..i], [items[i]]);
    assert DescriptionPoints([items[i]]) == ItemPoints(items[i]) + DescriptionPoints([]);
  }

  predicate NoNegativePrice(items: seq<ReceiptItem>) {
    forall i :: 0 <= i < |items| ==> ParseDecimal(items[i].price).None? || Value(ParseDecimal(items[i].price).value) >= 0.0
  }

  lemma {:induction false} DescriptionPointsNonNegative(items: seq<ReceiptItem>)
    requires NoNegativePrice(items)
    ensures DescriptionPoints(items) >= 0
    decreases |items|
  {
    if items != [] {
      var items' := items[1..];
      assert NoNegativePrice(items') by {
        forall i | 0 <= i < |items'| ensures ParseDecimal(items'[i].price).None? || Value(ParseDecimal(items'[i].price).value) >= 0.0 {
          assert items'[i] == items[i + 1];
        }
      }
      DescriptionPointsNonNegative(items');
      assert ItemPoints(items[0]) >= 0;
    }
  }

  /** Adding an item changes the score by its own points and by the pair
      rule only: items score independently of each other. */
  lemma AddItemScore(r: Receipt, item: ReceiptItem)
    ensures Score(r.(items := r.items + [item])) ==
            Score(r) - ItemPairPoints(|r.items|) + ItemPairPoints(|r.items| + 1) + ItemPoints(item)
  {
    DescriptionPointsAppend(r.items, [item]);
    assert DescriptionPoints([item]) == ItemPoints(item) + DescriptionPoints([]);
  }

  // ---------------------------------------------------------------------
  // Date and time rules.

  /** +6 exactly for the text of a valid date (years 0..9999) whose day is odd. */
  lemma OddDayIff(date: string)
    ensures OddDayPoints(date) == 6 <==>
            exists d :: ValidDate(d) && d.year <= 9999 && FormatDate(d) == date && d.day % 2 == 1
    ensures OddDayPoints(date) == 0 || OddDayPoints(date) == 6
  {
    if ParseDate(date).Some? {
      ParseDateIff(date, ParseDate(date).value);
    }
    if exists d :: ValidDate(d) && d.year <= 9999 && FormatDate(d) == date && d.day % 2 == 1 {
      var d :| ValidDate(d) && d.year <= 9999 && FormatDate(d) == date && d.day % 2 == 1;
      ParseDateIff(date, d);
    }
  }

  /** The digit fields of the date examples below. */
  lemma DateFieldDigits()
    ensures DigitsValue("2022") == 2022 && DigitsValue("2023") == 2023 && DigitsValue("2024") == 2024
    ensures DigitsValue("01") == 1 && DigitsValue("02") == 2 && DigitsValue("29") == 29
  {
    assert "2022"[..3] == "202" && "2023"[..3] == "202" && "2024"[..3] == "202";
    assert "202"[..2] == "20" && "20"[..1] == "2" && "2"[..0] == "";
    assert "01"[..1] == "0" && "02"[..1] == "0" && "0"[..0] == "";
    assert "29"[..1] == "2";
  }

  lemma OddDayExample()
    ensures OddDayPoints("2022-01-01") == 6
    ensures OddDayPoints("2022-1-01") == 0
  {
    var s := "2022-01-01";
    assert s[..4] == "2022" && s[5..7] == "01" && s[8..] == "01";
    DateFieldDigits();
  }

  /** February 29 exists in 2024 only. */
  lemma LeapDayExample()
    ensures OddDayPoints("2024-02-29") == 6
    ensures OddDayPoints("2023-02-29") == 0
  {
    var s, t := "2024-02-29", "2023-02-29";
    assert s[..4] == "2024" && s[5..7] == "02" && s[8..] == "29";
    assert t[..4] == "2023" && t[5..7] == "02" && t[8..] == "29";
    DateFieldDigits();
  }

  /** The digit fields of the clock examples below. */
  lemma ClockFieldDigits()
    ensures DigitsValue("13") == 13 && DigitsValue("14") == 14 && DigitsValue("16") == 16
    ensures DigitsValue("00") == 0 && DigitsValue("33") == 33 && DigitsValue("59") == 59
  {
    assert "13"[..1] == "1" && "14"[..1] == "1" && "16"[..1] == "1" && "1"[..0] == "";
    assert "00"[..1] == "0" && "0"[..0] == "";
    assert "33"[..1] == "3" && "3"[..0] == "";
    assert "59"[..1] == "5" && "5"[..0] == "";
  }

  /** ParseClock reads main.go's two bounds as 2pm and 4pm. */
  lemma AfternoonBounds()
    ensures ParseClock("14:00") == Some(TwoPM)
    ensures ParseClock("16:00") == Some(FourPM)
  {
    assert "14:00"[..2] == "14" && "14:00"[2..] == ":00" && ":00"[1..] == "00";
    assert "16:00"[..2] == "16" && "16:00"[2..] == ":00";
    ClockFieldDigits();
  }

  /** +10 exactly for the text of a valid time after 14:00 and before 16:00,
      that is 14:01 to 15:59. */
  lemma AfternoonIff(time: string)
    ensures AfternoonPoints(time) == 10 <==>
            exists c :: ValidClock(c) && (c.hour == 15 || (c.hour == 14 && c.minute > 0)) && FormatClock(c) == time
    ensures AfternoonPoints(time) == 0 || AfternoonPoints(time) == 10
  {
    if AfternoonPoints(time) == 10 {
      AfternoonWitness(time);
    }
    if exists c :: ValidClock(c) && (c.hour == 15 || (c.hour == 14 && c.minute > 0)) && FormatClock(c) == time {
      var c :| ValidClock(c) && (c.hour == 15 || (c.hour == 14 && c.minute > 0)) && FormatClock(c) == time;
      AfternoonOfClock(time, c);
    }
  }

  /** A time that earns the 10 points is written as "HH:MM" from 14:01 to 15:59. */
  lemma AfternoonWitness(time: string)
    requires AfternoonPoints(time) == 10
    ensures exists c :: ValidClock(c) && (c.hour == 15 || (c.hour == 14 && c.minute > 0)) && FormatClock(c) == time
  {
    var c := ParseClock(time).value;
    ParseClockIff(time, c);
    if c.hour < 10 {
      assert false;
    }
  }

  /** Every "HH:MM" from 14:01 to 15:59 earns the 10 points. */
  lemma AfternoonOfClock(time: string, c: Clock)
    requires ValidClock(c) && (c.hour == 15 || (c.hour == 14 && c.minute > 0)) && FormatClock(c) == time
    ensures AfternoonPoints(time) == 10
  {
    ParseFormatClock(c);
  }

  /** The bounds are exclusive, and a time with a suffix does not parse. */
  lemma TimeExamples()
    ensures AfternoonPoints("14:33") == 10
    ensures AfternoonPoints("14:00") == 0 && AfternoonPoints("16:00") == 0
    ensures AfternoonPoints("2:30pm") == 0
  {
    AfternoonBounds();
    assert "14:33"[..2] == "14" && "14:33"[2..] == ":33" && ":33"[1..] == "33";
    ClockFieldDigits();
  }

  lemma BeforeTwoExample()
    ensures AfternoonPoints("13:59") == 0
  {
    assert "13:59"[..2] == "13" && "13:59"[2..] == ":59" && ":59"[1..] == "59";
    ClockFieldDigits();
  }

  // ---------------------------------------------------------------------
  // The whole score.

  /** No rule subtracts points unless some item price is negative. */
  lemma ScoreNonNegative(r: Receipt)
    requires NoNegativePrice(r.items)
    ensures Score(r) >= 0
  {
    DescriptionPointsNonNegative(r.items);
  }

  /** A receipt with every field empty scores nothing. */
  lemma EmptyReceiptScore()
    ensures Score(Receipt("", "", "", [], "")) == 0
  {
  }

  /** A negative price is scored like any other: a qualifying item priced
      -5 or less adds less to the score than the pair rule alone does. */
  lemma NegativePriceLowersScore(r: Receipt, item: ReceiptItem)
    requires ByteLength(TrimSpace(item.shortDescription)) % 3 == 0
    requires ParseDecimal(item.price).Some? && Value(ParseDecimal(item.price).value) <= -5.0
    ensures Score(r.(items := r.items + [item])) < Score(r) - ItemPairPoints(|r.items|) + ItemPairPoints(|r.items| + 1)
  {
    AddItemScore(r, item);
    ItemPointsNegativeIff(item);
  }

  /** So the score of a receipt can be negative. */
  lemma NegativeScore(item: ReceiptItem)
    requires ByteLength(TrimSpace(item.shortDescription)) % 3 == 0
    requires ParseDecimal(item.price).Some? && Value(ParseDecimal(item.price).value) <= -5.0
    ensures Score(Receipt("", "", "", [item], "")) < 0
  {
    var empty := Receipt("", "", "", [], "");
    EmptyReceiptScore();
    NegativePriceLowersScore(empty, item);
    assert empty.(items := empty.items + [item]) == Receipt("", "", "", [item], "");
  }
}
