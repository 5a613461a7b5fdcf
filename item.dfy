/**
 * The `Item` record: a priced item with an optional percentage discount, the
 * validation rules it must pass before it is stored, its effective price, the
 * stand-alone discount formula, and the average price over every stored item.
 */
module Items {
  import opened Wrappers
  import opened Rounding

  /**
   * An item's attributes as assigned, before any validation: each may be nil.
   * `discountPercentage` is the raw value given to the integer column, so that
   * the "whole number" rule has something to reject; the column reads it back
   * through `StoredPercentage`.
   */
  datatype Item = Item(
    originalPrice: Option<real>,
    hasDiscount: Option<bool>,
    discountPercentage: Option<real>)

  // ---------------------------------------------------------------------------
  // Validation
  // ---------------------------------------------------------------------------

  datatype Field = OriginalPrice | HasDiscount | DiscountPercentage

  /** The validation failures the three rules can report, by their error keys. */
  datatype Rule = Blank | NotANumber | GreaterThan | Inclusion | NotAnInteger | LessThan

  datatype Violation = Violation(field: Field, rule: Rule)

  /**
   * The message reported for each failure. The custom inclusion message is
   * reported for the flag rule and for no other.
   */
  function Message(rule: Rule): (r: string)
    ensures r == "is not a boolean value" <==> rule == Inclusion
  {
    match rule
    case Blank => "can't be blank"
    case NotANumber => "is not a number"
    case GreaterThan => "must be greater than 0"
    case Inclusion => "is not a boolean value"
    case NotAnInteger => "must be an integer"
    case LessThan => "must be less than 100"
  }

  /** Some violation in `vs` concerns field `f`. */
  predicate Rejects(vs: seq<Violation>, f: Field) {
    exists i :: 0 <= i < |vs| && vs[i].field == f
  }

  /**
   * `presence: true` followed by `numericality: { greater_than: 0 }`; a nil value
   * is blank and is not a number.
   */
  function PriceViolations(price: Option<real>): (r: seq<Violation>)
    ensures forall i :: 0 <= i < |r| ==> r[i].field == OriginalPrice
    ensures r == [] <==> price.Some? && price.value > 0.0
    ensures price.None? ==> r == [Violation(OriginalPrice, Blank), Violation(OriginalPrice, NotANumber)]
    ensures price.Some? && price.value <= 0.0 ==> r == [Violation(OriginalPrice, GreaterThan)]
  {
    match price
    case None => [Violation(OriginalPrice, Blank), Violation(OriginalPrice, NotANumber)]
    case Some(x) => if x > 0.0 then [] else [Violation(OriginalPrice, GreaterThan)]
  }

  /** `inclusion: { in: [true, false] }`. */
  function FlagViolations(flag: Option<bool>): (r: seq<Violation>)
    ensures forall i :: 0 <= i < |r| ==> r[i] == Violation(HasDiscount, Inclusion)
    ensures r == [] <==> flag.Some?
  {
    if flag.None? then [Violation(HasDiscount, Inclusion)] else []
  }

  /**
   * `presence: true` followed by `numericality: { only_integer: true, less_than: 100 }`;
   * a value that is not a whole number is reported as such and is not compared.
   * There is no lower bound.
   */
  function PercentageViolations(percentage: Option<real>): (r: seq<Violation>)
    ensures forall i :: 0 <= i < |r| ==> r[i].field == DiscountPercentage
    ensures r == [] <==> percentage.Some? && IsWhole(percentage.value) && percentage.value < 100.0
    ensures percentage.None? ==>
      r == [Violation(DiscountPercentage, Blank), Violation(DiscountPercentage, NotANumber)]
    ensures percentage.Some? && !IsWhole(percentage.value) ==> r == [Violation(DiscountPercentage, NotAnInteger)]
    ensures percentage.Some? && IsWhole(percentage.value) && percentage.value >= 100.0 ==>
      r == [Violation(DiscountPercentage, LessThan)]
  {
    match percentage
    case None => [Violation(DiscountPercentage, Blank), Violation(DiscountPercentage, NotANumber)]
    case Some(p) =>
      if !IsWhole(p) then [Violation(DiscountPercentage, NotAnInteger)]
      else if p < 100.0 then []
      else [Violation(DiscountPercentage, LessThan)]
  }

  /** The item passes every rule, so it may be stored. */
  predicate Valid(item: Item) {
    && item.originalPrice.Some? && item.originalPrice.value > 0.0
    && item.hasDiscount.Some?
    && item.discountPercentage.Some? && IsWhole(item.discountPercentage.value)
    && item.discountPercentage.value < 100.0
  }

  /** The violations found on `item`, field by field in the order the rules are declared. */
  function Validate(item: Item): (r: seq<Violation>)
    ensures Rejects(r, OriginalPrice) <==>
      !(item.originalPrice.Some? && item.originalPrice.value > 0.0)
    ensures Rejects(r, HasDiscount) <==> item.hasDiscount.None?
    ensures Violation(HasDiscount, Inclusion) in r <==> item.hasDiscount.None?
    ensures Rejects(r, DiscountPercentage) <==>
      !(item.discountPercentage.Some? && IsWhole(item.discountPercentage.value)
        && item.discountPercentage.value < 100.0)
    ensures r == [] <==> Valid(item)
  {
    var a, b, c := PriceViolations(item.originalPrice), FlagViolations(item.hasDiscount),
                   PercentageViolations(item.discountPercentage);
    var r := a + b + c;
    assert forall i :: 0 <= i < |a| ==> r[i] == a[i];
    assert forall i :: |a| <= i < |a| + |b| ==> r[i] == b[i - |a|];
    assert forall i :: |a| + |b| <= i < |r| ==> r[i] == c[i - |a| - |b|];
    assert a != [] ==> r[0] == a[0];
    assert b != [] ==> r[|a|] == b[0];
    assert c != [] ==> r[|a| + |b|] == c[0];
    r
  }

  /** A nil `has_discount` is refused with the message "is not a boolean value". */
  lemma AbsentFlagMessage(item: Item)
    requires item.hasDiscount.None?
    ensures Validate(item) != []
    ensures exists v :: v in Validate(item) && v.field == HasDiscount
                          && Message(v.rule) == "is not a boolean value"
  {
    assert Violation(HasDiscount, Inclusion) in Validate(item);
  }

  /**
   * The bounds of each rule: 99 passes and 100 fails, a negative percentage
   * passes, a price of 0.01 passes and a price of 0 fails.
   */
  lemma ValidationBoundaries()
    ensures Validate(Item(Some(100.0), Some(true), Some(99.0))) == []
    ensures Validate(Item(Some(100.0), Some(true), Some(100.0)))
            == [Violation(DiscountPercentage, LessThan)]
    ensures Validate(Item(Some(100.0), Some(true), Some(-30.0))) == []
    ensures Validate(Item(Some(0.01), Some(false), Some(0.0))) == []
    ensures Validate(Item(Some(0.0), Some(false), Some(0.0)))
            == [Violation(OriginalPrice, GreaterThan)]
    ensures Validate(Item(Some(100.0), Some(true), Some(12.5)))
            == [Violation(DiscountPercentage, NotAnInteger)]
  {
    assert IsWhole(99.0) && IsWhole(100.0) && IsWhole(-30.0) && IsWhole(0.0);
    assert !IsWhole(12.5);
  }

  // ---------------------------------------------------------------------------
  // Prices
  // ---------------------------------------------------------------------------

  /** The integer column `discount_percentage` as read back: the raw value cast to an integer. */
  function StoredPercentage(item: Item): (r: Option<int>)
    ensures r.Some? <==> item.discountPercentage.Some?
    ensures r.Some? && IsWhole(item.discountPercentage.value) ==>
      r.value as real == item.discountPercentage.value
  {
    match item.discountPercentage
    case None => None
    case Some(p) => Some(TruncateToInt(p))
  }

  /**
   * The discount formula `price - price * percentage / 100`, unrounded; `price`
   * and `apply_discount` each write it out and round it.
   */
  function Discounted(price: real, percentage: real): (r: real)
    ensures r == price * (100.0 - percentage) / 100.0
  {
    price - price * percentage / 100.0
  }

  /**
   * `apply_discount(price, percentage)`: the price less `percentage` per cent of
   * it, rounded to the nearest cent (see `ApplyDiscountNearest`).
   */
  function ApplyDiscount(price: real, percentage: int): (r: real)
    ensures IsCents(r)
  {
    Round2(Discounted(price, percentage as real))
  }

  /**
   * The discounted price is the cent nearest the exact value
   * `price * (100 - percentage) / 100`, a tie going away from zero; no other cent is.
   */
  lemma ApplyDiscountNearest(price: real, percentage: int, c: real)
    requires IsCents(c)
    ensures var exact := price * (100 - percentage) as real / 100.0;
      && (exact >= 0.0 ==> exact - 0.005 < ApplyDiscount(price, percentage) <= exact + 0.005)
      && (exact < 0.0 ==> exact - 0.005 <= ApplyDiscount(price, percentage) < exact + 0.005)
      && (ApplyDiscount(price, percentage) == c <==>
            (exact >= 0.0 ==> exact - 0.005 < c <= exact + 0.005)
            && (exact < 0.0 ==> exact - 0.005 <= c < exact + 0.005))
  {
    var exact := price * (100 - percentage) as real / 100.0;
    assert Discounted(price, percentage as real) == exact;
    if (exact >= 0.0 ==> exact - 0.005 < c <= exact + 0.005)
       && (exact < 0.0 ==> exact - 0.005 <= c < exact + 0.005) {
      Round2Unique(exact, c);
    }
  }

  /** The percentage `price` reads: `discount_percentage.to_f`, so nil reads as 0. */
  function EffectivePercentage(item: Item): (r: int)
    ensures item.discountPercentage.None? ==> r == 0
    ensures item.discountPercentage.Some? ==> Some(r) == StoredPercentage(item)
  {
    match StoredPercentage(item)
    case None => 0
    case Some(p) => p
  }

  /**
   * `price`: the effective price of one item. Without a discount it is the
   * original price as stored; with one it is the discount formula of
   * `ApplyDiscount` on the item's own fields. None when there is no original price.
   */
  function Price(item: Item): (r: Option<real>)
    ensures item.hasDiscount != Some(true) ==> r == item.originalPrice
    ensures item.hasDiscount == Some(true) ==>
      (r.Some? <==> item.originalPrice.Some?) && (r.Some? ==> IsCents(r.value))
  {
    if item.hasDiscount == Some(true) then
      match item.originalPrice
      case None => None
      case Some(op) =>
        Some(Round2(Discounted(op, EffectivePercentage(item) as real)))
    else
      item.originalPrice
  }

  /**
   * A discounted item with a price costs what `apply_discount` gives on its own
   * price and stored percentage, a nil percentage counting as 0.
   */
  lemma PriceIsApplyDiscount(item: Item)
    requires item.hasDiscount == Some(true) && item.originalPrice.Some?
    ensures Price(item) == Some(ApplyDiscount(item.originalPrice.value, EffectivePercentage(item)))
  {
  }

  /**
   * Discounting by a non-negative percentage never raises the rounded price,
   * a non-positive one never lowers it, and no percentage up to 100 makes a
   * non-negative price negative.
   */
  lemma ApplyDiscountBounds(price: real, percentage: int)
    requires price >= 0.0
    ensures percentage == 0 ==> ApplyDiscount(price, percentage) == Round2(price)
    ensures 0 <= percentage ==> ApplyDiscount(price, percentage) <= Round2(price)
    ensures percentage <= 0 ==> Round2(price) <= ApplyDiscount(price, percentage)
    ensures percentage <= 100 ==> 0.0 <= ApplyDiscount(price, percentage)
  {
    var exact := Discounted(price, percentage as real);
    if 0 <= percentage {
      assert price * percentage as real >= 0.0;
      Round2Monotone(exact, price);
    }
    if percentage <= 0 {
      assert price * percentage as real <= 0.0;
      Round2Monotone(price, exact);
    }
    if percentage <= 100 {
      assert price * (100 - percentage) as real >= 0.0;
      Round2Monotone(0.0, exact);
      Round2OfCents(0.0);
    }
  }

  /**
   * The price of a valid item: the original price when it has no discount, and
   * otherwise `ApplyDiscount` on its original price and percentage, which is
   * never negative; a discount of at least 0 never exceeds the rounded original.
   */
  lemma PriceOfValid(item: Item)
    requires Valid(item)
    ensures Price(item).Some?
    ensures item.hasDiscount == Some(false) ==> Price(item).value == item.originalPrice.value
    ensures item.hasDiscount == Some(true) ==>
      && Price(item).value == ApplyDiscount(item.originalPrice.value,
                                            TruncateToInt(item.discountPercentage.value))
      && TruncateToInt(item.discountPercentage.value) as real == item.discountPercentage.value
      && 0.0 <= Price(item).value
      && (item.discountPercentage.value >= 0.0 ==>
            Price(item).value <= Round2(item.originalPrice.value))
  {
    if item.hasDiscount == Some(true) {
      ApplyDiscountBounds(item.originalPrice.value, TruncateToInt(item.discountPercentage.value));
    }
  }

  /** 100.00 with 20 per cent off costs 80.00; without a discount it costs 100.00. */
  lemma PriceExamples()
    ensures Price(Item(Some(100.0), Some(true), Some(20.0))) == Some(80.0)
    ensures Price(Item(Some(100.0), Some(false), Some(20.0))) == Some(100.0)
    ensures ApplyDiscount(100.0, 20) == 80.0
  {
    assert IsCents(80.0);
    Round2OfCents(80.0);
    assert TruncateToInt(20.0) == 20;
  }

  // ---------------------------------------------------------------------------
  // Average price over the stored items
  // ---------------------------------------------------------------------------

  /** The ways `average_price` fails instead of returning an average. */
  datatype AverageError =
    | ZeroDivision  // no stored item: the final division is by a count of 0
    | NilOperand    // a discounted row with a NULL price or percentage reaches `apply_discount`, which raises

  /** A row of `pluck(:original_price, :discount_percentage)`. */
  datatype PluckedRow = PluckedRow(price: Option<real>, percentage: Option<int>)

  /** `where(has_discount: flag)`: the rows whose flag is exactly `flag`, in order; a NULL flag matches neither. */
  function Where(items: seq<Item>, flag: bool): (r: seq<Item>)
    ensures |r| <= |items|
  {
    if |items| == 0 then []
    else
      var init, last := items[..|items| - 1], items[|items| - 1];
      Where(init, flag) + (if last.hasDiscount == Some(flag) then [last] else [])
  }

  /** Every item whose flag is `flag` is among the rows `where(has_discount: flag)` returns. */
  lemma {:induction false} WhereKeeps(items: seq<Item>, flag: bool, i: int)
    requires 0 <= i < |items| && items[i].hasDiscount == Some(flag)
    ensures items[i] in Where(items, flag)
  {
    var init := items[..|items| - 1];
    if i < |items| - 1 {
      WhereKeeps(init, flag, i);
    }
  }

  /** Every row `where(has_discount: flag)` returns is a stored item whose flag is `flag`. */
  lemma {:induction false} WhereFrom(items: seq<Item>, flag: bool, j: int)
    requires 0 <= j < |Where(items, flag)|
    ensures Where(items, flag)[j] in items
    ensures Where(items, flag)[j].hasDiscount == Some(flag)
  {
    var init := items[..|items| - 1];
    if j < |Where(init, flag)| {
      WhereFrom(init, flag, j);
    }
  }

  /** `sum(:original_price)`: SQL's SUM, which skips NULL prices; 0 for no rows. */
  function SumOriginalPrice(rows: seq<Item>): (r: real)
    ensures |rows| == 0 ==> r == 0.0
  {
    if |rows| == 0 then 0.0
    else
      var last := rows[|rows| - 1];
      SumOriginalPrice(rows[..|rows| - 1]) + (match last.originalPrice case None => 0.0 case Some(x) => x)
  }

  /** `pluck(:original_price, :discount_percentage)`, one row per item, in order. */
  function Pluck(rows: seq<Item>): (r: seq<PluckedRow>)
    ensures |r| == |rows|
  {
    if |rows| == 0 then []
    else
      var last := rows[|rows| - 1];
      Pluck(rows[..|rows| - 1]) + [PluckedRow(last.originalPrice, StoredPercentage(last))]
  }

  /** Row `j` of the projection holds the price and stored percentage of item `j`. */
  lemma {:induction false} PluckAt(rows: seq<Item>, j: int)
    requires 0 <= j < |rows|
    ensures Pluck(rows)[j] == PluckedRow(rows[j].originalPrice, StoredPercentage(rows[j]))
  {
    var init := rows[..|rows| - 1];
    if j < |init| {
      PluckAt(init, j);
    }
  }

  /**
   * The running sum of `apply_discount` over plucked rows, in order. It raises
   * exactly when some row has a NULL price or percentage.
   */
  function DiscountedSum(rows: seq<PluckedRow>): (r: Result<real, AverageError>)
    ensures r.Ok? <==> forall i :: 0 <= i < |rows| ==> rows[i].price.Some? && rows[i].percentage.Some?
    ensures r.Err? ==> r.error == NilOperand
  {
    if |rows| == 0 then Ok(0.0)
    else
      var init, last := rows[..|rows| - 1], rows[|rows| - 1];
      assert forall i :: 0 <= i < |init| ==> init[i] == rows[i];
      match DiscountedSum(init)
      case Err(e) => Err(e)
      case Ok(s) =>
        if last.price.None? || last.percentage.None? then Err(NilOperand)
        else Ok(s + ApplyDiscount(last.price.value, last.percentage.value))
  }

  /** `total / count`, the final division of `average_price`. */
  function Mean(total: real, count: nat): (r: real)
    requires count > 0
  {
    total / count as real
  }

  /** The mean is the share of the total that, counted `count` times, gives the total back. */
  lemma MeanTimesCount(total: real, count: nat)
    requires count > 0
    ensures Mean(total, count) * count as real == total
    ensures total >= 0.0 ==> Mean(total, count) >= 0.0
  {
  }

  /**
   * What `average_price` returns on the stored items `items`: the sum of the
   * undiscounted prices plus the sum of the discounted ones, each discounted and
   * rounded on its own, divided by the number of items. Dividing by a count of 0
   * raises ZeroDivision, and only that does.
   */
  function AverageOf(items: seq<Item>): (r: Result<real, AverageError>)
    ensures r == Err(ZeroDivision) <==> |items| == 0
  {
    var sumDiscounted := DiscountedSum(Pluck(Where(items, true)));
    if sumDiscounted.Err? then sumDiscounted
    else if |items| == 0 then Err(ZeroDivision)
    else Ok(Mean(SumOriginalPrice(Where(items, false)) + sumDiscounted.value, |items|))
  }

  /** A discounted item that would reach `apply_discount` with a nil operand. */
  predicate NilDiscounted(item: Item) {
    item.hasDiscount == Some(true) && (item.originalPrice.None? || item.discountPercentage.None?)
  }

  /** `average_price` raises on a nil operand exactly when some discounted item lacks a price or a percentage. */
  lemma AverageRaisesOnNil(items: seq<Item>)
    ensures AverageOf(items) == Err(NilOperand) <==>
      exists i :: 0 <= i < |items| && NilDiscounted(items[i])
  {
    var w := Where(items, true);
    var rows := Pluck(w);
    if exists i :: 0 <= i < |items| && NilDiscounted(items[i]) {
      var i :| 0 <= i < |items| && NilDiscounted(items[i]);
      WhereKeeps(items, true, i);
      var j :| 0 <= j < |w| && w[j] == items[i];
      PluckAt(w, j);
      assert !(rows[j].price.Some? && rows[j].percentage.Some?);
    }
    if AverageOf(items) == Err(NilOperand) {
      var j :| 0 <= j < |rows| && !(rows[j].price.Some? && rows[j].percentage.Some?);
      WhereFrom(items, true, j);
      PluckAt(w, j);
      var i :| 0 <= i < |items| && items[i] == w[j];
      assert NilDiscounted(items[i]);
    }
  }

  /**
   * `average_price`: adds the undiscounted prices with one aggregate sum, then
   * walks the plucked discounted rows adding each discounted price to an
   * accumulator, and divides the total by the number of items.
   */
  method AveragePrice(items: seq<Item>) returns (r: Result<real, AverageError>)
    ensures r == AverageOf(items)
  {
    var sumDiscountedItems := 0.0;
    var sumNonDiscountedItems := SumOriginalPrice(Where(items, false));
    var discountedItems := Pluck(Where(items, true));
    var i := 0;
    while i < |discountedItems|
      invariant 0 <= i <= |discountedItems|
      invariant DiscountedSum(discountedItems[..i]) == Ok(sumDiscountedItems)
    {
      var row := discountedItems[i];
      assert discountedItems[..i + 1][..i] == discountedItems[..i];
      if row.price.None? || row.percentage.None? {
        assert DiscountedSum(discountedItems).Err?;
        return Err(NilOperand);
      }
      sumDiscountedItems := sumDiscountedItems + ApplyDiscount(row.price.value, row.percentage.value);
      i := i + 1;
    }
    assert discountedItems[..i] == discountedItems;
    if |items| == 0 {
      return Err(ZeroDivision);
    }
    r := Ok(Mean(sumNonDiscountedItems + sumDiscountedItems, |items|));
  }

  /**
   * The two `where` groups together never hold more than the stored items, and
   * hold every item exactly when every item's flag is true or false, as
   * validation guarantees.
   */
  lemma {:induction false} GroupsCover(items: seq<Item>)
    ensures |Where(items, true)| + |Where(items, false)| <= |items|
    ensures |Where(items, true)| + |Where(items, false)| == |items| <==>
      forall i :: 0 <= i < |items| ==> items[i].hasDiscount.Some?
  {
    if |items| > 0 {
      var init, last := items[..|items| - 1], items[|items| - 1];
      GroupsCover(init);
      assert forall i :: 0 <= i < |init| ==> init[i] == items[i];
      match last.hasDiscount
      case Some(true) =>
        assert Where(items, true) == Where(init, true) + [last];
        assert Where(items, false) == Where(init, false);
        AllFlagsSnoc(init, last);
      case Some(false) =>
        assert Where(items, true) == Where(init, true);
        assert Where(items, false) == Where(init, false) + [last];
        AllFlagsSnoc(init, last);
      case None =>
        assert Where(items, true) == Where(init, true);
        assert Where(items, false) == Where(init, false);
        assert items[|items| - 1].hasDiscount.None?;
    }
  }

  /** Appending an item with a flag does not change whether every item has one. */
  lemma AllFlagsSnoc(init: seq<Item>, last: Item)
    requires last.hasDiscount.Some?
    ensures (forall i :: 0 <= i < |init + [last]| ==> (init + [last])[i].hasDiscount.Some?) <==>
            (forall i :: 0 <= i < |init| ==> init[i].hasDiscount.Some?)
  {
    assert forall i :: 0 <= i < |init| ==> (init + [last])[i] == init[i];
  }

  /** `all.map(:price).sum`: the sum of the effective prices of valid items. */
  function TotalPrice(items: seq<Item>): (r: real)
    requires forall i :: 0 <= i < |items| ==> Valid(items[i])
  {
    if |items| == 0 then 0.0
    else
      var last := items[|items| - 1];
      PriceOfValid(last);
      TotalPrice(items[..|items| - 1]) + Price(last).value
  }

  /** Plucking one more row appends its projection. */
  lemma PluckSnoc(rows: seq<Item>, x: Item)
    ensures Pluck(rows + [x]) == Pluck(rows) + [PluckedRow(x.originalPrice, StoredPercentage(x))]
  {
    assert (rows + [x])[..|rows|] == rows;
  }

  /** Summing one more row adds its price, or nothing when the price is NULL. */
  lemma SumOriginalPriceSnoc(rows: seq<Item>, x: Item)
    ensures x.originalPrice.Some? ==>
      SumOriginalPrice(rows + [x]) == SumOriginalPrice(rows) + x.originalPrice.value
    ensures x.originalPrice.None? ==> SumOriginalPrice(rows + [x]) == SumOriginalPrice(rows)
  {
    assert (rows + [x])[..|rows|] == rows;
  }

  /** One more complete plucked row adds its discounted price to the running sum. */
  lemma DiscountedSumSnoc(rows: seq<PluckedRow>, row: PluckedRow)
    requires DiscountedSum(rows).Ok? && row.price.Some? && row.percentage.Some?
    ensures DiscountedSum(rows + [row]) ==
      Ok(DiscountedSum(rows).value + ApplyDiscount(row.price.value, row.percentage.value))
  {
    assert (rows + [row])[..|rows|] == rows;
  }

  /** For valid items, the two aggregates together sum the effective prices. */
  lemma {:induction false} SumsAreTotalPrice(items: seq<Item>)
    requires forall i :: 0 <= i < |items| ==> Valid(items[i])
    ensures DiscountedSum(Pluck(Where(items, true))).Ok?
    ensures SumOriginalPrice(Where(items, false)) + DiscountedSum(Pluck(Where(items, true))).value
            == TotalPrice(items)
  {
    if |items| > 0 {
      var init, last := items[..|items| - 1], items[|items| - 1];
      SumsAreTotalPrice(init);
      PriceOfValid(last);
      var t, f := Where(init, true), Where(init, false);
      assert TotalPrice(items) == TotalPrice(init) + Price(last).value;
      if last.hasDiscount == Some(true) {
        assert Where(items, true) == t + [last];
        assert Where(items, false) == f;
        PluckSnoc(t, last);
        DiscountedSumSnoc(Pluck(t), PluckedRow(last.originalPrice, StoredPercentage(last)));
      } else {
        assert Valid(items[|items| - 1]);
        assert last.hasDiscount.Some?;
        assert !last.hasDiscount.value;
        assert last.hasDiscount == Some(false);
        assert Where(items, true) == t;
        assert Where(items, false) == f + [last];
        SumOriginalPriceSnoc(f, last);
      }
    }
  }

  /**
   * On valid items `average_price` is the mean of their effective prices, the
   * `all.map(:price).sum / count` it stands for.
   */
  lemma AverageIsMeanPrice(items: seq<Item>)
    requires forall i :: 0 <= i < |items| ==> Valid(items[i])
    requires |items| > 0
    ensures AverageOf(items) == Ok(Mean(TotalPrice(items), |items|))
  {
    SumsAreTotalPrice(items);
    var total := SumOriginalPrice(Where(items, false)) + DiscountedSum(Pluck(Where(items, true))).value;
    assert total == TotalPrice(items);
    assert AverageOf(items) == Ok(Mean(total, |items|));
  }

  /** Valid items never sum to a negative total. */
  lemma {:induction false} TotalPriceNonNegative(items: seq<Item>)
    requires forall i :: 0 <= i < |items| ==> Valid(items[i])
    ensures TotalPrice(items) >= 0.0
  {
    if |items| > 0 {
      var last := items[|items| - 1];
      TotalPriceNonNegative(items[..|items| - 1]);
      PriceOfValid(last);
      assert TotalPrice(items) == TotalPrice(items[..|items| - 1]) + Price(last).value;
    }
  }

  /** On a non-empty table of valid items `average_price` succeeds and is never negative. */
  lemma AverageOfValidNonNegative(items: seq<Item>)
    requires forall i :: 0 <= i < |items| ==> Valid(items[i])
    requires |items| > 0
    ensures AverageOf(items).Ok? && AverageOf(items).value >= 0.0
  {
    AverageIsMeanPrice(items);
    TotalPriceNonNegative(items);
    MeanTimesCount(TotalPrice(items), |items|);
  }

  /** One item of 100.00 at 20 per cent off and one of 100.00 average to 90.00. */
  lemma AverageExample()
    ensures AverageOf([Item(Some(100.0), Some(true), Some(20.0)),
                       Item(Some(100.0), Some(false), Some(0.0))]) == Ok(90.0)
  {
    var items := [Item(Some(100.0), Some(true), Some(20.0)), Item(Some(100.0), Some(false), Some(0.0))];
    assert IsWhole(20.0) && IsWhole(0.0);
    AverageIsMeanPrice(items);
    PriceExamples();
    assert items[..1] == [items[0]];
    assert TotalPrice(items) == 180.0;
  }

  /**
   * Each discounted price is rounded before it is added: two items of 0.01 at
   * 50 per cent off each cost 0.01, so they average 0.01 and not the 0.005 that
   * rounding the total once would give.
   */
  lemma RoundingIsPerItem()
    ensures AverageOf([Item(Some(0.01), Some(true), Some(50.0)),
                       Item(Some(0.01), Some(true), Some(50.0))]) == Ok(0.01)
  {
    var x := Item(Some(0.01), Some(true), Some(50.0));
    assert TruncateToInt(50.0) == 50 by { assert IsWhole(50.0); }
    assert Discounted(0.01, 50.0) == 0.005;
    assert IsCents(0.01);
    Round2Unique(0.005, 0.01);
    assert ApplyDiscount(0.01, 50) == 0.01;
    PriceIsApplyDiscount(x);
    var items := [x, x];
    assert items[..1] == [x];
    assert TotalPrice([x]) == 0.01;
    assert TotalPrice(items) == 0.02;
    AverageIsMeanPrice(items);
    assert Mean(0.02, 2) == 0.01;
  }
}
