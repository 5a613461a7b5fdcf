# Item prices and discounts

This project models the `Item` record of a small Rails shop in Dafny. An item has an original
price, a discount flag and a discount percentage. The model covers four parts of the record:

- the validation rules an item must pass before it is stored;
- `price`, the effective price of one item: the original price, or the discounted price rounded
  to the cent;
- `apply_discount`, the same discount formula as a free-standing class method;
- `average_price`, which sums the undiscounted prices, then walks the discounted rows adding each
  rounded discounted price, and divides by the number of stored items.

Prices are exact reals. Ruby's `Float#round(2)` is `Rounding.Round2`: the nearest hundredth, with a
tie going away from zero. An item keeps its attributes as assigned, each possibly nil
(`Option`). The integer column `discount_percentage` is read back through
`Rounding.TruncateToInt`, the truncating cast ActiveModel applies to integer attributes. The
stored table is a `seq<Item>`:

- `where(has_discount: flag)` is a filter that a NULL flag never matches;
- `sum(:original_price)` is a fold that skips NULL prices;
- `pluck` is a projection;
- `count` is the sequence's length.

`average_price` returns a `Result`. It is `Err(NilOperand)` when a discounted row reaches
`apply_discount` with a nil operand, where Ruby raises. A nil percentage multiplied into a Float
price raises `TypeError`. A nil price would raise `NoMethodError`, but the schema declares
`original_price` NOT NULL, so in practice only the percentage can be nil. It is
`Err(ZeroDivision)` when the table is empty, where the final division is by a count of 0. Ruby
does not raise there; see `Items.AverageOf` under "## Left out".

Files:

- `wrappers.dfy`: `Option` and `Result`.
- `rounding.dfy`: rounding to the cent and the integer cast.
- `item.dfy`: the record, its validation, its prices and the average.

## Model

| member | source | states |
|---|---|---|
| Items.PriceViolations | app/models/item.rb:25-27 | The price rule reports nothing exactly when the price is present and greater than 0. A nil price is reported as blank and not a number. A price of 0 or less is reported as not greater than 0. Every report names the price field. |
| Items.FlagViolations | app/models/item.rb:28-30 | The flag rule reports nothing exactly when the flag is true or false. |
| Items.PercentageViolations | app/models/item.rb:31-34 | The raw value stands for an Integer or an integer string. The percentage rule reports nothing exactly when the percentage is present, a whole number and below 100. There is no lower bound. A nil percentage is reported as blank and not a number. A fraction is reported only as not an integer. A whole number of 100 or more is reported as not less than 100. |
| Items.Validate | app/models/item.rb:25-34 | Each field is rejected exactly when its own rule fails, and an absent flag is reported as an inclusion failure. An item has no violation exactly when it is `Valid`. |
| Items.Message | app/models/item.rb:30 | The custom message "is not a boolean value" is reported for the inclusion rule and for no other rule. |
| Items.AbsentFlagMessage | app/models/item.rb:28-30 | An item with a nil `has_discount` is invalid, and a violation on that field carries the message "is not a boolean value". |
| Items.ValidationBoundaries | app/models/item.rb:25-34 | 99 per cent passes and 100 fails; -30 per cent passes; a price of 0.01 passes and 0 fails; 12.5 per cent fails as not an integer. |
| Items.StoredPercentage | app/models/item.rb:8 | The integer column is nil exactly when the raw value is nil, and reads back any whole value unchanged. It is the value `price` (line 38) and `pluck` (line 51) read. |
| Items.Price | app/models/item.rb:36-42 | Without a discount, the price is the original price unchanged. With a discount, the price exists exactly when the original price does, and is a whole number of cents. |
| Items.EffectivePercentage | app/models/item.rb:38 | `discount_percentage.to_f`: a nil percentage reads as 0; otherwise it is the stored integer. |
| Items.Discounted | app/models/item.rb:38 | The formula of `price` and of `apply_discount` (line 58), `price - price * p / 100`, equals `price * (100 - p) / 100`. |
| Items.ApplyDiscount | app/models/item.rb:57-59 | The result of `apply_discount` is a whole number of cents. |
| Items.ApplyDiscountNearest | app/models/item.rb:57-59 | `apply_discount` lies in the rounding window of the exact value `price * (100 - percentage) / 100`, and a cent is the result exactly when it lies in that window. |
| Items.PriceIsApplyDiscount | app/models/item.rb:57-58 | A discounted item with a price costs `apply_discount` of its original price and of the percentage `price` (line 38) reads. A nil percentage counts as 0 here, although `apply_discount` itself raises on nil, as `AverageRaisesOnNil` models. |
| Items.ApplyDiscountBounds | app/models/item.rb:57-59 | For a non-negative price: 0 per cent gives the rounded price; a non-negative percentage never raises it; a non-positive percentage never lowers it; a percentage up to 100 never makes it negative. |
| Items.PriceOfValid | app/models/item.rb:25-42 | A valid item always has a price. Without a discount, that is its original price. With one, it is `apply_discount` of its original price and percentage, which the cast leaves unchanged; the price is at least 0, and no more than the rounded original when the percentage is non-negative. |
| Items.PriceExamples | app/models/item.rb:36-42 | 100.00 at 20 per cent costs 80.00; 100.00 without a discount costs 100.00; `apply_discount(100.00, 20)` is 80.00. |
| Items.Where | app/models/item.rb:49-51 | `where(has_discount: flag)` never returns more rows than are stored. Its element facts are in `WhereKeeps` and `WhereFrom`. |
| Items.WhereKeeps | app/models/item.rb:49-51 | Every item whose flag equals the queried flag is among the rows `where` returns. |
| Items.WhereFrom | app/models/item.rb:49-51 | Every row `where` returns is a stored item carrying the queried flag. |
| Items.Pluck | app/models/item.rb:51 | `pluck` returns one row per item. |
| Items.PluckAt | app/models/item.rb:51 | Row j of `pluck` holds item j's original price and stored percentage. |
| Items.SumOriginalPrice | app/models/item.rb:49 | `sum(:original_price)` over no rows is 0. `SumOriginalPriceSnoc` adds that each further row adds its price, and nothing when the price is NULL. |
| Items.SumOriginalPriceSnoc | app/models/item.rb:49 | One more row adds its original price to SQL's SUM, or nothing when that price is NULL. |
| Items.DiscountedSum | app/models/item.rb:51-52 | The running sum of `apply_discount` over the plucked rows succeeds exactly when every row has both a price and a percentage; otherwise it fails with a nil operand. |
| Items.AverageOf | app/models/item.rb:44-55 | `average_price` fails with the division error exactly when there is no stored item. |
| Items.MeanTimesCount | app/models/item.rb:54 | `Mean`, the final `/ count`, is the share that, multiplied by the count, gives the total back; a non-negative total has a non-negative mean. |
| Items.AverageRaisesOnNil | app/models/item.rb:49-52 | `average_price` raises on a nil operand exactly when some discounted item lacks a price or a percentage. |
| Items.AveragePrice | app/models/item.rb:44-55 | The loop with its accumulator returns what `AverageOf` specifies: the same error, or the same average. |
| Items.GroupsCover | app/models/item.rb:49-51 | The discounted and undiscounted groups together never exceed the item count. They cover every item exactly when every flag is true or false, as the rule at lines 28-30 ensures. |
| Items.SumsAreTotalPrice | app/models/item.rb:47-52 | For valid items, the sum of `apply_discount` never raises, and the two sums add up to the sum of `price` over all items. |
| Items.AverageIsMeanPrice | app/models/item.rb:44-55 | For a non-empty table of valid items, `average_price` is the mean of `price` over all items, as `all.map(:price).sum / count` would give. |
| Items.TotalPriceNonNegative | app/models/item.rb:46 | `TotalPrice`, the `all.map(:price).sum` of valid items that the comment names, is never negative. |
| Items.AverageOfValidNonNegative | app/models/item.rb:44-55 | On a non-empty table of valid items, `average_price` succeeds and is never negative. |
| Items.AverageExample | app/models/item.rb:44-55 | One item of 100.00 at 20 per cent and one of 100.00 average to 90.00. |
| Items.RoundingIsPerItem | app/models/item.rb:51-54 | Rounding happens per item: two items of 0.01 at 50 per cent average to 0.01, not 0.005. |
| Rounding.Round2 | app/models/item.rb:38 | `round(2)`, used here and at line 58, gives a whole number of cents within half a cent of its argument, in a half-open window whose tie goes away from zero. |
| Rounding.Round2Unique | app/models/item.rb:38 | Any cent in that window is the rounded value. |
| Rounding.Round2OfCents | app/models/item.rb:38 | Rounding leaves an amount already in cents unchanged. |
| Rounding.Round2Monotone | app/models/item.rb:38 | Rounding preserves order. |
| Rounding.TruncateToInt | app/models/item.rb:8 | The cast into the integer column `discount_percentage` truncates toward zero and leaves whole values unchanged. |

## Left out

- The `categorizings` and `categories` associations and their `dependent: :destroy` (app/models/item.rb:18-23): these are persistence wiring with no logic.
- The schema columns, the `name` default and the timestamps: the model carries only the three attributes the logic reads.
- IEEE-754 doubles: prices are exact reals. Representation error and float ties near half a cent are not modelled.
- Error-message plumbing: validation yields a list of (field, rule) pairs, with messages for the rules; Rails' error objects, locales and full messages are not modelled.
- Database mechanics: the table is a `seq<Item>` in a fixed order. SQL guarantees no row order. The exact sums in this model do not depend on it, but the source's float sums can.
- Items.Price: a discounted item with a nil original price returns None. Ruby would raise `NoMethodError` there, so the model conflates that error with a nil result.
- Items.ApplyDiscount: the price is taken as a real. `apply_discount` called directly with an Integer price and an Integer percentage would use Ruby's integer division; every caller in the source passes a Float price.
- Type casting before validation: the raw percentage is a real number, so a string that is not numeric, and casting from strings in general, are not modelled.
- Items.AverageOf: on an empty table Ruby does not raise. `sum(:original_price)` over a Float column gives 0.0, so line 54 computes `0.0 / 0`, which is NaN. The model returns the explicit failure `Err(ZeroDivision)` instead, because an exact-real model has no NaN.
- Items.PercentageViolations: the raw percentage is a real that stands for an Integer or an integer string. Rails' `only_integer` check tests the value's text before the cast, so it rejects a whole Float or BigDecimal such as `20.0` as not an integer. The model cannot tell `20.0` from `20` and lets it pass; `Validate` and `Valid` inherit this.
