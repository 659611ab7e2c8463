/**
 * The price columns of a game (`Jogo`) and the three places in
 * `JogosController` that derive the current price `Preco` from the original
 * price `PrecoOriginal` and the discount percentage `Desconto`.
 *
 * .NET `decimal` is exact base-ten arithmetic; it is modelled as `real`,
 * which is exact as well. `AplicarDesconto` divides its `int` parameter by
 * 100, which is C#'s truncating integer division: 0 for every percentage
 * from 0 to 99 and 1 for 100. The column `Jogo.Desconto`, which `PostJogo`
 * and `PutJogo` divide the same way, is assumed to be an `int` as well; with
 * a `decimal` column their division would be exact instead.
 */
module Pricing {
  import opened Guids

  type Int32 = x: int | -0x8000_0000 <= x < 0x8000_0000

  datatype Option<T> = None | Some(value: T)

  /**
   * The columns of a `Jogo` row that the controller reads or writes.
   * `PrecoOriginal` is nullable (`decimal?`), hence the `Option`.
   */
  datatype Jogo = Jogo(jogoId: Guid, preco: real, precoOriginal: Option<real>, desconto: Int32)

  /** C#'s `d / 100` on `int`: the quotient truncated toward zero. */
  function PercentQuotient(d: int): (q: int)
    ensures d >= 0 ==> 100 * q <= d < 100 * q + 100
    ensures d < 0 ==> 100 * q - 100 < d <= 100 * q
  {
    if d >= 0 then d / 100 else -((-d) / 100)
  }

  /** `price - price * (percent / 100)`, the formula the controller writes out three times. */
  function Discounted(price: real, percent: int): (r: real)
    ensures 0 <= percent < 100 ==> r == price
    ensures 100 <= percent < 200 ==> r == 0.0
    ensures r == price * (1.0 - PercentQuotient(percent) as real)
  {
    var q := PercentQuotient(percent);
    assert 0 <= percent < 100 ==> q == 0;
    assert 100 <= percent < 200 ==> q == 1;
    price - price * (q as real)
  }

  /**
   * The price a row holds when it was derived from its original price and
   * its discount the way the controller derives it: reduced only for a
   * positive discount.
   */
  predicate PriceConsistent(g: Jogo) {
    g.precoOriginal.Some?
    && g.preco == (if g.desconto > 0 then Discounted(g.precoOriginal.value, g.desconto) else g.precoOriginal.value)
  }

  /**
   * What `PostJogo` and `PutJogo` do to the submitted game before saving it:
   * the submitted `Preco` becomes `PrecoOriginal`, and a positive `Desconto`
   * reduces `Preco`. Nothing range-checks `Desconto` here.
   */
  function Normalise(g: Jogo): (r: Jogo)
    ensures r.jogoId == g.jogoId && r.desconto == g.desconto
    ensures r.precoOriginal == Some(g.preco)
    ensures g.desconto < 100 ==> r.preco == g.preco
    ensures 100 <= g.desconto < 200 ==> r.preco == 0.0
    ensures PriceConsistent(r)
  {
    var withOriginal := g.(precoOriginal := Some(g.preco));
    if withOriginal.desconto > 0 then
      withOriginal.(preco := Discounted(withOriginal.preco, withOriginal.desconto))
    else
      withOriginal
  }

  /**
   * The game `AplicarDesconto` returns for an accepted percentage `d`: the
   * new discount, and the price recomputed from `PrecoOriginal` (not from the
   * current price). `None` when `PrecoOriginal` is null, where the cast to
   * `decimal` throws.
   */
  function WithDiscount(g: Jogo, d: Int32): (r: Option<Jogo>)
    ensures r.Some? <==> g.precoOriginal.Some?
    ensures r.Some? ==> r.value.jogoId == g.jogoId && r.value.precoOriginal == g.precoOriginal && r.value.desconto == d
    ensures r.Some? && 0 <= d < 100 ==> r.value.preco == g.precoOriginal.value
    ensures r.Some? && d == 100 ==> r.value.preco == 0.0
    ensures r.Some? && 0 <= d <= 100 ==> PriceConsistent(r.value)
  {
    match g.precoOriginal
    case None => None
    case Some(original) => Some(g.(desconto := d, preco := Discounted(original, d)))
  }

  /**
   * The game `RemoverDesconto` saves: no discount, and the original price as
   * the current price. `None` when `PrecoOriginal` is null.
   */
  function WithoutDiscount(g: Jogo): (r: Option<Jogo>)
    ensures r.Some? <==> g.precoOriginal.Some?
    ensures r.Some? ==> r.value.jogoId == g.jogoId && r.value.precoOriginal == g.precoOriginal
    ensures r.Some? ==> r.value.desconto == 0 && r.value.preco == g.precoOriginal.value
    ensures r.Some? ==> PriceConsistent(r.value)
  {
    match g.precoOriginal
    case None => None
    case Some(original) => Some(g.(desconto := 0, preco := original))
  }

  /** Removing the discount twice leaves the game as removing it once. */
  lemma RemoveDiscountIdempotent(g: Jogo)
    requires g.precoOriginal.Some?
    ensures WithoutDiscount(WithoutDiscount(g).value) == WithoutDiscount(g)
  {
  }

  /**
   * Applying a discount and then removing it gives the game removing it alone
   * gives: the current price back at the original price and no discount.
   */
  lemma ApplyThenRemove(g: Jogo, d: Int32)
    requires g.precoOriginal.Some?
    ensures WithoutDiscount(WithDiscount(g, d).value) == WithoutDiscount(g)
    ensures WithoutDiscount(WithDiscount(g, d).value).value.preco == g.precoOriginal.value
    ensures WithoutDiscount(WithDiscount(g, d).value).value.desconto == 0
  {
  }

  /** A zero discount is the same as no discount. */
  lemma ZeroDiscountIsRemoval(g: Jogo)
    ensures WithDiscount(g, 0) == WithoutDiscount(g)
  {
  }

  /** The result depends on the original price only: applying the same discount again changes nothing. */
  lemma ApplyDiscountIdempotent(g: Jogo, d: Int32)
    requires g.precoOriginal.Some?
    ensures WithDiscount(WithDiscount(g, d).value, d) == WithDiscount(g, d)
  {
  }

  /**
   * With integer division, every percentage from 1 to 99 takes nothing off:
   * `AplicarDesconto` sets the price to the original price, and the write
   * step keeps the submitted price. A game whose original price is 100.00
   * still costs 100.00 with a 25% discount.
   */
  lemma PartialDiscountHasNoEffect(g: Jogo, d: Int32)
    requires g.precoOriginal.Some? && 0 < d < 100
    ensures WithDiscount(g, d).value.preco == g.precoOriginal.value
    ensures Normalise(g.(desconto := d)).preco == g.preco
  {
  }

  lemma TwentyFivePercentOfHundred(g: Jogo)
    requires g.precoOriginal == Some(100.0)
    ensures WithDiscount(g, 25).value.preco == 100.0
    ensures WithDiscount(g, 0).value.preco == 100.0
  {
  }

  /**
   * Submitting the game a write returned back to `PutJogo` is harmless while
   * the discount is below 100, because the price was never reduced.
   */
  lemma ResubmitBelowHundredIsStable(g: Jogo)
    requires g.desconto < 100
    ensures Normalise(Normalise(g)) == Normalise(g)
  {
  }

  /**
   * At a 100% discount the stored price is 0; submitting that game back makes
   * 0 the original price, and the real original price is lost.
   */
  lemma ResubmitAtHundredLosesOriginal(g: Jogo)
    requires g.desconto == 100 && g.preco != 0.0
    ensures Normalise(g).precoOriginal == Some(g.preco)
    ensures Normalise(Normalise(g)).precoOriginal == Some(0.0)
  {
  }

  /** `PostJogo` and `PutJogo` accept any discount: from 200% on, a positive price turns negative. */
  lemma LargeDiscountMakesPriceNegative(g: Jogo)
    requires g.preco > 0.0 && g.desconto >= 200
    ensures Normalise(g).preco < 0.0
  {
    var q := PercentQuotient(g.desconto);
    assert q >= 2;
    assert Normalise(g).preco == g.preco - g.preco * (q as real);
    ProductNonNegative(g.preco, (q - 2) as real);
    assert g.preco * (q as real) == g.preco * 2.0 + g.preco * ((q - 2) as real);
  }

  /**
   * The write step with the range check `AplicarDesconto` applies: a discount
   * outside 0..100 is refused, so a non-negative price stays between 0 and
   * itself.
   */
  function NormaliseChecked(g: Jogo): (r: Option<Jogo>)
    ensures r.Some? <==> 0 <= g.desconto <= 100
    ensures r.Some? ==> r.value == Normalise(g)
    ensures r.Some? && g.preco >= 0.0 ==> 0.0 <= r.value.preco <= g.preco
  {
    if 0 <= g.desconto <= 100 then Some(Normalise(g)) else None
  }

  /**
   * The discount the formula evidently means: `percent` per cent off the
   * price, the percentage divided exactly rather than by integer division.
   */
  function IntendedDiscounted(price: real, percent: int): (r: real)
    requires 0 <= percent <= 100
    ensures price >= 0.0 ==> 0.0 <= r <= price
  {
    var share := percent as real / 100.0;
    ShareBounds(price, share);
    price - price * share
  }

  lemma ShareBounds(price: real, share: real)
    requires 0.0 <= share <= 1.0
    ensures price >= 0.0 ==> 0.0 <= price - price * share <= price
  {
    if price >= 0.0 {
      ProductNonNegative(price, share);
      ProductNonNegative(price, 1.0 - share);
      assert price - price * share == price * (1.0 - share);
    }
  }

  /** At 0% and at 100% the intended discount and the written one agree. */
  lemma IntendedAgreesAtEnds(price: real)
    ensures IntendedDiscounted(price, 0) == Discounted(price, 0) == price
    ensures IntendedDiscounted(price, 100) == Discounted(price, 100) == 0.0
  {
  }

  /** For every percentage strictly between, the written formula leaves a positive price too high. */
  lemma PartialDiscountDropped(price: real, percent: int)
    requires price > 0.0 && 0 < percent < 100
    ensures IntendedDiscounted(price, percent) < Discounted(price, percent) == price
  {
    var share := percent as real / 100.0;
    ProductPositive(price, share);
  }

  /** The example: 25% off 100.00 is meant to be 75.00; the written formula gives 100.00. */
  lemma IntendedTwentyFivePercentOfHundred()
    ensures IntendedDiscounted(100.0, 25) == 75.0
    ensures Discounted(100.0, 25) == 100.0
  {
  }

  lemma ProductPositive(x: real, y: real)
    requires x > 0.0 && y > 0.0
    ensures x * y > 0.0
  {
  }

  lemma ProductNonNegative(x: real, y: real)
    requires x >= 0.0 && y >= 0.0
    ensures x * y >= 0.0
  {
  }
}
