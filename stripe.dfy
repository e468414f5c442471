/**
 * The price-id check of lib/stripe.ts: the configured price ids, read from
 * the environment with `""` for a variable that is not set, and
 * `isValidPriceId`.  The environment is a parameter.
 */
module Stripe {
  import opened Wrappers
  import opened JsText

  /** The prefix Stripe gives every price id. */
  const PricePrefix: string := "price_"

  /** `STRIPE_PRICE_IDS` (lines 14-18). */
  datatype PriceIds = PriceIds(basic: string, professional: string, enterprise: string)

  /** `process.env.X || ""`: the variable's value, or `""` when it is not set. */
  function EnvOr(v: Option<string>): (r: string)
    ensures v.Some? ==> r == v.value
    ensures v.None? ==> r == ""
  {
    match v
    case Some(s) => s
    case None => ""
  }

  /** The price ids configured by the three environment variables. */
  function Configured(basic: Option<string>, professional: Option<string>, enterprise: Option<string>): (ids: PriceIds)
    ensures ids.basic == EnvOr(basic) && ids.professional == EnvOr(professional) && ids.enterprise == EnvOr(enterprise)
  {
    PriceIds(EnvOr(basic), EnvOr(professional), EnvOr(enterprise))
  }

  /** `Object.values(STRIPE_PRICE_IDS)`. */
  function Values(ids: PriceIds): seq<string> {
    [ids.basic, ids.professional, ids.enterprise]
  }

  /** `isValidPriceId` (lines 29-37): a configured id with the prefix, or failing that any id with the prefix. */
  predicate IsValidPriceId(ids: PriceIds, priceId: string) {
    if priceId in Values(ids) && StartsWith(priceId, PricePrefix) then true
    else StartsWith(priceId, PricePrefix)
  }

  /** Validity is the prefix test alone. */
  lemma ValidIffPrefix(ids: PriceIds, priceId: string)
    ensures IsValidPriceId(ids, priceId) <==> |priceId| >= 6 && priceId[..6] == "price_"
  {
  }

  /** The configured ids play no part: any two configurations accept the same ids. */
  lemma ConfigurationIrrelevant(ids: PriceIds, ids': PriceIds, priceId: string)
    ensures IsValidPriceId(ids, priceId) == IsValidPriceId(ids', priceId)
  {
  }

  /** The empty id is rejected, so an id left unset in the environment is never valid. */
  lemma UnsetRejected(ids: PriceIds, basic: Option<string>, professional: Option<string>, enterprise: Option<string>)
    ensures !IsValidPriceId(ids, "")
    ensures basic.None? ==> !IsValidPriceId(ids, Configured(basic, professional, enterprise).basic)
    ensures professional.None? ==> !IsValidPriceId(ids, Configured(basic, professional, enterprise).professional)
    ensures enterprise.None? ==> !IsValidPriceId(ids, Configured(basic, professional, enterprise).enterprise)
  {
  }

  /** Appending to a valid id keeps it valid. */
  lemma ValidExtends(ids: PriceIds, priceId: string, suffix: string)
    requires IsValidPriceId(ids, priceId)
    ensures IsValidPriceId(ids, priceId + suffix)
  {
    assert (priceId + suffix)[..|PricePrefix|] == priceId[..|PricePrefix|];
  }
}
