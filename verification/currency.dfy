/** The currency whitelist of `util/currency.go`. */
module Currency {
  import Ascii

  const USD: string := "USD"
  const ILS: string := "ILS"
  const EUR: string := "EUR"
  const CAD: string := "CAD"

  /** The four supported currency codes, as a set. */
  const Supported: set<string> := {USD, ILS, EUR, CAD}

  /** The `switch` of `IsSupportedCurrency`: one case listing the four constants, a default of false. */
  function IsSupportedCurrency(currency: string): (ok: bool)
    ensures ok <==> currency in Supported
    ensures ok ==> |currency| == 3 && forall i :: 0 <= i < 3 ==> Ascii.IsUpper(currency[i])
  {
    match currency
    case "USD" => true
    case "ILS" => true
    case "EUR" => true
    case "CAD" => true
    case _ => false
  }

  /** Matching is case-sensitive: the lower-case spelling of a supported code is never supported. */
  lemma LowerCaseCodeRejected(currency: string)
    requires IsSupportedCurrency(currency)
    ensures currency != Ascii.LowerString(currency)
    ensures !IsSupportedCurrency(Ascii.LowerString(currency))
  {
    var l := Ascii.LowerString(currency);
    assert Ascii.IsLower(l[0]);
  }

  /** Examples: the four codes pass; a lower-case spelling, the empty string and an unlisted code ("GBP") do not. */
  lemma CurrencyExamples()
    ensures IsSupportedCurrency("USD") && IsSupportedCurrency("ILS")
    ensures IsSupportedCurrency("EUR") && IsSupportedCurrency("CAD")
    ensures !IsSupportedCurrency("usd") && !IsSupportedCurrency("") && !IsSupportedCurrency("GBP")
  {
  }
}
