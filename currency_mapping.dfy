/** The static table from a country name to its currency (app/utils/currencyMapping.ts). */
module CurrencyMapping {

  /** The ISO 4217 code and the display symbol of one currency. */
  datatype Currency = Currency(code: string, symbol: string)

  /** `currencyMapping`. The symbols of Thailand, Vietnam and the Philippines are
      U+0E3F (baht), U+20AB (dong) and U+20B1 (peso). */
  const CurrencyTable: map<string, Currency> := map[
    "Singapore" := Currency("SGD", "S$"),
    "Malaysia" := Currency("MYR", "RM"),
    "Indonesia" := Currency("IDR", "Rp"),
    "Thailand" := Currency("THB", "\U{0E3F}"),
    "Vietnam" := Currency("VND", "\U{20AB}"),
    "Philippines" := Currency("PHP", "\U{20B1}")
  ]

  /** The countries the search form offers as home and visiting country
      (`countries` in app/components/SearchInterface.tsx). */
  const SelectableCountries: seq<string> :=
    ["Singapore", "Malaysia", "Indonesia", "Thailand", "Vietnam", "Philippines"]

  predicate IsUpperLetter(c: char) { 'A' <= c <= 'Z' }

  /** The table covers exactly the six supported countries. */
  lemma TableDomain()
    ensures CurrencyTable.Keys ==
      {"Singapore", "Malaysia", "Indonesia", "Thailand", "Vietnam", "Philippines"}
  {
  }

  /** Every country the form can submit has an entry, so the results view's
      `currencyMapping[homeCountry]` never reads a missing key; and nothing else has one. */
  lemma TableCoversSelectableCountries()
    ensures forall c :: c in SelectableCountries <==> c in CurrencyTable
  {
    TableDomain();
  }

  /** Codes are three upper-case letters, and no two countries share one. */
  lemma CodesAreDistinctThreeLetterUpperCase()
    ensures forall c :: c in CurrencyTable ==>
      |CurrencyTable[c].code| == 3 && forall k :: 0 <= k < 3 ==> IsUpperLetter(CurrencyTable[c].code[k])
    ensures forall c1, c2 :: c1 in CurrencyTable && c2 in CurrencyTable && c1 != c2 ==>
      CurrencyTable[c1].code != CurrencyTable[c2].code
  {
  }

  /** The two default countries of the form, as written in the table. */
  lemma DefaultCountries()
    ensures CurrencyTable["Singapore"] == Currency("SGD", "S$")
    ensures CurrencyTable["Malaysia"] == Currency("MYR", "RM")
  {
  }

  /** `currencyMapping[homeCountry].symbol`, as the results view reads it beside a
      converted price; defined for every country the form offers. */
  function HomeSymbol(homeCountry: string): (symbol: string)
    requires homeCountry in SelectableCountries
    ensures homeCountry in CurrencyTable && |symbol| > 0
  {
    TableCoversSelectableCountries();
    CurrencyTable[homeCountry].symbol
  }
}
