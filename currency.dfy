/** The currency descriptor a Money value carries, and the registry New looks
    codes up in. The registry's own code (insertion, numeric-code lookup) lives
    in currency.go, which is not part of this model: here it is a map. */
module Currencies {

  /** A currency descriptor: its code, display symbol, display template (where
      "1" stands for the digits and "$" for the symbol), decimal and thousands
      separators, number of minor-unit digits, and numeric code. */
  datatype Currency = Currency(
    code: string,
    grapheme: string,
    template: string,
    decimal: string,
    thousand: string,
    fraction: nat,
    numericCode: string)

  type Registry = map<string, Currency>

  /** Every descriptor is stored under its own code, as registration does. */
  predicate WellKeyed(registry: Registry) {
    forall code | code in registry :: registry[code].code == code
  }

}
