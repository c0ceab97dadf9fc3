/**
 The rows the scraper writes and the tables they go to. Each constructor of
 `Row` is the dictionary shape one table receives; the table a row belongs to
 is determined by its shape (`TableOf`), as every call site in the script
 pairs them.
 */
module Records {
  import opened Wrappers

  datatype Table =
    | PublicAgencies
    | Vendors
    | AggregateVendors
    | Contracts
    | Winners
    | AggregateWinners
    | PublicAgencyAltNames
    | VendorAltNames

  /** The three kinds of entity that have a canonical code -> name row and a name cache. */
  datatype Kind = AgencyKind | VendorKind | AggregateKind

  datatype Row =
    | AgencyRow(code: string, name: string)
    | VendorRow(code: string, name: string, country: string)
    | AggregateVendorRow(code: string, name: string)
    | ContractRow(
        cig: string,
        subject: Option<string>,
        procedure: Option<string>,
        awardedAmount: Option<string>,
        disbursedAmount: Option<string>,
        agencyCode: string,
        pubMonth: int,
        pubYear: int,
        pubDate: string)
    | WinnerRow(cig: string, vendorCode: string)
    | AggregateWinnerRow(cig: string, aggregateCode: string)
    | AgencyAltNameRow(altCode: string, altName: string)
    | VendorAltNameRow(altCode: string, altName: string)

  function TableOf(row: Row): Table {
    match row
    case AgencyRow(_, _) => PublicAgencies
    case VendorRow(_, _, _) => Vendors
    case AggregateVendorRow(_, _) => AggregateVendors
    case ContractRow(_, _, _, _, _, _, _, _, _) => Contracts
    case WinnerRow(_, _) => Winners
    case AggregateWinnerRow(_, _) => AggregateWinners
    case AgencyAltNameRow(_, _) => PublicAgencyAltNames
    case VendorAltNameRow(_, _) => VendorAltNames
  }

  /** The table holding the canonical rows of kind `k`. */
  function EntityTable(k: Kind): Table {
    match k
    case AgencyKind => PublicAgencies
    case VendorKind => Vendors
    case AggregateKind => AggregateVendors
  }

  /** Is `row` a canonical (code, name) row of kind `k`? */
  predicate IsCanonical(row: Row, k: Kind) {
    match k
    case AgencyKind => row.AgencyRow?
    case VendorKind => row.VendorRow?
    case AggregateKind => row.AggregateVendorRow?
  }

  /** Is `row` the canonical row of kind `k` for `code`? */
  predicate Names(row: Row, k: Kind, code: string) {
    IsCanonical(row, k) && row.code == code
  }
}
