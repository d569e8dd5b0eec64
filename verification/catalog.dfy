/** The license catalog's records and the errors the core raises. */
module Catalog {
  import opened Wrappers

  /** One substitution span: the half-open range [start, end) of the
      canonical text that the value of `field` replaces. */
  datatype Replacement = Replacement(field: string, start: int, end: int)

  /** The holder-specific part of a license: the field names it asks for and
      where their values go. */
  datatype Template = Template(fields: seq<string>, replacements: seq<Replacement>)

  /** One catalog entry. Optional JSON members are `Option`s; `sha256` is the
      pinned hex digest of the canonical text. */
  datatype LicenseEntry = LicenseEntry(
    spdx: string,
    name: string,
    url: string,
    sha256: Option<string>,
    fingerprints: Option<seq<string>>,
    template: Option<Template>,
    warnings: Option<seq<string>>)

  /** The errors the core throws, each with the message the tool prints. */
  datatype LicenseError =
    | FetchFailed(message: string)
    | FingerprintMismatch(spdx: string)
    | MissingValue(field: string)
    | OffsetsOutOfRange(spdx: string)
  {
    function Message(): string {
      match this
      case FetchFailed(m) => m
      case FingerprintMismatch(id) =>
        "Fingerprint mismatch for " + id + ". Update data/licenses.json before continuing."
      case MissingValue(f) => "Missing value for " + f + "."
      case OffsetsOutOfRange(id) => "Replacement offsets out of range for " + id + "."
    }
  }
}
