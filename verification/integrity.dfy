/** The integrity gate of `downloadLicense`: a fetched canonical text is
    accepted only if its digest equals the digest pinned in the catalog.
    The digest function (SHA-256 in hex) and the fetch itself are parameters. */
module Integrity {
  import opened Wrappers
  import opened Catalog

  /** The entry pins a digest. An empty `sha256` string is falsy in the
      source and pins nothing. */
  predicate DigestPinned(license: LicenseEntry) {
    license.sha256.Some? && license.sha256.value != ""
  }

  /** Passes the fetched text through unchanged, or fails naming the entry. */
  function CheckDigest(license: LicenseEntry, text: string, hash: string -> string)
    : (r: Result<string, LicenseError>)
    ensures r.Success? ==> r.value == text
    ensures r.Failure? ==> r.error == FingerprintMismatch(license.spdx)
    ensures r.Success? <==> !DigestPinned(license) || hash(text) == license.sha256.value
  {
    if DigestPinned(license) && hash(text) != license.sha256.value then
      Failure(FingerprintMismatch(license.spdx))
    else
      Success(text)
  }

  /** `downloadLicense`: the fetch outcome, then the digest gate. */
  function DownloadLicense(license: LicenseEntry, fetched: Result<string, LicenseError>,
                           hash: string -> string): (r: Result<string, LicenseError>)
    ensures fetched.Failure? ==> r == fetched
    ensures r.Success? ==> fetched.Success? && r.value == fetched.value
    ensures fetched.Success? ==>
              (r.Success? <==> !DigestPinned(license) || hash(fetched.value) == license.sha256.value)
    ensures fetched.Success? && r.Failure? ==> r.error == FingerprintMismatch(license.spdx)
  {
    if fetched.Failure? then fetched else CheckDigest(license, fetched.value, hash)
  }
}
