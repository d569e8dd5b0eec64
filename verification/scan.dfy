/** `validateExistingLicense`: the tool's check of a license file already in
    the project. Each catalog entry in turn is downloaded, passed through the
    digest gate, and turned into a pattern; the first entry whose pattern
    accepts the normalized file wins. Failed downloads do not stop the scan:
    the first of them is remembered and reported only when nothing matched.
    The fetch is a parameter: the text the network would return for an
    entry, or the error it would raise. */
module Scan {
  import opened Wrappers
  import opened Catalog
  import opened Integrity
  import opened Normalizer
  import opened Pattern

  /** The result record: the matching entry, or the first error seen. */
  datatype Validation = Validation(matched: Option<LicenseEntry>, error: Option<LicenseError>)

  /** One turn of the loop: the error the `try` block catches, or whether the
      entry's pattern accepts the normalized file. */
  function Attempt(license: LicenseEntry, fetch: LicenseEntry -> Result<string, LicenseError>,
                   hash: string -> string, normalized: string): (r: Result<bool, LicenseError>)
    ensures fetch(license).Failure? ==> r == Failure(fetch(license).error)
    ensures fetch(license).Success? ==>
              (r.Success? <==> !DigestPinned(license) || hash(fetch(license).value) == license.sha256.value)
    ensures fetch(license).Success? && r.Failure? ==> r.error == FingerprintMismatch(license.spdx)
    ensures r.Success? ==> r.value == Accepts(fetch(license).value, normalized)
  {
    match DownloadLicense(license, fetch(license), hash)
    case Failure(e) => Failure(e)
    case Success(text) => Success(Matches(BuildPattern(text), normalized))
  }

  /** The entry downloads, passes the digest gate, and its pattern accepts. */
  predicate Hit(license: LicenseEntry, fetch: LicenseEntry -> Result<string, LicenseError>,
                hash: string -> string, normalized: string)
  {
    Attempt(license, fetch, hash, normalized) == Success(true)
  }

  /** The loop over `licenses`, carrying the first error caught so far;
      `attempt` gives the outcome of one turn for an entry. */
  function ScanFrom(licenses: seq<LicenseEntry>, attempt: LicenseEntry -> Result<bool, LicenseError>,
                    firstError: Option<LicenseError>): (r: Validation)
    ensures r.matched.Some? ==> r.error.None? && r.matched.value in licenses
    decreases |licenses|
  {
    if |licenses| == 0 then Validation(None, firstError)
    else
      match attempt(licenses[0])
      case Success(true) => Validation(Some(licenses[0]), None)
      case Success(false) => ScanFrom(licenses[1..], attempt, firstError)
      case Failure(e) =>
        ScanFrom(licenses[1..], attempt, if firstError.None? then Some(e) else firstError)
  }

  /** The error remembered after a turn whose outcome is `outcome`. */
  function Remember(outcome: Result<bool, LicenseError>, firstError: Option<LicenseError>)
    : Option<LicenseError>
  {
    if outcome.Failure? && firstError.None? then Some(outcome.error) else firstError
  }

  /** The turn of the loop for every entry, with the fetch, the digest and
      the normalized file fixed. */
  function Attempts(fetch: LicenseEntry -> Result<string, LicenseError>, hash: string -> string,
                    normalized: string): LicenseEntry -> Result<bool, LicenseError>
  {
    license => Attempt(license, fetch, hash, normalized)
  }

  /** `validateExistingLicense(existing, licenses)`: the existing text is
      normalized once, then every entry is tried in catalog order. */
  function ValidateExisting(existing: string, licenses: seq<LicenseEntry>,
                            fetch: LicenseEntry -> Result<string, LicenseError>,
                            hash: string -> string): (r: Validation)
    ensures r.matched.Some? ==> r.error.None? && r.matched.value in licenses
  {
    ScanFrom(licenses, Attempts(fetch, hash, Normalize(existing)), None)
  }

  // ---------------------------------------------------------------------
  // The loop, whatever error it has already caught

  /** Unfolds one turn of the loop when the first entry is no hit. */
  lemma ScanStep(licenses: seq<LicenseEntry>, attempt: LicenseEntry -> Result<bool, LicenseError>,
                 firstError: Option<LicenseError>)
    requires |licenses| > 0 && attempt(licenses[0]) != Success(true)
    ensures ScanFrom(licenses, attempt, firstError)
         == ScanFrom(licenses[1..], attempt, Remember(attempt(licenses[0]), firstError))
  {
  }

  /** The first hit ends the scan with that entry and no error. */
  lemma {:induction false} ScanFirstHit(licenses: seq<LicenseEntry>,
                                        attempt: LicenseEntry -> Result<bool, LicenseError>,
                                        firstError: Option<LicenseError>, i: int)
    requires 0 <= i < |licenses| && attempt(licenses[i]) == Success(true)
    requires forall j :: 0 <= j < i ==> attempt(licenses[j]) != Success(true)
    ensures ScanFrom(licenses, attempt, firstError) == Validation(Some(licenses[i]), None)
    decreases i
  {
    if i > 0 {
      ScanStep(licenses, attempt, firstError);
      assert forall j :: 0 <= j < i - 1 ==> licenses[1..][j] == licenses[j + 1];
      ScanFirstHit(licenses[1..], attempt, Remember(attempt(licenses[0]), firstError), i - 1);
    }
  }

  /** The scan finds nothing exactly when no entry is a hit. */
  lemma {:induction false} ScanNoneIff(licenses: seq<LicenseEntry>,
                                       attempt: LicenseEntry -> Result<bool, LicenseError>,
                                       firstError: Option<LicenseError>)
    ensures ScanFrom(licenses, attempt, firstError).matched.None?
        <==> forall i :: 0 <= i < |licenses| ==> attempt(licenses[i]) != Success(true)
    decreases |licenses|
  {
    if |licenses| > 0 && attempt(licenses[0]) != Success(true) {
      ScanStep(licenses, attempt, firstError);
      ScanNoneIff(licenses[1..], attempt, Remember(attempt(licenses[0]), firstError));
      assert forall i :: 1 <= i < |licenses| ==> licenses[i] == licenses[1..][i - 1];
    }
  }

  /** With no hit, an error already caught is the one reported. */
  lemma {:induction false} ScanKeepsError(licenses: seq<LicenseEntry>,
                                          attempt: LicenseEntry -> Result<bool, LicenseError>,
                                          firstError: Option<LicenseError>)
    requires firstError.Some?
    requires forall i :: 0 <= i < |licenses| ==> attempt(licenses[i]) != Success(true)
    ensures ScanFrom(licenses, attempt, firstError) == Validation(None, firstError)
    decreases |licenses|
  {
    if |licenses| > 0 {
      ScanStep(licenses, attempt, firstError);
      ScanKeepsError(licenses[1..], attempt, firstError);
    }
  }

  /** With no hit and nothing caught yet, the first failing entry's error is
      the one reported. */
  lemma {:induction false} ScanFirstFailure(licenses: seq<LicenseEntry>,
                                            attempt: LicenseEntry -> Result<bool, LicenseError>,
                                            i: int)
    requires forall j :: 0 <= j < |licenses| ==> attempt(licenses[j]) != Success(true)
    requires 0 <= i < |licenses| && attempt(licenses[i]).Failure?
    requires forall j :: 0 <= j < i ==> attempt(licenses[j]).Success?
    ensures ScanFrom(licenses, attempt, None) == Validation(None, Some(attempt(licenses[i]).error))
    decreases i
  {
    ScanStep(licenses, attempt, None);
    if i == 0 {
      ScanKeepsError(licenses[1..], attempt, Some(attempt(licenses[0]).error));
    } else {
      assert attempt(licenses[0]).Success?;
      ScanFirstFailure(licenses[1..], attempt, i - 1);
    }
  }

  /** With no hit and no failure, the scan reports nothing at all. */
  lemma {:induction false} ScanCleanMiss(licenses: seq<LicenseEntry>,
                                         attempt: LicenseEntry -> Result<bool, LicenseError>)
    requires forall i :: 0 <= i < |licenses| ==> attempt(licenses[i]) == Success(false)
    ensures ScanFrom(licenses, attempt, None) == Validation(None, None)
    decreases |licenses|
  {
    if |licenses| > 0 {
      ScanStep(licenses, attempt, None);
      ScanCleanMiss(licenses[1..], attempt);
    }
  }

  // ---------------------------------------------------------------------
  // The check as the tool calls it

  /** The first catalog entry that downloads, passes its digest and whose
      pattern accepts the normalized file is the one reported. */
  lemma ValidateReportsFirstMatch(existing: string, licenses: seq<LicenseEntry>,
                                  fetch: LicenseEntry -> Result<string, LicenseError>,
                                  hash: string -> string, i: int)
    requires 0 <= i < |licenses| && Hit(licenses[i], fetch, hash, Normalize(existing))
    requires forall j :: 0 <= j < i ==> !Hit(licenses[j], fetch, hash, Normalize(existing))
    ensures ValidateExisting(existing, licenses, fetch, hash) == Validation(Some(licenses[i]), None)
  {
    ScanFirstHit(licenses, Attempts(fetch, hash, Normalize(existing)), None, i);
  }

  /** No entry is reported exactly when none is a hit. */
  lemma ValidateNoMatchIff(existing: string, licenses: seq<LicenseEntry>,
                           fetch: LicenseEntry -> Result<string, LicenseError>,
                           hash: string -> string)
    ensures ValidateExisting(existing, licenses, fetch, hash).matched.None?
        <==> forall i :: 0 <= i < |licenses| ==> !Hit(licenses[i], fetch, hash, Normalize(existing))
  {
    ScanNoneIff(licenses, Attempts(fetch, hash, Normalize(existing)), None);
  }

  /** When nothing matches, the error reported is that of the first entry
      whose download or digest check failed. */
  lemma ValidateReportsFirstError(existing: string, licenses: seq<LicenseEntry>,
                                  fetch: LicenseEntry -> Result<string, LicenseError>,
                                  hash: string -> string, i: int)
    requires forall j :: 0 <= j < |licenses| ==> !Hit(licenses[j], fetch, hash, Normalize(existing))
    requires 0 <= i < |licenses| && Attempt(licenses[i], fetch, hash, Normalize(existing)).Failure?
    requires forall j :: 0 <= j < i ==> Attempt(licenses[j], fetch, hash, Normalize(existing)).Success?
    ensures ValidateExisting(existing, licenses, fetch, hash)
         == Validation(None, Some(Attempt(licenses[i], fetch, hash, Normalize(existing)).error))
  {
    ScanFirstFailure(licenses, Attempts(fetch, hash, Normalize(existing)), i);
  }

  /** When every entry downloads cleanly and none matches, there is neither
      a match nor an error. */
  lemma ValidateCleanMiss(existing: string, licenses: seq<LicenseEntry>,
                          fetch: LicenseEntry -> Result<string, LicenseError>,
                          hash: string -> string)
    requires forall i :: 0 <= i < |licenses| ==>
               Attempt(licenses[i], fetch, hash, Normalize(existing)) == Success(false)
    ensures ValidateExisting(existing, licenses, fetch, hash) == Validation(None, None)
  {
    ScanCleanMiss(licenses, Attempts(fetch, hash, Normalize(existing)));
  }
}
