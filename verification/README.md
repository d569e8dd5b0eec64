# nicelicense core, modelled in Dafny

nicelicense is a command-line tool that writes a LICENSE file for a project
from a catalog of license entries. Each entry has an SPDX id, a download
URL, an optional pinned SHA-256 digest, optional fingerprint phrases, and
an optional template that lists character spans to fill with holder fields.

This project models the parts of the tool that decide things:

- `normalize`, which is `\r\n` to `\n`, then every white-space run to one
  space, then trim (`Normalizer`, with character helpers in `Text`);
- the digest gate of `downloadLicense` (`Integrity`);
- `identifyLicense`, the fingerprint vote that names the license of an
  existing file (`Identify`);
- `applyTemplate`, which fills the template spans last-to-first (`Fill`);
- `buildLicenseRegex`, which turns a license text into an anchored pattern
  where each `<...>` or `[...]` placeholder is a lazy wildcard and each
  space is a white-space run (`Pattern`);
- `validateExistingLicense`, which scans the catalog for the first entry
  whose pattern accepts the existing file and remembers the first
  download error (`Scan`);
- `validateYears`, `validateEmail` and `validateField`, the checks on
  holder fields (`Fields`);
- `parseArgs`, the command-line parser (`CliArgs`).

The catalog records are in `Catalog`, and `Option`/`Result` are in
`Wrappers`. An exception in the source is a `Failure` carrying a
`LicenseError` here. The network fetch and the SHA-256 function are
parameters. The regular expression of `buildLicenseRegex` becomes a list
of atoms (`Lit`, `Ws`, `Wild`) with a matching relation. Every lemma in
the project is about one of these operations.

## Model

| member | source | states |
|---|---|---|
| Normalizer.Normalize | src/nicelicense.ts:254-256 | the result has no leading or trailing white space and no two adjacent spaces, uses only the plain space as white space, and keeps every non-white-space character of the input in order |
| Normalizer.NormalizeIsTrimCollapse | src/nicelicense.ts:254-256 | turning `\r\n` into `\n` first makes no difference: normalizing equals trimming the run-collapsed text |
| Normalizer.NormalizeIdempotent | src/nicelicense.ts:254-256 | normalizing an already normalized text changes nothing |
| Normalizer.NormalFixpoint | src/nicelicense.ts:254-256 | every text that is already trimmed and single-spaced is left unchanged |
| Normalizer.NormalizeIgnoresRunLength | src/nicelicense.ts:254-256 | a run of two white-space characters normalizes the same as a run of one |
| Normalizer.NormalizeIgnoresWsKind | src/nicelicense.ts:254-256 | which white-space character (tab, newline, no-break space, ...) separates two parts makes no difference |
| Normalizer.ReplaceCrlf | src/nicelicense.ts:255 | the `\r\n` rewrite keeps the non-white-space content |
| Normalizer.TrimStart | src/nicelicense.ts:255 | the result is a suffix of the input, what was dropped is all white space, and the result does not start with white space |
| Normalizer.TrimEnd | src/nicelicense.ts:255 | the result is a prefix of the input, what was dropped is all white space, and the result does not end with white space |
| Text.LowerIdempotent | src/nicelicense.ts:294 | lower-casing a text that is already lower-cased changes nothing |
| Normalizer.NormalizeLower | src/nicelicense.ts:294 | normalizing and lower-casing commute, so the order in which the identifier applies them does not matter |
| Integrity.CheckDigest | src/nicelicense.ts:272-280 | the text passes exactly when the entry pins no digest or the text's digest equals the pinned one; passing returns the text unchanged, and failing raises the fingerprint-mismatch error for that SPDX id |
| Integrity.DownloadLicense | src/nicelicense.ts:270-281 | a failed fetch propagates unchanged; a fetched text is returned unchanged exactly when the entry pins no digest or the digest matches, and otherwise the fingerprint-mismatch error for that SPDX id is raised |
| Identify.CountHits | src/nicelicense.ts:302-308 | the count is the number of fingerprint positions whose lower-cased phrase occurs in the normalized text, and at most the number of fingerprints |
| Identify.Score | src/nicelicense.ts:298-317 | an entry yields an identification exactly when it has fingerprints and at least one occurs; the identification names the entry and has its fingerprint total, at least one match, and confidence equal to matches over total |
| Identify.IdentifyLicense | src/nicelicense.ts:290-332 | any identification returned names a catalog entry that has a fingerprint in the lower-cased normalized text, and nothing is returned exactly when no entry has one |
| Identify.IdentifyIgnoresCase | src/nicelicense.ts:294-305 | two texts that differ only in the case of their letters are identified alike |
| Identify.IdentifyIn | src/nicelicense.ts:290-332 | any identification returned names an entry of the catalog that has a matching fingerprint |
| Identify.IdentifyNoneIff | src/nicelicense.ts:290-332 | nothing is identified exactly when no entry has a fingerprint in the text |
| Identify.IdentifyPicksFirstBest | src/nicelicense.ts:290-332 | the identified entry beats every earlier candidate and is not beaten by any later one, where beating means strictly higher confidence, or equal confidence and strictly more matches |
| Identify.BeatsTransitive | src/nicelicense.ts:320-327 | the replacement rule is transitive |
| Identify.ConfidenceByCrossMultiplication | src/nicelicense.ts:311 | comparing two confidences is the same as comparing the cross products of matches and totals, both for greater-than and for equality |
| Fill.ApplyTemplate | src/nicelicense.ts:495-518 | with no spans the text comes back unchanged, and a missing-value error names a field of some span whose value is absent or empty |
| Fill.SortDescPerm | src/nicelicense.ts:505 | the sort keeps exactly the spans it was given, with the same multiplicities |
| Fill.SortDescSorted | src/nicelicense.ts:505 | the sorted spans are in non-increasing order of start offset |
| Fill.SortDescStable | src/nicelicense.ts:505 | spans with equal start keep their original relative order |
| Fill.FillWellFormed | src/nicelicense.ts:495-518 | spans that lie in the text, have pairwise distinct starts and do not overlap, with every value present, fill without error, and the result is the text with each span replaced by its value, working from the last span to the first |
| Fill.FillOneSpan | src/nicelicense.ts:514-515 | a single span is replaced by its value, with the text before and after kept |
| Fill.MissingValueFails | src/nicelicense.ts:507-510 | a span whose field has no value, or the empty string, makes the fill fail |
| Fill.FillFirstMissing | src/nicelicense.ts:505-510 | for spans that lie in the text, have pairwise distinct starts and do not overlap, the error names the field of the first span, in sorted order, whose value is missing |
| Fill.NegativeStartFails | src/nicelicense.ts:511-513 | with every value present, a span with a negative start makes the fill fail with the out-of-range error for the entry's SPDX id |
| Fill.ApplyAllEndPastFails | src/nicelicense.ts:511-513 | with every value present, when every span before it passed, the first span whose end lies past the partly filled text the loop holds at that point ends the fill with the out-of-range error for the SPDX id |
| Fill.EndPastTextFails | src/nicelicense.ts:505-513 | the same for a whole template: the spans are taken in sorted order, and a span ending past the text the earlier fills left makes the fill fail with the out-of-range error |
| Fill.FirstEndPastTextFails | src/nicelicense.ts:505-513 | with every value present, a first span in sorted order that ends past the template text makes the fill fail with the out-of-range error |
| Fill.NegativeEndCountsFromBack | src/nicelicense.ts:511-515 | a negative end passes the range check and counts from the back: "abcd" with [2,-1) and value "X" gives "abXd" |
| Fill.FillCopyrightExample | tests/nicelicense.test.js:59-77 | the template of the unit test fills to "Copyright (c) 2024 Jane Doe" |
| Fill.ApplyTemplateChecked | src/nicelicense.ts:495-518 | the corrected fill succeeds exactly when every value is present and, in sorted order, each span has a start of at least 0 and at most its end, the first ends inside the original text, and each later span ends at or before the start of the span applied just before it; on success it is the spliced text |
| Fill.CheckedFillSpansInText | src/nicelicense.ts:511-513 | after a successful corrected fill, every declared span lay inside the original text |
| Fill.CheckedAgreesOnWellFormed | src/nicelicense.ts:495-518 | on spans that lie in the text, have pairwise distinct starts and do not overlap, with every value present, the corrected and the as-written fill give the same result |
| Fill.WrittenCheckAcceptsSpanPastText | src/nicelicense.ts:511 | as written, the range check lets a span that ends past the original text through, because it measures the partly filled text |
| Fill.CheckedRejectsSpanPastText | src/nicelicense.ts:511 | the corrected check rejects that same input with the out-of-range error |
| Fill.WrittenFillLosesSharedStart | src/nicelicense.ts:505-515 | as written, two spans with the same start are both applied, and the value of the first one applied is overwritten by the second: "abcd" with a=[1,1) and b=[1,3), values "X" and "Y", gives "aYcd" |
| Fill.CheckedRejectsSharedStart | src/nicelicense.ts:505-515 | the corrected check rejects that same input with the out-of-range error |
| Pattern.TokenizeRoundTrip | dist/nicelicense.js:168 | splitting the text into characters and placeholder tokens loses nothing: the pieces concatenate back to the text |
| Pattern.TokenizePlaceholders | dist/nicelicense.js:168 | every placeholder piece is a `<...>` or `[...]` token with at least one character inside and no closing bracket before the end |
| Pattern.MatchesAppend | dist/nicelicense.js:172 | a concatenated pattern matches a text exactly when the text splits into a part matching the first pattern and a part matching the second |
| Pattern.MatchesRender | dist/nicelicense.js:171-172 | a pattern without wildcards accepts the text it spells, with one space for each white-space atom |
| Pattern.MatchesSingleSpaced | dist/nicelicense.js:171-172 | a single-spaced text that a wildcard-free pattern accepts is exactly the text the pattern spells |
| Pattern.PiecesAreCut | dist/nicelicense.js:168 | every result of the placeholder pass is a list of literal parts cut by placeholder tokens, one more part than tokens |
| Pattern.TokenizeJoin | dist/nicelicense.js:168 | bracket-free parts joined by placeholder tokens are cut by the pass at exactly those tokens, each part becoming its characters |
| Pattern.PatternOfJoin | dist/nicelicense.js:168-172 | for bracket-free parts joined by placeholder tokens, none of the parts hiding the marker text, the pattern is each part's atoms with one wildcard between consecutive parts |
| Pattern.TemplateAccepts | dist/nicelicense.js:166-173 | a template whose normalized text is literal parts joined by placeholders, none of them hiding the marker text, accepts a single-spaced text exactly when the text is the parts in order with a non-empty filler in place of each placeholder |
| Pattern.PlainTemplateAccepts | dist/nicelicense.js:166-173 | a template in which the pass finds no placeholder and the normalized text holds no marker accepts a single-spaced text exactly when it is the normalized template |
| Pattern.MatchesWild | dist/nicelicense.js:170 | a lone wildcard accepts exactly the non-empty texts |
| Pattern.MatchesLength | dist/nicelicense.js:170-172 | an accepted text has at least as many characters as the pattern has atoms, since every atom eats at least one |
| Pattern.WildAnchors | dist/nicelicense.js:172 | because the pattern is anchored, a single-spaced text accepted by a wildcard-free part, any middle pattern and a wildcard-free part starts with the first part's text and ends with the last part's text, with room for the middle between |
| Pattern.FilledThree | dist/nicelicense.js:170-172 | three parts are filled in exactly when the text is the first part, a non-empty filler, the middle part, a non-empty filler and the last part |
| Pattern.TwoPlaceholders | dist/nicelicense.js:166-172 | a text of three bracket-free, underscore-free parts joined by two placeholders is cut at both placeholders, hides no marker, and has the pattern first part, wildcard, middle part, wildcard, last part |
| Pattern.EmptyBracketsStayLiteral | dist/nicelicense.js:168 | `<>` and `[]` are not placeholders and each stays two literal characters |
| Pattern.MarkerTextIsWildcard | dist/nicelicense.js:168-170 | the template that is exactly the marker text `__LICENSE_TOKEN__` accepts any non-empty text, as a placeholder would |
| Pattern.CopyrightLineAccepts | dist/nicelicense.js:166-173 | the line "Copyright (c) <year> <owner>" accepts a single-spaced text exactly when it is "Copyright (c) ", a non-empty filler, a space and a non-empty filler |
| Pattern.CopyrightLineAcceptsFilled | dist/nicelicense.js:166-173 | that line accepts "Copyright (c) ", any year text, a space and any holder name with single inner spaces |
| Pattern.JaneDoeAccepted | dist/nicelicense.js:166-173 | that line accepts "Copyright (c) 2024 Jane Doe" |
| Pattern.UnrelatedTextRejected | dist/nicelicense.js:166-173 | that line rejects "Some unrelated text" |
| Pattern.MissingHolderRejected | dist/nicelicense.js:170 | that line rejects "Copyright (c) 2024", where the holder placeholder would have to match nothing |
| Scan.Attempt | dist/nicelicense.js:195-205 | a failed download is passed on as its error; a downloaded text fails exactly when its digest is pinned and differs, with the fingerprint-mismatch error; otherwise the attempt reports whether the text's pattern accepts the normalized file |
| Scan.ScanFrom | dist/nicelicense.js:194-208 | a reported match comes with no error and is an entry of the catalog |
| Scan.ValidateExisting | dist/nicelicense.js:191-209 | a reported match comes with no error and is an entry of the catalog |
| Scan.ScanFirstHit | dist/nicelicense.js:194-200 | the scan stops at the first entry whose attempt succeeds with a match |
| Scan.ScanFirstFailure | dist/nicelicense.js:202-206 | with no match, the error reported is that of the first failing entry |
| Scan.ValidateReportsFirstMatch | dist/nicelicense.js:191-209 | the first entry that downloads, passes its digest and whose pattern accepts the normalized file is reported, with no error |
| Scan.ValidateNoMatchIff | dist/nicelicense.js:191-209 | no entry is reported exactly when none downloads, passes its digest and is accepted |
| Scan.ValidateReportsFirstError | dist/nicelicense.js:201-208 | when nothing matches, the error of the first entry whose download or digest check failed is reported |
| Scan.ValidateCleanMiss | dist/nicelicense.js:208 | when every entry downloads and none matches, neither a match nor an error is reported |
| Fields.ValidateYearsIff | src/nicelicense.ts:402-404 | the years check accepts exactly four digits, or four digits, a hyphen and four digits |
| Fields.ValidateEmailIff | src/nicelicense.ts:406-408 | the email check accepts exactly texts that split as run, `@`, run, `.`, run, where each run is non-empty and has no `@` and no white space |
| Fields.ValidateField | src/nicelicense.ts:410-421 | the "is required" message for the field is returned exactly when the value is all white space |
| Fields.ValidateFieldAccepts | src/nicelicense.ts:410-421 | a value passes exactly when it is not blank, and it is a year or a year range for "years", and it has the email shape for "email" |
| Fields.TrimEmptyIff | src/nicelicense.ts:411 | trimming leaves nothing exactly when the value is all white space |
| CliArgs.Put | src/nicelicense.ts:110-190 | assigning an option sets that option, or unsets it when the next argument is missing, and leaves every other option and every flag as it was |
| CliArgs.FlagOfSpellings | src/nicelicense.ts:78-109 | an argument selects a boolean flag exactly when it is one of that flag's spellings |
| CliArgs.ClassifySwitch | src/nicelicense.ts:78-109 | an argument sets a flag exactly when it is one of that flag's spellings |
| CliArgs.ClassifySpaced | src/nicelicense.ts:110-190 | an argument takes its value from the next argument exactly when it is `--` followed by the option's name |
| CliArgs.ClassifyInline | src/nicelicense.ts:110-190 | an argument carries its own value exactly when it starts with `--`, the option's name and `=`, and the value is the rest of the argument |
| CliArgs.ParseArgs | src/nicelicense.ts:65-192 | every flag that is set was spelled by some argument, and every option that has a value was assigned by some argument |
| CliArgs.ParseFlagIff | src/nicelicense.ts:65-192 | a flag is set exactly when one of its spellings occurs at an argument position the parser visits |
| CliArgs.ParseLastWins | src/nicelicense.ts:65-192 | the value of an option is the one given by the last visited argument that assigns it |
| CliArgs.ParseUnset | src/nicelicense.ts:66-75 | an option that no visited argument assigns stays unset |
| CliArgs.VisitedSteps | src/nicelicense.ts:77-114 | after a visited argument, the parser visits the next one, or the one after that when the argument takes a spaced value, and nothing in between |
| CliArgs.SpacedValueIsNotReadAsFlag | src/nicelicense.ts:137-141 | in `--name --yes` the second argument becomes the name and does not set the flag |
| CliArgs.TrailingOptionUnsets | src/nicelicense.ts:110-118 | a trailing `--license` with nothing after it unsets a license given earlier |

## Left out

- The file system, the prompts, the JSON catalog loader, `main`, `printHelp`, output paths and `package.json` updates are not modelled: they are I/O around the core.
- `fetchLicenseText` is a parameter, `fetch`, that gives the download result for each entry. A failed fetch is any `Failure` value, so the HTTP status text is not modelled.
- `sha256` is a parameter, `hash`, from text to hex digest. Its body is a standard hash and is not modelled.
- `validateExistingLicense` downloads entries one at a time and stops at the first match. The model takes every entry's fetch result from one function. The result only depends on the entries up to the match (`Scan.ScanFirstHit`), so the order of downloads is not modelled.
- Strings are sequences of characters, not UTF-16 code units. `toLowerCase` is modelled for ASCII letters only, and other characters are unchanged. `\s` is the full set of JavaScript white-space characters.
- Confidence is an exact rational, `matched / total`, and not a double. `Identify.ConfidenceByCrossMultiplication` gives the exact comparison. Rounding in floating point is not modelled.
- Span offsets are integers. Fractional offsets and the way `slice` truncates them are not modelled. The range check rejects a negative start, so `slice` never sees one. A negative end passes the check and `slice` counts it from the end of the text (`Fill.SliceFrom`, `Fill.NegativeEndCountsFromBack`).
- A value of the empty string counts as missing, as `!value` does. Keys inherited from the JavaScript object prototype are not modelled: a value is present only when the map holds it.
- The regular-expression engine is replaced by a matching relation on atoms. The lazy `.+?` and the `s` flag show up in the model only as "any non-empty text". Which match the engine would pick is not modelled, only whether one exists.
- Pattern.TemplateAccepts: stated for templates whose literal parts do not hide the marker text `__LICENSE_TOKEN__` (`MarkerOnlyBetween`), and for single-spaced candidates (the tool always passes normalized text). A part that does hide the marker has it turned into a wildcard by the marker scan, so the literal-parts shape no longer holds; `Pattern.MarkerTextIsWildcard` shows this case.
- Pattern.TwoPlaceholders: a sufficient condition only. It covers parts with no `<`, `[` or `_`; parts that contain brackets without forming a placeholder go through `Pattern.TemplateAccepts`, which asks only for the pass's result.
- The option record of `parseArgs` is a map from option to value plus a set of flags, not a record with nine optional fields and eight booleans. An option that is absent from the map is `undefined` in the source.
- `normalize`, `downloadLicense`, `applyTemplate` and `parseArgs` are modelled from the TypeScript source. The compiled `dist/nicelicense.js` has no `identifyLicense` (its exports are at lines 7-14), and its `parseArgs` (line 24 on) lacks `--dry-run`, `--stdout` and `--validate`; the model follows `src/nicelicense.ts` for these. `buildLicenseRegex` and `validateExistingLicense` exist only in the compiled file and are modelled from it.
- Scripts and tests are not modelled. The one unit-test example for `applyTemplate` is `Fill.FillCopyrightExample`.

## Findings

| source | as written | input that shows it | evidently intended | confidence | as-written member | corrected member |
|---|---|---|---|---|---|---|
| src/nicelicense.ts:511 | spans are checked against `result.length`. This is the text after the later spans have been filled, so a span can end past the original text and still pass | text "abcd" with spans a=[3,3) and b=[1,6), and values a="xyz", b="Q": after the first fill the text is "abcxyzd" (length 7), so [1,6) passes and the result is "aQd" | each span must lie inside the original template text, or the out-of-range error is raised | medium, not executed | Fill.WrittenCheckAcceptsSpanPastText | Fill.CheckedRejectsSpanPastText |
| src/nicelicense.ts:505-515 | spans are sorted by start only and applied one after another, so two spans with the same start are both applied to the same place and the later one overwrites what the earlier one wrote | text "abcd" with spans a=[1,1) and b=[1,3), and values a="X", b="Y": after the first fill the text is "aXbcd", and the second gives "aYcd", so "X" is lost without an error | spans with a shared start are rejected, or the template never declares them | low, not executed | Fill.WrittenFillLosesSharedStart | Fill.CheckedRejectsSharedStart |
