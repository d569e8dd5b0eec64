/** The fingerprint identifier `identifyLicense`: scores every catalog entry
    by the fraction of its fingerprints found in the lower-cased normalized
    text and keeps a running best. */
module Identify {
  import opened Wrappers
  import opened Text
  import opened Normalizer
  import opened Catalog

  /** The source's `LicenseIdentification`. `confidence` is the exact ratio
      matchedFingerprints / totalFingerprints. */
  datatype Identification = Identification(
    license: LicenseEntry,
    confidence: real,
    matchedFingerprints: nat,
    totalFingerprints: nat)

  /** Fingerprint `fp` occurs, case-insensitively, in the lower-cased text. */
  predicate Hit(hay: string, fp: string) {
    Includes(hay, Lower(fp))
  }

  /** The positions of the fingerprints that occur in `hay`. */
  function HitIndices(hay: string, fps: seq<string>): set<nat> {
    set i: nat | i < |fps| && Hit(hay, fps[i])
  }

  /** The inner loop: how many fingerprints occur, each counted on its own. */
  function CountHits(hay: string, fps: seq<string>): (n: nat)
    ensures n == |HitIndices(hay, fps)|
    ensures n <= |fps|
  {
    if |fps| == 0 then
      assert HitIndices(hay, fps) == {};
      0
    else
      var k := |fps| - 1;
      var before := CountHits(hay, fps[..k]);
      var prev := HitIndices(hay, fps[..k]);
      if Hit(hay, fps[k]) then
        assert HitIndices(hay, fps) == prev + {k};
        before + 1
      else
        assert HitIndices(hay, fps) == prev;
        before
  }

  lemma NoHitsWhenCountZero(hay: string, fps: seq<string>)
    requires |HitIndices(hay, fps)| == 0
    ensures forall i :: 0 <= i < |fps| ==> !Hit(hay, fps[i])
  {
    assert HitIndices(hay, fps) == {};
    forall i | 0 <= i < |fps|
      ensures !Hit(hay, fps[i])
    {
      assert (i as nat) !in HitIndices(hay, fps);
    }
  }

  /** The entry lists at least one fingerprint that occurs in `hay`: the
      entries `identifyLicense` can return. */
  predicate IsCandidate(hay: string, e: LicenseEntry) {
    e.fingerprints.Some? &&
    exists i :: 0 <= i < |e.fingerprints.value| && Hit(hay, e.fingerprints.value[i])
  }

  /** The identification the loop body builds for one entry, if any. */
  function Score(hay: string, e: LicenseEntry): (r: Option<Identification>)
    ensures r.Some? <==> IsCandidate(hay, e)
    ensures r.Some? ==>
      && r.value.license == e
      && r.value.totalFingerprints == |e.fingerprints.value|
      && 1 <= r.value.matchedFingerprints <= r.value.totalFingerprints
      && r.value.matchedFingerprints == |HitIndices(hay, e.fingerprints.value)|
      && r.value.confidence == r.value.matchedFingerprints as real / r.value.totalFingerprints as real
  {
    if e.fingerprints.None? || |e.fingerprints.value| == 0 then None
    else
      var fps := e.fingerprints.value;
      var m := CountHits(hay, fps);
      if m > 0 then
        assert exists i :: i in HitIndices(hay, fps);
        Some(Identification(e, m as real / |fps| as real, m, |fps|))
      else
        NoHitsWhenCountZero(hay, fps);
        None
  }

  /** The replacement test of the loop: strictly higher confidence, or equal
      confidence and strictly more matched fingerprints. */
  predicate Beats(a: Identification, b: Identification) {
    || a.confidence > b.confidence
    || (a.confidence == b.confidence && a.matchedFingerprints > b.matchedFingerprints)
  }

  /** One iteration of the outer loop. */
  function Step(best: Option<Identification>, s: Option<Identification>): Option<Identification> {
    if s.Some? && (best.None? || Beats(s.value, best.value)) then s else best
  }

  /** The outer loop after the first |entries| iterations. */
  function IdentifyIn(hay: string, entries: seq<LicenseEntry>): (r: Option<Identification>)
    ensures r.Some? ==> r.value.license in entries && IsCandidate(hay, r.value.license)
  {
    if |entries| == 0 then None
    else
      var r := Step(IdentifyIn(hay, entries[..|entries| - 1]), Score(hay, entries[|entries| - 1]));
      assert r.Some? ==> r.value.license in entries;
      r
  }

  /** `identifyLicense(existing, licenses)`: the texts are compared after
      normalization and lower-casing. It names a license only when that
      entry is a candidate for the prepared text, and names none exactly
      when no entry is. */
  function IdentifyLicense(text: string, entries: seq<LicenseEntry>): (r: Option<Identification>)
    ensures r.Some? ==> r.value.license in entries && IsCandidate(Lower(Normalize(text)), r.value.license)
    ensures r.None? <==> forall i :: 0 <= i < |entries| ==> !IsCandidate(Lower(Normalize(text)), entries[i])
  {
    IdentifyNoneIff(Lower(Normalize(text)), entries);
    IdentifyIn(Lower(Normalize(text)), entries)
  }

  /** Identification ignores letter case: two texts that differ only in
      the case of their letters are identified alike. */
  lemma IdentifyIgnoresCase(t1: string, t2: string, entries: seq<LicenseEntry>)
    requires Lower(t1) == Lower(t2)
    ensures IdentifyLicense(t1, entries) == IdentifyLicense(t2, entries)
  {
    NormalizeLower(t1);
    NormalizeLower(t2);
  }

  /** Entry k is what the running best settles on: it beats every earlier
      candidate (earlier ties lose because replacement needs a strict
      improvement) and no later candidate beats it. */
  predicate IsFirstBest(hay: string, entries: seq<LicenseEntry>, k: int) {
    && 0 <= k < |entries|
    && IsCandidate(hay, entries[k])
    && (forall j :: 0 <= j < k && IsCandidate(hay, entries[j]) ==>
          Beats(Score(hay, entries[k]).value, Score(hay, entries[j]).value))
    && (forall j :: k < j < |entries| && IsCandidate(hay, entries[j]) ==>
          !Beats(Score(hay, entries[j]).value, Score(hay, entries[k]).value))
  }

  /** Beats is transitive. */
  lemma BeatsTransitive(a: Identification, b: Identification, c: Identification)
    requires Beats(a, b) && Beats(b, c)
    ensures Beats(a, c)
  {
  }

  /** What beats b also beats anything that does not beat b. */
  lemma BeatsOverNonBeater(a: Identification, b: Identification, x: Identification)
    requires Beats(a, b) && !Beats(x, b)
    ensures Beats(a, x)
  {
  }

  /** The scan finds nothing exactly when no entry is a candidate: entries
      without fingerprints, with an empty list, or with no occurring
      fingerprint are never returned. */
  lemma {:induction false} IdentifyNoneIff(hay: string, entries: seq<LicenseEntry>)
    ensures IdentifyIn(hay, entries).None? <==>
            forall i :: 0 <= i < |entries| ==> !IsCandidate(hay, entries[i])
  {
    if |entries| > 0 {
      var pre := entries[..|entries| - 1];
      IdentifyNoneIff(hay, pre);
      assert forall i :: 0 <= i < |pre| ==> pre[i] == entries[i];
    }
  }

  /** Appending an entry that does not beat the current best keeps it. */
  lemma KeepBest(hay: string, entries: seq<LicenseEntry>, k: int)
    requires |entries| > 0
    requires IsFirstBest(hay, entries[..|entries| - 1], k)
    requires IsCandidate(hay, entries[|entries| - 1]) ==>
             !Beats(Score(hay, entries[|entries| - 1]).value, Score(hay, entries[k]).value)
    ensures IsFirstBest(hay, entries, k)
  {
    var pre := entries[..|entries| - 1];
    assert forall i :: 0 <= i < |pre| ==> pre[i] == entries[i];
  }

  /** An appended candidate that beats the current best becomes the best. */
  lemma NewBest(hay: string, entries: seq<LicenseEntry>, k: int)
    requires |entries| > 0
    requires IsFirstBest(hay, entries[..|entries| - 1], k)
    requires IsCandidate(hay, entries[|entries| - 1])
    requires Beats(Score(hay, entries[|entries| - 1]).value, Score(hay, entries[k]).value)
    ensures IsFirstBest(hay, entries, |entries| - 1)
  {
    var n := |entries|;
    var pre := entries[..n - 1];
    assert forall i :: 0 <= i < |pre| ==> pre[i] == entries[i];
    var s := Score(hay, entries[n - 1]).value;
    var b := Score(hay, entries[k]).value;
    forall j | 0 <= j < n - 1 && IsCandidate(hay, entries[j])
      ensures Beats(s, Score(hay, entries[j]).value)
    {
      var sj := Score(hay, entries[j]).value;
      if j < k {
        assert pre[j] == entries[j];
        BeatsTransitive(s, b, sj);
      } else if j > k {
        assert pre[j] == entries[j];
        BeatsOverNonBeater(s, b, sj);
      }
    }
  }

  /** The first candidate of all becomes the best. */
  lemma FirstCandidate(hay: string, entries: seq<LicenseEntry>)
    requires |entries| > 0
    requires forall i :: 0 <= i < |entries| - 1 ==> !IsCandidate(hay, entries[i])
    requires IsCandidate(hay, entries[|entries| - 1])
    ensures IsFirstBest(hay, entries, |entries| - 1)
  {
  }

  /** The scan returns the score of the first entry that maximises
      (confidence, matched count) lexicographically. */
  lemma {:induction false} IdentifyPicksFirstBest(hay: string, entries: seq<LicenseEntry>)
    ensures IdentifyIn(hay, entries).Some? ==>
            exists k :: IsFirstBest(hay, entries, k) && IdentifyIn(hay, entries) == Score(hay, entries[k])
  {
    if |entries| > 0 {
      var n := |entries|;
      var pre := entries[..n - 1];
      var b := IdentifyIn(hay, pre);
      var s := Score(hay, entries[n - 1]);
      IdentifyPicksFirstBest(hay, pre);
      if b.None? {
        if s.Some? {
          IdentifyNoneIff(hay, pre);
          assert forall i :: 0 <= i < |pre| ==> pre[i] == entries[i];
          FirstCandidate(hay, entries);
        }
      } else {
        var k :| IsFirstBest(hay, pre, k) && b == Score(hay, pre[k]);
        assert pre[k] == entries[k];
        if s.Some? && Beats(s.value, b.value) {
          NewBest(hay, entries, k);
        } else {
          KeepBest(hay, entries, k);
        }
      }
    }
  }

  /** Comparing the exact confidences is comparing the fingerprint counts
      by cross-multiplication, so equal ratios such as 1/2 and 2/4 tie on
      confidence and are separated only by the matched count. */
  lemma ConfidenceByCrossMultiplication(a: Identification, b: Identification)
    requires a.totalFingerprints > 0 && b.totalFingerprints > 0
    requires a.confidence == a.matchedFingerprints as real / a.totalFingerprints as real
    requires b.confidence == b.matchedFingerprints as real / b.totalFingerprints as real
    ensures a.confidence > b.confidence <==>
            a.matchedFingerprints * b.totalFingerprints > b.matchedFingerprints * a.totalFingerprints
    ensures a.confidence == b.confidence <==>
            a.matchedFingerprints * b.totalFingerprints == b.matchedFingerprints * a.totalFingerprints
  {
    var ma, ta := a.matchedFingerprints as real, a.totalFingerprints as real;
    var mb, tb := b.matchedFingerprints as real, b.totalFingerprints as real;
    assert ma == a.confidence * ta;
    assert mb == b.confidence * tb;
    assert ma * tb - mb * ta == (a.confidence - b.confidence) * (ta * tb);
    assert ta * tb > 0.0;
    assert (a.matchedFingerprints * b.totalFingerprints) as real == ma * tb;
    assert (b.matchedFingerprints * a.totalFingerprints) as real == mb * ta;
  }
}
