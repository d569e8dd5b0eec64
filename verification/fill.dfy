/** The offset template filler `applyTemplate`: replaces each span of the
    canonical text by its field's value, rightmost span first so that the
    offsets of the spans still to come stay valid. */
module Fill {
  import opened Wrappers
  import opened Catalog

  /** `s.slice(0, n)` for n >= 0: clamps at the end of the string. */
  function SliceTo(s: string, n: nat): string {
    if n <= |s| then s[..n] else s
  }

  /** `s.slice(n)`: a negative n counts from the end, and offsets past
      either end are clamped. */
  function SliceFrom(s: string, n: int): string {
    if n < 0 then (if |s| + n < 0 then s else s[|s| + n..])
    else if n <= |s| then s[n..]
    else ""
  }

  /** Spans listed by non-increasing start. */
  predicate SortedDesc(o: seq<Replacement>) {
    forall i, j :: 0 <= i < j < |o| ==> o[i].start >= o[j].start
  }

  /** The spans of `s` whose start is `v`, in their order in `s`. */
  function WithStart(s: seq<Replacement>, v: int): seq<Replacement> {
    if |s| == 0 then []
    else (if s[0].start == v then [s[0]] else []) + WithStart(s[1..], v)
  }

  /** Every element of a list whose multiset is `m` starts no later than
      `bound` when every element of `m` does. */
  lemma BoundedByMultiset(r: seq<Replacement>, m: multiset<Replacement>, bound: int)
    requires multiset(r) == m
    requires forall y :: y in m ==> y.start <= bound
    ensures forall k :: 0 <= k < |r| ==> r[k].start <= bound
  {
    forall k | 0 <= k < |r|
      ensures r[k].start <= bound
    {
      assert r[k] in multiset(r);
    }
  }

  lemma SortedTail(t: seq<Replacement>)
    requires SortedDesc(t) && |t| > 0
    ensures SortedDesc(t[1..])
  {
    forall i, j | 0 <= i < j < |t| - 1
      ensures t[1..][i].start >= t[1..][j].start
    {
      assert t[1..][i] == t[i + 1] && t[1..][j] == t[j + 1];
    }
  }

  lemma SortedCons(h: Replacement, r: seq<Replacement>)
    requires SortedDesc(r)
    requires |r| == 0 || r[0].start <= h.start
    ensures SortedDesc([h] + r)
  {
    var s := [h] + r;
    forall i, j | 0 <= i < j < |s|
      ensures s[i].start >= s[j].start
    {
      assert s[j] == r[j - 1];
      if i > 0 {
        assert s[i] == r[i - 1];
      } else if j > 1 {
        assert r[0].start >= r[j - 1].start;
      }
    }
  }

  /** Inserts `x` into a list sorted by descending start, ahead of the
      entries whose start is not greater than its own. */
  function Insert(x: Replacement, t: seq<Replacement>): seq<Replacement> {
    if |t| == 0 || x.start >= t[0].start then [x] + t
    else [t[0]] + Insert(x, t[1..])
  }

  /** `[...replacements].sort((a, b) => b.start - a.start)`: a stable sort by
      descending start (insertion sort from the back). */
  function SortDesc(s: seq<Replacement>): seq<Replacement> {
    if |s| == 0 then [] else Insert(s[0], SortDesc(s[1..]))
  }

  /** Insertion adds exactly the one element. */
  lemma {:induction false} InsertPerm(x: Replacement, t: seq<Replacement>)
    ensures multiset(Insert(x, t)) == multiset{x} + multiset(t)
  {
    if |t| > 0 && x.start < t[0].start {
      InsertPerm(x, t[1..]);
      assert t == [t[0]] + t[1..];
    }
  }

  /** Insertion into a sorted list keeps it sorted. */
  lemma {:induction false} InsertSorted(x: Replacement, t: seq<Replacement>)
    requires SortedDesc(t)
    ensures SortedDesc(Insert(x, t))
  {
    if |t| == 0 || x.start >= t[0].start {
      SortedCons(x, t);
    } else {
      SortedTail(t);
      InsertSorted(x, t[1..]);
      var rest := Insert(x, t[1..]);
      assert rest[0].start <= t[0].start by {
        InsertPerm(x, t[1..]);
        assert multiset(t) == multiset{t[0]} + multiset(t[1..]) by {
          assert t == [t[0]] + t[1..];
        }
        BoundedByMultiset(rest, multiset{x} + multiset(t[1..]), t[0].start);
      }
      SortedCons(t[0], rest);
    }
  }

  /** The sort returns a rearrangement of its input. */
  lemma {:induction false} SortDescPerm(s: seq<Replacement>)
    ensures multiset(SortDesc(s)) == multiset(s)
    ensures |SortDesc(s)| == |s|
  {
    if |s| > 0 {
      SortDescPerm(s[1..]);
      InsertPerm(s[0], SortDesc(s[1..]));
      assert s == [s[0]] + s[1..];
    }
  }

  /** The sort orders by non-increasing start. */
  lemma {:induction false} SortDescSorted(s: seq<Replacement>)
    ensures SortedDesc(SortDesc(s))
  {
    if |s| > 0 {
      SortDescSorted(s[1..]);
      InsertSorted(s[0], SortDesc(s[1..]));
    }
  }

  /** The value `values[field]` when it is present and truthy (non-empty). */
  predicate HasValue(values: map<string, string>, field: string) {
    field in values && values[field] != ""
  }

  /** The loop of `applyTemplate` over the already ordered spans. */
  function ApplyAll(text: string, o: seq<Replacement>, values: map<string, string>, spdx: string)
    : (r: Result<string, LicenseError>)
    ensures r.Failure? ==> r.error.MissingValue? || r.error == OffsetsOutOfRange(spdx)
    ensures r.Failure? && r.error.MissingValue? ==>
            exists i :: 0 <= i < |o| && o[i].field == r.error.field && !HasValue(values, o[i].field)
    decreases |o|
  {
    if |o| == 0 then Success(text)
    else
      var sp := o[0];
      if !HasValue(values, sp.field) then Failure(MissingValue(sp.field))
      else if sp.start < 0 || sp.end > |text| then Failure(OffsetsOutOfRange(spdx))
      else
        var r := ApplyAll(SliceTo(text, sp.start) + values[sp.field] + SliceFrom(text, sp.end),
                          o[1..], values, spdx);
        assert forall i :: 0 <= i < |o| - 1 ==> o[1..][i] == o[i + 1];
        r
  }

  /** The spans an entry declares; a missing template or list is empty. */
  function Replacements(license: LicenseEntry): seq<Replacement> {
    if license.template.Some? then license.template.value.replacements else []
  }

  /** `applyTemplate(text, license, values)`. */
  function ApplyTemplate(text: string, license: LicenseEntry, values: map<string, string>)
    : (r: Result<string, LicenseError>)
    ensures |Replacements(license)| == 0 ==> r == Success(text)
    ensures r.Failure? && r.error.MissingValue? ==>
            exists s :: s in Replacements(license) && s.field == r.error.field && !HasValue(values, s.field)
  {
    var reps := Replacements(license);
    if |reps| == 0 then Success(text)
    else
      var o := SortDesc(reps);
      var r := ApplyAll(text, o, values, license.spdx);
      SortDescPerm(reps);
      assert forall i :: 0 <= i < |o| ==> o[i] in multiset(o);
      r
  }

  // ---------------------------------------------------------------------
  // The ordering: a stable sort

  lemma {:induction false} InsertStable(x: Replacement, t: seq<Replacement>, v: int)
    ensures WithStart(Insert(x, t), v) == (if x.start == v then [x] else []) + WithStart(t, v)
  {
    if |t| == 0 || x.start >= t[0].start {
      assert ([x] + t)[0] == x && ([x] + t)[1..] == t;
    } else {
      var rest := Insert(x, t[1..]);
      var hx: seq<Replacement> := if x.start == v then [x] else [];
      var ht: seq<Replacement> := if t[0].start == v then [t[0]] else [];
      assert WithStart(Insert(x, t), v) == ht + WithStart(rest, v) by {
        assert ([t[0]] + rest)[0] == t[0] && ([t[0]] + rest)[1..] == rest;
      }
      InsertStable(x, t[1..], v);
      assert hx == [] || ht == [];
      assert ht + (hx + WithStart(t[1..], v)) == hx + (ht + WithStart(t[1..], v));
    }
  }

  /** The sort is stable: the spans sharing any one start keep their
      catalog order. */
  lemma {:induction false} SortDescStable(s: seq<Replacement>, v: int)
    ensures WithStart(SortDesc(s), v) == WithStart(s, v)
  {
    if |s| > 0 {
      SortDescStable(s[1..], v);
      InsertStable(s[0], SortDesc(s[1..]), v);
    }
  }

  // ---------------------------------------------------------------------
  // Well-formed spans and the reference result

  /** Each span lies inside the part of the text left of the span visited
      before it (inside the whole text for the first), so applying them in
      order never touches text an earlier step wrote. */
  predicate ChainWithin(o: seq<Replacement>, limit: int)
    decreases |o|
  {
    |o| == 0 ||
    (0 <= o[0].start <= o[0].end <= limit && ChainWithin(o[1..], o[0].start))
  }

  /** Every span's field has a usable value. */
  predicate AllValues(o: seq<Replacement>, values: map<string, string>) {
    forall i :: 0 <= i < |o| ==> HasValue(values, o[i].field)
  }

  /** The intended fill of right-to-left ordered spans: the fill of the
      text before the rightmost span, then that span's value, then the text
      after the span copied verbatim. */
  function Spliced(text: string, o: seq<Replacement>, values: map<string, string>): string
    requires ChainWithin(o, |text|) && AllValues(o, values)
    decreases |o|
  {
    if |o| == 0 then text
    else Spliced(text[..o[0].start], o[1..], values) + values[o[0].field] + text[o[0].end..]
  }

  /** Text appended after every span passes through the reference fill. */
  lemma SplicedAppend(p: string, q: string, o: seq<Replacement>, values: map<string, string>)
    requires ChainWithin(o, |p|) && AllValues(o, values)
    ensures ChainWithin(o, |p + q|)
    ensures Spliced(p + q, o, values) == Spliced(p, o, values) + q
  {
    if |o| > 0 {
      assert (p + q)[..o[0].start] == p[..o[0].start];
      assert (p + q)[o[0].end..] == p[o[0].end..] + q;
    }
  }

  /** For right-to-left ordered spans with values, the loop produces the
      reference fill. */
  lemma {:induction false} ApplyAllClean(text: string, o: seq<Replacement>,
                                         values: map<string, string>, spdx: string)
    requires ChainWithin(o, |text|) && AllValues(o, values)
    ensures ApplyAll(text, o, values, spdx) == Success(Spliced(text, o, values))
    decreases |o|
  {
    if |o| > 0 {
      var sp := o[0];
      var p := text[..sp.start];
      var q := values[sp.field] + text[sp.end..];
      assert SliceTo(text, sp.start) + values[sp.field] + SliceFrom(text, sp.end) == p + q;
      assert AllValues(o[1..], values) by {
        assert forall i :: 0 <= i < |o| - 1 ==> o[1..][i] == o[i + 1];
      }
      SplicedAppend(p, q, o[1..], values);
      ApplyAllClean(p + q, o[1..], values, spdx);
      calc {
        Spliced(text, o, values);
        Spliced(p, o[1..], values) + values[sp.field] + text[sp.end..];
        Spliced(p, o[1..], values) + q;
        Spliced(p + q, o[1..], values);
      }
    }
  }

  /** Two spans that neither share a start nor overlap. */
  predicate Compatible(a: Replacement, b: Replacement) {
    a.start != b.start && (a.end <= b.start || b.end <= a.start)
  }

  /** No two spans of the list clash. */
  predicate Pairwise(s: seq<Replacement>) {
    forall i, j :: 0 <= i < j < |s| ==> Compatible(s[i], s[j])
  }

  /** The catalog's invariant for a text: every span within the text with
      start <= end, no two spans overlapping, no two sharing a start. */
  predicate WellFormed(text: string, reps: seq<Replacement>) {
    && (forall i :: 0 <= i < |reps| ==> 0 <= reps[i].start <= reps[i].end <= |text|)
    && Pairwise(reps)
  }

  lemma PairwiseCons(h: Replacement, r: seq<Replacement>)
    requires Pairwise(r)
    requires forall y :: y in r ==> Compatible(h, y)
    ensures Pairwise([h] + r)
  {
    var s := [h] + r;
    forall i, j | 0 <= i < j < |s|
      ensures Compatible(s[i], s[j])
    {
      assert s[j] == r[j - 1];
      if i > 0 {
        assert s[i] == r[i - 1];
      }
    }
  }

  lemma PairwiseTail(s: seq<Replacement>)
    requires Pairwise(s) && |s| > 0
    ensures Pairwise(s[1..])
    ensures forall y :: y in s[1..] ==> Compatible(s[0], y)
  {
    forall i, j | 0 <= i < j < |s| - 1
      ensures Compatible(s[1..][i], s[1..][j])
    {
      assert s[1..][i] == s[i + 1] && s[1..][j] == s[j + 1];
    }
    forall y | y in s[1..]
      ensures Compatible(s[0], y)
    {
      var k :| 0 <= k < |s| - 1 && s[1..][k] == y;
      assert s[k + 1] == y;
    }
  }

  /** The elements of an insertion are the new one and the old ones. */
  lemma {:induction false} InsertMembers(x: Replacement, t: seq<Replacement>)
    ensures forall y :: y in Insert(x, t) <==> y == x || y in t
  {
    if |t| > 0 && x.start < t[0].start {
      InsertMembers(x, t[1..]);
      assert t == [t[0]] + t[1..];
    }
  }

  lemma {:induction false} InsertCompatible(x: Replacement, t: seq<Replacement>)
    requires Pairwise(t)
    requires forall y :: y in t ==> Compatible(x, y)
    ensures Pairwise(Insert(x, t))
  {
    if |t| == 0 || x.start >= t[0].start {
      PairwiseCons(x, t);
    } else {
      var rest := Insert(x, t[1..]);
      PairwiseTail(t);
      assert forall y :: y in t[1..] ==> y in t;
      InsertCompatible(x, t[1..]);
      InsertMembers(x, t[1..]);
      assert Compatible(x, t[0]);
      PairwiseCons(t[0], rest);
    }
  }

  lemma {:induction false} SortCompatible(s: seq<Replacement>)
    requires Pairwise(s)
    ensures Pairwise(SortDesc(s))
  {
    if |s| > 0 {
      PairwiseTail(s);
      SortCompatible(s[1..]);
      var t := SortDesc(s[1..]);
      SortDescPerm(s[1..]);
      forall y | y in t
        ensures Compatible(s[0], y)
      {
        assert y in multiset(t);
      }
      InsertCompatible(s[0], t);
    }
  }

  lemma {:induction false} ChainFromSorted(o: seq<Replacement>, limit: int)
    requires SortedDesc(o)
    requires Pairwise(o)
    requires forall i :: 0 <= i < |o| ==> 0 <= o[i].start <= o[i].end
    requires |o| > 0 ==> o[0].end <= limit
    ensures ChainWithin(o, limit)
    decreases |o|
  {
    if |o| > 0 {
      if |o| > 1 {
        assert Compatible(o[0], o[1]);
      }
      ChainFromSorted(o[1..], o[0].start);
    }
  }

  /** Spans satisfying the catalog's invariant, once sorted, are right to
      left ordered inside the text. */
  lemma WellFormedSortsToChain(text: string, reps: seq<Replacement>)
    requires WellFormed(text, reps)
    ensures ChainWithin(SortDesc(reps), |text|)
  {
    var o := SortDesc(reps);
    SortCompatible(reps);
    SortDescPerm(reps);
    SortDescSorted(reps);
    forall i | 0 <= i < |o|
      ensures 0 <= o[i].start <= o[i].end <= |text|
    {
      assert o[i] in multiset(o);
    }
    ChainFromSorted(o, |text|);
  }

  // ---------------------------------------------------------------------
  // The properties of applyTemplate

  /** With well-formed spans and a value for every field, the fill replaces
      each span by its value and copies the text around the spans
      verbatim and in order. */
  lemma FillWellFormed(text: string, license: LicenseEntry, values: map<string, string>)
    requires WellFormed(text, Replacements(license))
    requires forall sp :: sp in Replacements(license) ==> HasValue(values, sp.field)
    ensures ChainWithin(SortDesc(Replacements(license)), |text|)
    ensures AllValues(SortDesc(Replacements(license)), values)
    ensures ApplyTemplate(text, license, values) ==
            Success(Spliced(text, SortDesc(Replacements(license)), values))
  {
    var reps := Replacements(license);
    var o := SortDesc(reps);
    WellFormedSortsToChain(text, reps);
    SortDescPerm(reps);
    forall i | 0 <= i < |o|
      ensures HasValue(values, o[i].field)
    {
      assert o[i] in multiset(o);
    }
    if |reps| > 0 {
      ApplyAllClean(text, o, values, license.spdx);
    }
  }

  /** One span: the text before it, the value, the text after it. */
  lemma FillOneSpan(text: string, license: LicenseEntry, sp: Replacement, v: string)
    requires Replacements(license) == [sp]
    requires 0 <= sp.start <= sp.end <= |text|
    requires v != ""
    ensures ApplyTemplate(text, license, map[sp.field := v]) ==
            Success(text[..sp.start] + v + text[sp.end..])
  {
    var o := SortDesc([sp]);
    SortOne(sp);
    ApplyAllClean(text, o, map[sp.field := v], license.spdx);
  }

  /** A span without a value anywhere in the list makes the whole fill
      fail: no partially filled text is ever returned. */
  lemma {:induction false} ApplyAllMissingFails(text: string, o: seq<Replacement>,
                                                values: map<string, string>, spdx: string, k: int)
    requires 0 <= k < |o| && !HasValue(values, o[k].field)
    ensures ApplyAll(text, o, values, spdx).Failure?
    decreases |o|
  {
    if k > 0 && HasValue(values, o[0].field) && !(o[0].start < 0 || o[0].end > |text|) {
      var sp := o[0];
      ApplyAllMissingFails(SliceTo(text, sp.start) + values[sp.field] + SliceFrom(text, sp.end),
                           o[1..], values, spdx, k - 1);
    }
  }

  lemma MissingValueFails(text: string, license: LicenseEntry, values: map<string, string>,
                          sp: Replacement)
    requires sp in Replacements(license) && !HasValue(values, sp.field)
    ensures ApplyTemplate(text, license, values).Failure?
  {
    var o := SortDesc(Replacements(license));
    SortDescPerm(Replacements(license));
    assert sp in multiset(o);
    var k :| 0 <= k < |o| && o[k] == sp;
    ApplyAllMissingFails(text, o, values, license.spdx, k);
  }

  /** With right-to-left ordered spans, the error is the missing value of
      the first span in visiting order that lacks one. */
  lemma {:induction false} ApplyAllFirstMissing(text: string, o: seq<Replacement>,
                                                values: map<string, string>, spdx: string, k: int)
    requires ChainWithin(o, |text|)
    requires 0 <= k < |o| && !HasValue(values, o[k].field)
    requires forall i :: 0 <= i < k ==> HasValue(values, o[i].field)
    ensures ApplyAll(text, o, values, spdx) == Failure(MissingValue(o[k].field))
    decreases |o|
  {
    if k > 0 {
      var sp := o[0];
      var next := SliceTo(text, sp.start) + values[sp.field] + SliceFrom(text, sp.end);
      assert next == text[..sp.start] + values[sp.field] + text[sp.end..];
      assert ChainWithin(o[1..], |next|) by {
        ChainWeaken(o[1..], sp.start, |next|);
      }
      ApplyAllFirstMissing(next, o[1..], values, spdx, k - 1);
    }
  }

  lemma ChainWeaken(o: seq<Replacement>, limit: int, bigger: int)
    requires ChainWithin(o, limit) && limit <= bigger
    ensures ChainWithin(o, bigger)
  {
  }

  /** Filling well-formed spans fails exactly at the first span, in
      descending start order, whose field has no value. */
  lemma FillFirstMissing(text: string, license: LicenseEntry, values: map<string, string>, k: int)
    requires WellFormed(text, Replacements(license))
    requires 0 <= k < |SortDesc(Replacements(license))|
    requires !HasValue(values, SortDesc(Replacements(license))[k].field)
    requires forall i :: 0 <= i < k ==> HasValue(values, SortDesc(Replacements(license))[i].field)
    ensures ApplyTemplate(text, license, values) ==
            Failure(MissingValue(SortDesc(Replacements(license))[k].field))
  {
    WellFormedSortsToChain(text, Replacements(license));
    ApplyAllFirstMissing(text, SortDesc(Replacements(license)), values, license.spdx, k);
  }

  /** With every value present, a span with a negative start always ends
      the fill with the out-of-range error. */
  lemma {:induction false} ApplyAllNegativeStart(text: string, o: seq<Replacement>,
                                                 values: map<string, string>, spdx: string, k: int)
    requires AllValues(o, values)
    requires 0 <= k < |o| && o[k].start < 0
    ensures ApplyAll(text, o, values, spdx) == Failure(OffsetsOutOfRange(spdx))
    decreases |o|
  {
    if k > 0 && !(o[0].start < 0 || o[0].end > |text|) {
      var sp := o[0];
      ApplyAllNegativeStart(SliceTo(text, sp.start) + values[sp.field] + SliceFrom(text, sp.end),
                            o[1..], values, spdx, k - 1);
    }
  }

  lemma NegativeStartFails(text: string, license: LicenseEntry, values: map<string, string>,
                           sp: Replacement)
    requires forall s :: s in Replacements(license) ==> HasValue(values, s.field)
    requires sp in Replacements(license) && sp.start < 0
    ensures ApplyTemplate(text, license, values) == Failure(OffsetsOutOfRange(license.spdx))
  {
    var o := SortDesc(Replacements(license));
    SortDescPerm(Replacements(license));
    assert sp in multiset(o);
    var k :| 0 <= k < |o| && o[k] == sp;
    forall i | 0 <= i < |o|
      ensures HasValue(values, o[i].field)
    {
      assert o[i] in multiset(o);
    }
    ApplyAllNegativeStart(text, o, values, license.spdx, k);
  }

  /** The text the loop of `applyTemplate` holds after visiting `o`: each
      span spliced into the text the step before it left, with no check. */
  function Stepped(text: string, o: seq<Replacement>, values: map<string, string>): string
    requires AllValues(o, values)
    requires forall i :: 0 <= i < |o| ==> o[i].start >= 0
    decreases |o|
  {
    if |o| == 0 then text
    else Stepped(SliceTo(text, o[0].start) + values[o[0].field] + SliceFrom(text, o[0].end), o[1..], values)
  }

  /** Span `k` of the visiting order ends past the text the loop holds when
      it gets there, and every span before it passed the range check. */
  predicate EndPastAt(text: string, o: seq<Replacement>, values: map<string, string>, k: int) {
    && AllValues(o, values)
    && 0 <= k < |o|
    && (forall i :: 0 <= i < k ==> 0 <= o[i].start)
    && (forall i :: 0 <= i < k ==> o[i].end <= |Stepped(text, o[..i], values)|)
    && o[k].end > |Stepped(text, o[..k], values)|
  }

  /** As written, the range check measures each end against the partly
      filled text: with every value present, the first span whose end lies
      past that text ends the fill with the out-of-range error. */
  lemma {:induction false} ApplyAllEndPastFails(text: string, o: seq<Replacement>,
                                                values: map<string, string>, spdx: string, k: int)
    requires EndPastAt(text, o, values, k)
    ensures ApplyAll(text, o, values, spdx) == Failure(OffsetsOutOfRange(spdx))
    decreases |o|
  {
    assert o[..0] == [];
    if k > 0 {
      var sp := o[0];
      var next := SliceTo(text, sp.start) + values[sp.field] + SliceFrom(text, sp.end);
      assert sp.end <= |text| by {
        assert sp.end <= |Stepped(text, o[..0], values)|;
      }
      forall i | 0 <= i <= k - 1
        ensures Stepped(next, o[1..][..i], values) == Stepped(text, o[..i + 1], values)
      {
        assert o[..i + 1][0] == sp && o[..i + 1][1..] == o[1..][..i];
      }
      ApplyAllEndPastFails(next, o[1..], values, spdx, k - 1);
    }
  }

  lemma EndPastTextFails(text: string, license: LicenseEntry, values: map<string, string>, k: int)
    requires EndPastAt(text, SortDesc(Replacements(license)), values, k)
    ensures ApplyTemplate(text, license, values) == Failure(OffsetsOutOfRange(license.spdx))
  {
    SortDescPerm(Replacements(license));
    ApplyAllEndPastFails(text, SortDesc(Replacements(license)), values, license.spdx, k);
  }

  /** The simplest case: with every value present, a first span in sorted
      order that ends past the template text is out of range. */
  lemma FirstEndPastTextFails(text: string, license: LicenseEntry, values: map<string, string>)
    requires forall s :: s in Replacements(license) ==> HasValue(values, s.field)
    requires |Replacements(license)| > 0
    requires SortDesc(Replacements(license))[0].end > |text|
    ensures ApplyTemplate(text, license, values) == Failure(OffsetsOutOfRange(license.spdx))
  {
    var o := SortDesc(Replacements(license));
    SortDescPerm(Replacements(license));
    forall i | 0 <= i < |o|
      ensures HasValue(values, o[i].field)
    {
      assert o[i] in multiset(o);
    }
    assert o[..0] == [];
    EndPastTextFails(text, license, values, 0);
  }

  lemma SortOne(x: Replacement)
    ensures SortDesc([x]) == [x]
  {
    assert [x][1..] == [];
  }

  lemma SortTwo(a: Replacement, b: Replacement)
    requires a.start < b.start
    ensures SortDesc([a, b]) == [b, a]
  {
    assert [a, b][1..] == [b];
    SortOne(b);
    assert Insert(a, [b]) == [b] + Insert(a, [b][1..]);
    assert [b][1..] == [];
  }

  /** Two visited spans: the loop splices the first, then the second. */
  lemma ApplyTwo(text: string, a: Replacement, b: Replacement, values: map<string, string>,
                 spdx: string, mid: string, done: string)
    requires HasValue(values, a.field) && HasValue(values, b.field)
    requires 0 <= a.start && a.end <= |text|
    requires mid == SliceTo(text, a.start) + values[a.field] + SliceFrom(text, a.end)
    requires 0 <= b.start && b.end <= |mid|
    requires done == SliceTo(mid, b.start) + values[b.field] + SliceFrom(mid, b.end)
    ensures ApplyAll(text, [a, b], values, spdx) == Success(done)
  {
    assert [a, b][1..] == [b];
    assert [b][1..] == [];
    assert ApplyAll(done, [], values, spdx) == Success(done);
    assert ApplyAll(mid, [b], values, spdx) == ApplyAll(done, [], values, spdx);
    assert ApplyAll(text, [a, b], values, spdx) == ApplyAll(mid, [b], values, spdx);
  }

  /** The unit-test case: two placeholders filled right to left. */
  lemma FillCopyrightExample()
    ensures ApplyTemplate(
              "Copyright (c) <year> <owner>",
              LicenseEntry("MIT", "MIT License", "https://example.com/mit", None, None,
                           Some(Template(["years", "name"],
                                         [Replacement("years", 14, 20), Replacement("name", 21, 28)])),
                           None),
              map["years" := "2024", "name" := "Jane Doe"])
            == Success("Copyright (c) 2024 Jane Doe")
  {
    var text := "Copyright (c) <year> <owner>";
    var y, n := Replacement("years", 14, 20), Replacement("name", 21, 28);
    var values := map["years" := "2024", "name" := "Jane Doe"];
    SortTwo(y, n);
    var mid := "Copyright (c) <year> Jane Doe";
    var done := "Copyright (c) 2024 Jane Doe";
    assert SliceTo(text, 21) + "Jane Doe" + SliceFrom(text, 28) == mid;
    assert SliceTo(mid, 14) + "2024" + SliceFrom(mid, 20) == done;
    ApplyTwo(text, n, y, values, "MIT", mid, done);
  }

  // ---------------------------------------------------------------------
  // The offset check against the text the spans were written for

  /** The fill loop with the check the catalog's invariant asks for: each
      span must satisfy 0 <= start <= end <= limit, where limit is the
      length of the original text for the first span and the start of the
      previous span afterwards, i.e. the part of the text not yet rewritten. */
  function ApplyAllChecked(text: string, o: seq<Replacement>, values: map<string, string>,
                           spdx: string, limit: int): (r: Result<string, LicenseError>)
    requires limit <= |text|
    ensures r.Success? <==> AllValues(o, values) && ChainWithin(o, limit)
    ensures r.Success? ==> r.value == Spliced(text, o, values)
    decreases |o|
  {
    if |o| == 0 then Success(text)
    else
      var sp := o[0];
      if !HasValue(values, sp.field) then Failure(MissingValue(sp.field))
      else if sp.start < 0 || sp.start > sp.end || sp.end > limit then Failure(OffsetsOutOfRange(spdx))
      else
        var p := text[..sp.start];
        var q := values[sp.field] + text[sp.end..];
        var r := ApplyAllChecked(p + q, o[1..], values, spdx, sp.start);
        assert AllValues(o, values) <==> AllValues(o[1..], values) by {
          assert forall i :: 0 <= i < |o| - 1 ==> o[1..][i] == o[i + 1];
          assert forall i :: 0 < i < |o| ==> o[i] == o[1..][i - 1];
        }
        if r.Success? then
          SplicedAppend(p, q, o[1..], values);
          r
        else r
  }

  /** `applyTemplate` with the corrected offset check. */
  function ApplyTemplateChecked(text: string, license: LicenseEntry, values: map<string, string>)
    : (r: Result<string, LicenseError>)
    ensures r.Success? <==>
            AllValues(SortDesc(Replacements(license)), values) &&
            ChainWithin(SortDesc(Replacements(license)), |text|)
    ensures r.Success? ==> r.value == Spliced(text, SortDesc(Replacements(license)), values)
  {
    var reps := Replacements(license);
    if |reps| == 0 then Success(text)
    else ApplyAllChecked(text, SortDesc(reps), values, license.spdx, |text|)
  }

  /** The corrected check never lets a span outside the original text
      through: a successful fill had every span inside [0, |text|]. */
  lemma CheckedFillSpansInText(text: string, license: LicenseEntry, values: map<string, string>)
    requires ApplyTemplateChecked(text, license, values).Success?
    ensures forall sp :: sp in Replacements(license) ==> 0 <= sp.start <= sp.end <= |text|
  {
    var o := SortDesc(Replacements(license));
    SortDescPerm(Replacements(license));
    ChainInside(o, |text|);
    forall sp | sp in Replacements(license)
      ensures 0 <= sp.start <= sp.end <= |text|
    {
      assert sp in multiset(o);
    }
  }

  lemma {:induction false} ChainInside(o: seq<Replacement>, limit: int)
    requires ChainWithin(o, limit)
    ensures forall i :: 0 <= i < |o| ==> 0 <= o[i].start <= o[i].end <= limit
    decreases |o|
  {
    if |o| > 0 {
      ChainInside(o[1..], o[0].start);
      assert forall i :: 0 < i < |o| ==> o[i] == o[1..][i - 1];
    }
  }

  /** On spans satisfying the catalog's invariant the corrected fill and
      the fill as written agree. */
  lemma CheckedAgreesOnWellFormed(text: string, license: LicenseEntry, values: map<string, string>)
    requires WellFormed(text, Replacements(license))
    requires forall sp :: sp in Replacements(license) ==> HasValue(values, sp.field)
    ensures ApplyTemplateChecked(text, license, values) == ApplyTemplate(text, license, values)
  {
    FillWellFormed(text, license, values);
  }

  /** An entry for the 4-character text "abcd" with an empty span at
      offset 3 and a span [1, 6) that reaches past the end of the text. */
  const PastTextEntry := LicenseEntry("MIT", "MIT", "x", None, None,
    Some(Template(["a", "b"], [Replacement("a", 3, 3), Replacement("b", 1, 6)])), None)
  const PastTextValues := map["a" := "xyz", "b" := "Q"]

  lemma SortKeeps(a: Replacement, b: Replacement)
    requires a.start >= b.start
    ensures SortDesc([a, b]) == [a, b]
  {
    assert [a, b][1..] == [b];
    SortOne(b);
  }

  /** The check as written compares `end` with the partially filled text:
      after the span at offset 3 has inserted "xyz", the span [1, 6) of the
      4-character text "abcd" passes, and the value of the first field is
      overwritten. */
  lemma WrittenCheckAcceptsSpanPastText()
    ensures ApplyTemplate("abcd", PastTextEntry, PastTextValues) == Success("aQd")
  {
    var a, b := Replacement("a", 3, 3), Replacement("b", 1, 6);
    SortKeeps(a, b);
    var mid := "abcxyzd";
    assert SliceTo("abcd", 3) + "xyz" + SliceFrom("abcd", 3) == mid;
    assert SliceTo(mid, 1) + "Q" + SliceFrom(mid, 6) == "aQd";
    ApplyTwo("abcd", a, b, PastTextValues, "MIT", mid, "aQd");
  }

  /** The corrected check rejects the same input. */
  lemma CheckedRejectsSpanPastText()
    ensures ApplyTemplateChecked("abcd", PastTextEntry, PastTextValues) == Failure(OffsetsOutOfRange("MIT"))
  {
    var a, b := Replacement("a", 3, 3), Replacement("b", 1, 6);
    SortKeeps(a, b);
    assert !ChainWithin([a, b], 4) by {
      assert [a, b][1..] == [b];
    }
  }

  /** The range check rejects a negative start only: a negative end passes
      and `slice` counts it from the back, so [2, -1) in "abcd" replaces
      "c". */
  lemma NegativeEndCountsFromBack()
    ensures ApplyTemplate("abcd", LicenseEntry("MIT", "MIT", "x", None, None,
              Some(Template(["a"], [Replacement("a", 2, -1)])), None), map["a" := "X"])
            == Success("abXd")
  {
    var sp := Replacement("a", 2, -1);
    SortOne(sp);
    assert SliceTo("abcd", 2) + "X" + SliceFrom("abcd", -1) == "abXd";
  }

  /** Two fields whose spans start at the same offset: an empty span for
      "a" and the span [1, 3) for "b". */
  const SharedStartEntry := LicenseEntry("MIT", "MIT", "x", None, None,
    Some(Template(["a", "b"], [Replacement("a", 1, 1), Replacement("b", 1, 3)])), None)
  const SharedStartValues := map["a" := "X", "b" := "Y"]

  /** Sorting by start alone keeps the two spans in template order, so the
      insertion for "a" happens first and the span for "b", still read in
      the original text's offsets, then covers "X" instead of "bc": the
      value of "a" is lost and "c" survives. */
  lemma WrittenFillLosesSharedStart()
    ensures ApplyTemplate("abcd", SharedStartEntry, SharedStartValues) == Success("aYcd")
  {
    var a, b := Replacement("a", 1, 1), Replacement("b", 1, 3);
    SortKeeps(a, b);
    var mid := "aXbcd";
    assert SliceTo("abcd", 1) + "X" + SliceFrom("abcd", 1) == mid;
    assert SliceTo(mid, 1) + "Y" + SliceFrom(mid, 3) == "aYcd";
    ApplyTwo("abcd", a, b, SharedStartValues, "MIT", mid, "aYcd");
  }

  /** The corrected fill rejects the same input: the span filled second
      ends after the start of the one filled first. */
  lemma CheckedRejectsSharedStart()
    ensures ApplyTemplateChecked("abcd", SharedStartEntry, SharedStartValues) == Failure(OffsetsOutOfRange("MIT"))
  {
    var a, b := Replacement("a", 1, 1), Replacement("b", 1, 3);
    SortKeeps(a, b);
    assert !ChainWithin([a, b], 4) by {
      assert [a, b][1..] == [b];
    }
  }
}
