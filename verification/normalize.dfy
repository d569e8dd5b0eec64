/** The normalizer: `text.replace(/\r\n/g, "\n").replace(/\s+/g, " ").trim()`,
    used before every comparison of license texts so that reflowed or
    re-indented copies compare equal. */
module Normalizer {
  import opened Text

  /** No white space other than single ' ' characters: every white-space
      character is a space and no two white-space characters are adjacent. */
  predicate SingleSpaced(s: string) {
    && (forall i :: 0 <= i < |s| && IsWs(s[i]) ==> s[i] == ' ')
    && (forall i :: 0 <= i < |s| - 1 ==> !(IsWs(s[i]) && IsWs(s[i + 1])))
  }

  /** The shape of every normalized text: single-spaced, with no leading or
      trailing white space. */
  predicate IsNormal(s: string) {
    && SingleSpaced(s)
    && (|s| > 0 ==> !IsWs(s[0]) && !IsWs(s[|s| - 1]))
  }

  /** The non-white-space characters of `s`, in order. */
  function NonWs(s: string): string {
    if |s| == 0 then ""
    else (if IsWs(s[0]) then "" else [s[0]]) + NonWs(s[1..])
  }

  /** `.replace(/\r\n/g, "\n")`: each CR LF pair becomes a single LF. */
  function ReplaceCrlf(s: string): (r: string)
    ensures NonWs(r) == NonWs(s)
  {
    if |s| == 0 then ""
    else if |s| >= 2 && s[0] == '\r' && s[1] == '\n' then "\n" + ReplaceCrlf(s[2..])
    else [s[0]] + ReplaceCrlf(s[1..])
  }

  /** `.replace(/\s+/g, " ")`: each maximal run of white space becomes one
      space. `inRun` records that the character before `s` was white space,
      so a run continuing into `s` has already been replaced. */
  function Collapse(s: string, inRun: bool): string {
    if |s| == 0 then "" else Emit(s[0], inRun) + Collapse(s[1..], IsWs(s[0]))
  }

  /** What the collapse emits for one character `c` read in run state `inRun`. */
  function Emit(c: char, inRun: bool): string {
    if IsWs(c) then (if inRun then "" else " ") else [c]
  }

  lemma CollapseHead(s: string, inRun: bool)
    requires |s| > 0
    ensures Collapse(s, inRun) == Emit(s[0], inRun) + Collapse(s[1..], IsWs(s[0]))
  {
  }

  lemma CollapseCons(c: char, s: string, inRun: bool)
    ensures Collapse([c] + s, inRun) == Emit(c, inRun) + Collapse(s, IsWs(c))
  {
    assert ([c] + s)[0] == c && ([c] + s)[1..] == s;
  }

  /** Inside a run, the collapse does not start with white space: the run
      has already been replaced. */
  lemma {:induction false} CollapseAfterRun(s: string)
    ensures var r := Collapse(s, true); |r| > 0 ==> !IsWs(r[0])
  {
    if |s| > 0 && IsWs(s[0]) {
      CollapseAfterRun(s[1..]);
      assert Collapse(s, true) == "" + Collapse(s[1..], true);
    }
  }

  /** Collapsing leaves no white space other than single spaces. */
  lemma {:induction false} CollapseSingleSpaced(s: string, inRun: bool)
    ensures SingleSpaced(Collapse(s, inRun))
  {
    if |s| > 0 {
      CollapseSingleSpaced(s[1..], IsWs(s[0]));
      var rest := Collapse(s[1..], IsWs(s[0]));
      var e := Emit(s[0], inRun);
      var r := Collapse(s, inRun);
      assert r == e + rest;
      if IsWs(s[0]) {
        CollapseAfterRun(s[1..]);
      }
      forall i | 0 <= i < |r|
        ensures IsWs(r[i]) ==> r[i] == ' '
      {
        if i >= |e| {
          assert r[i] == rest[i - |e|];
        }
      }
      forall i | 0 <= i < |r| - 1
        ensures !(IsWs(r[i]) && IsWs(r[i + 1]))
      {
        if i >= |e| {
          assert r[i] == rest[i - |e|] && r[i + 1] == rest[i + 1 - |e|];
        } else {
          assert r[i + 1] == rest[0];
        }
      }
    }
  }

  /** Collapsing keeps exactly the non-white-space characters, in order. */
  lemma {:induction false} CollapseKeepsNonWs(s: string, inRun: bool)
    ensures NonWs(Collapse(s, inRun)) == NonWs(s)
  {
    if |s| > 0 {
      var rest := Collapse(s[1..], IsWs(s[0]));
      CollapseKeepsNonWs(s[1..], IsWs(s[0]));
      if IsWs(s[0]) {
        assert (" " + rest)[0] == ' ' && (" " + rest)[1..] == rest;
        assert "" + rest == rest;
      } else {
        assert ([s[0]] + rest)[0] == s[0] && ([s[0]] + rest)[1..] == rest;
      }
    }
  }

  /** `String.prototype.trimStart`. */
  function TrimStart(s: string): (r: string)
    ensures |r| <= |s| && r == s[|s| - |r|..]
    ensures AllWs(s[..|s| - |r|])
    ensures |r| > 0 ==> !IsWs(r[0])
  {
    if |s| > 0 && IsWs(s[0]) then TrimStart(s[1..]) else s
  }

  /** `String.prototype.trimEnd`. */
  function TrimEnd(s: string): (r: string)
    ensures |r| <= |s| && r == s[..|r|]
    ensures AllWs(s[|r|..])
    ensures |r| > 0 ==> !IsWs(r[|r| - 1])
  {
    if |s| > 0 && IsWs(s[|s| - 1]) then TrimEnd(s[..|s| - 1]) else s
  }

  /** `String.prototype.trim`. */
  function Trim(s: string): string {
    TrimEnd(TrimStart(s))
  }

  /** The normalizer. Its result is in normal form and keeps exactly the
      input's non-white-space characters, in order. */
  function Normalize(text: string): (r: string)
    ensures IsNormal(r)
    ensures NonWs(r) == NonWs(text)
  {
    var c := Collapse(ReplaceCrlf(text), false);
    var t := Trim(c);
    CollapseKeepsNonWs(ReplaceCrlf(text), false);
    CollapseSingleSpaced(ReplaceCrlf(text), false);
    TrimPreservesShape(c);
    t
  }

  lemma NonWsAppend(a: string, b: string)
    ensures NonWs(a + b) == NonWs(a) + NonWs(b)
  {
    if |a| == 0 {
      assert a + b == b;
    } else {
      assert (a + b)[0] == a[0] && (a + b)[1..] == a[1..] + b;
      NonWsAppend(a[1..], b);
      var h: string := if IsWs(a[0]) then "" else [a[0]];
      calc {
        NonWs(a + b);
        h + NonWs(a[1..] + b);
        h + (NonWs(a[1..]) + NonWs(b));
        (h + NonWs(a[1..])) + NonWs(b);
        NonWs(a) + NonWs(b);
      }
    }
  }

  lemma NonWsOfAllWs(s: string)
    requires AllWs(s)
    ensures NonWs(s) == ""
  {
  }

  lemma SingleSpacedSlice(s: string, i: int, j: int)
    requires SingleSpaced(s)
    requires 0 <= i <= j <= |s|
    ensures SingleSpaced(s[i..j])
  {
    var t := s[i..j];
    forall k | 0 <= k < |t| - 1
      ensures !(IsWs(t[k]) && IsWs(t[k + 1]))
    {
      assert t[k] == s[i + k] && t[k + 1] == s[i + k + 1];
    }
  }

  /** Dropping leading white space keeps single spacing and the
      non-white-space characters. */
  lemma {:induction false} TrimStartShape(s: string)
    requires SingleSpaced(s)
    ensures SingleSpaced(TrimStart(s))
    ensures NonWs(TrimStart(s)) == NonWs(s)
  {
    if |s| > 0 && IsWs(s[0]) {
      SingleSpacedSlice(s, 1, |s|);
      TrimStartShape(s[1..]);
      assert NonWs(s) == NonWs(s[1..]);
    }
  }

  /** Dropping trailing white space keeps single spacing and the
      non-white-space characters. */
  lemma TrimEndShape(s: string)
    requires SingleSpaced(s)
    ensures SingleSpaced(TrimEnd(s))
    ensures NonWs(TrimEnd(s)) == NonWs(s)
  {
    var b := TrimEnd(s);
    SingleSpacedSlice(s, 0, |b|);
    assert s == b + s[|b|..];
    NonWsAppend(b, s[|b|..]);
    NonWsOfAllWs(s[|b|..]);
  }

  /** Trimming a single-spaced text yields a normal one with the same
      non-white-space characters. */
  lemma TrimPreservesShape(s: string)
    requires SingleSpaced(s)
    ensures IsNormal(Trim(s))
    ensures NonWs(Trim(s)) == NonWs(s)
  {
    TrimStartShape(s);
    TrimEndShape(TrimStart(s));
    var a := TrimStart(s);
    var b := TrimEnd(a);
    if |b| > 0 {
      assert b[0] == a[0];
    }
  }

  /** A normal text contains no CR, so the CR LF rewrite leaves it alone. */
  lemma {:induction false} ReplaceCrlfIdentity(s: string)
    requires forall i :: 0 <= i < |s| ==> s[i] != '\r'
    ensures ReplaceCrlf(s) == s
  {
    if |s| > 0 {
      ReplaceCrlfIdentity(s[1..]);
      assert [s[0]] + s[1..] == s;
    }
  }

  /** Collapsing a single-spaced text changes nothing, provided a text that
      continues a run does not start with white space. */
  lemma {:induction false} CollapseIdentity(s: string, inRun: bool)
    requires SingleSpaced(s)
    requires inRun && |s| > 0 ==> !IsWs(s[0])
    ensures Collapse(s, inRun) == s
  {
    if |s| > 0 {
      SingleSpacedSlice(s, 1, |s|);
      CollapseIdentity(s[1..], IsWs(s[0]));
      assert Collapse(s, inRun) == Emit(s[0], inRun) + Collapse(s[1..], IsWs(s[0]));
      if IsWs(s[0]) {
        assert s[0] == ' ';
      }
      assert [s[0]] + s[1..] == s;
    }
  }

  /** A text already in normal form is its own normalization. */
  lemma NormalFixpoint(s: string)
    requires IsNormal(s)
    ensures Normalize(s) == s
  {
    ReplaceCrlfIdentity(s);
    CollapseIdentity(s, false);
  }

  /** Normalizing twice is the same as normalizing once. */
  lemma NormalizeIdempotent(text: string)
    ensures Normalize(Normalize(text)) == Normalize(text)
  {
    NormalFixpoint(Normalize(text));
  }

  /** Whether the text `s`, read after a context ending in a run when
      `inRun`, itself ends inside a white-space run. */
  function EndsInRun(s: string, inRun: bool): bool {
    if |s| == 0 then inRun else IsWs(s[|s| - 1])
  }

  lemma EndsInRunHead(s: string, inRun: bool)
    requires |s| > 0
    ensures EndsInRun(s, inRun) == EndsInRun(s[1..], IsWs(s[0]))
  {
  }

  /** Collapsing distributes over concatenation, threading the run flag. */
  lemma {:induction false} CollapseAppend(x: string, y: string, inRun: bool)
    ensures Collapse(x + y, inRun) == Collapse(x, inRun) + Collapse(y, EndsInRun(x, inRun))
  {
    if |x| == 0 {
      assert x + y == y;
    } else {
      var c, t := x[0], x[1..];
      var e, p, q := Emit(c, inRun), Collapse(t, IsWs(c)), Collapse(y, EndsInRun(x, inRun));
      assert Collapse(x + y, inRun) == e + (p + q) by {
        assert (x + y)[0] == c && (x + y)[1..] == t + y;
        CollapseHead(x + y, inRun);
        EndsInRunHead(x, inRun);
        CollapseAppend(t, y, IsWs(c));
      }
      assert Collapse(x, inRun) == e + p by {
        CollapseHead(x, inRun);
      }
      assert e + (p + q) == (e + p) + q;
    }
  }

  /** The CR LF rewrite is subsumed by the white-space collapse: both CR and
      LF are white space. */
  lemma {:induction false} CrlfSubsumed(s: string, inRun: bool)
    ensures Collapse(ReplaceCrlf(s), inRun) == Collapse(s, inRun)
  {
    if |s| >= 2 && s[0] == '\r' && s[1] == '\n' {
      CrlfSubsumed(s[2..], true);
      var t := "\n" + ReplaceCrlf(s[2..]);
      assert t[0] == '\n' && t[1..] == ReplaceCrlf(s[2..]);
      assert s[1..][0] == '\n' && s[1..][1..] == s[2..];
    } else if |s| > 0 {
      CrlfSubsumed(s[1..], IsWs(s[0]));
      var t := [s[0]] + ReplaceCrlf(s[1..]);
      assert t[0] == s[0] && t[1..] == ReplaceCrlf(s[1..]);
    }
  }

  /** Normalization is the trimmed white-space collapse of the raw text. */
  lemma NormalizeIsTrimCollapse(text: string)
    ensures Normalize(text) == Trim(Collapse(text, false))
  {
    CrlfSubsumed(text, false);
  }

  lemma CollapseIgnoresRunLength(a: string, b: string, w: char, w2: char)
    requires IsWs(w) && IsWs(w2)
    ensures Collapse(a + [w] + b, false) == Collapse(a + [w, w2] + b, false)
  {
    var e := EndsInRun(a, false);
    assert a + [w] + b == a + ([w] + b);
    assert a + [w, w2] + b == a + ([w] + ([w2] + b));
    CollapseAppend(a, [w] + b, false);
    CollapseAppend(a, [w] + ([w2] + b), false);
    CollapseCons(w, b, e);
    CollapseCons(w, [w2] + b, e);
    CollapseCons(w2, b, true);
    assert Emit(w2, true) == "";
    assert "" + Collapse(b, true) == Collapse(b, true);
  }

  lemma CollapseIgnoresWsKind(a: string, b: string, w: char, w2: char)
    requires IsWs(w) && IsWs(w2)
    ensures Collapse(a + [w] + b, false) == Collapse(a + [w2] + b, false)
  {
    var e := EndsInRun(a, false);
    assert a + [w] + b == a + ([w] + b);
    assert a + [w2] + b == a + ([w2] + b);
    CollapseAppend(a, [w] + b, false);
    CollapseAppend(a, [w2] + b, false);
    CollapseCons(w, b, e);
    CollapseCons(w2, b, e);
    assert Emit(w, e) == Emit(w2, e);
  }

  /** Widening a white-space run by one more white-space character does not
      change the normalized text. */
  lemma NormalizeIgnoresRunLength(a: string, b: string, w: char, w2: char)
    requires IsWs(w) && IsWs(w2)
    ensures Normalize(a + [w] + b) == Normalize(a + [w, w2] + b)
  {
    NormalizeIsTrimCollapse(a + [w] + b);
    NormalizeIsTrimCollapse(a + [w, w2] + b);
    CollapseIgnoresRunLength(a, b, w, w2);
  }

  /** Which white-space character separates two pieces of text (a space, a
      tab, an LF, ...) does not matter after normalization. */
  lemma NormalizeIgnoresWsKind(a: string, b: string, w: char, w2: char)
    requires IsWs(w) && IsWs(w2)
    ensures Normalize(a + [w] + b) == Normalize(a + [w2] + b)
  {
    NormalizeIsTrimCollapse(a + [w] + b);
    NormalizeIsTrimCollapse(a + [w2] + b);
    CollapseIgnoresWsKind(a, b, w, w2);
  }

  lemma EmitLower(c: char, inRun: bool)
    ensures Emit(LowerChar(c), inRun) == Lower(Emit(c, inRun))
  {
    LowerKeepsWs(c);
  }

  /** The white-space collapse commutes with lower-casing. */
  lemma {:induction false} CollapseLower(s: string, inRun: bool)
    ensures Collapse(Lower(s), inRun) == Lower(Collapse(s, inRun))
  {
    if |s| > 0 {
      var l := Lower(s);
      assert l[0] == LowerChar(s[0]) && l[1..] == Lower(s[1..]);
      LowerKeepsWs(s[0]);
      CollapseLower(s[1..], IsWs(s[0]));
      EmitLower(s[0], inRun);
      LowerAppend(Emit(s[0], inRun), Collapse(s[1..], IsWs(s[0])));
    }
  }

  lemma {:induction false} TrimStartLower(s: string)
    ensures TrimStart(Lower(s)) == Lower(TrimStart(s))
  {
    if |s| > 0 {
      var l := Lower(s);
      LowerKeepsWs(s[0]);
      assert l[0] == LowerChar(s[0]) && l[1..] == Lower(s[1..]);
      if IsWs(s[0]) {
        TrimStartLower(s[1..]);
      }
    }
  }

  lemma {:induction false} TrimEndLower(s: string)
    ensures TrimEnd(Lower(s)) == Lower(TrimEnd(s))
  {
    if |s| > 0 {
      var l := Lower(s);
      LowerKeepsWs(s[|s| - 1]);
      assert l[|s| - 1] == LowerChar(s[|s| - 1]) && l[..|s| - 1] == Lower(s[..|s| - 1]);
      if IsWs(s[|s| - 1]) {
        TrimEndLower(s[..|s| - 1]);
      }
    }
  }

  /** Normalizing and lower-casing can be done in either order: the
      normalizer only looks at white space, which lower-casing leaves
      alone. */
  lemma NormalizeLower(text: string)
    ensures Normalize(Lower(text)) == Lower(Normalize(text))
  {
    NormalizeIsTrimCollapse(text);
    NormalizeIsTrimCollapse(Lower(text));
    CollapseLower(text, false);
    TrimStartLower(Collapse(text, false));
    TrimEndLower(TrimStart(Collapse(text, false)));
  }
}
