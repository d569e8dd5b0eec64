/** The pattern matcher `buildLicenseRegex`: the normalized template becomes
    an anchored regular expression in which every `<...>` or `[...]`
    placeholder is a lazy wildcard `.+?` (dot matching newlines), every
    space is `\s+`, and every other character matches itself. The regular
    expression is modelled by its sequence of atoms and an existential
    whole-string matcher. */
module Pattern {
  import opened Wrappers
  import opened Text
  import opened Normalizer

  /** A piece of the normalized template after the placeholder pass. */
  datatype Piece = Char(c: char) | Placeholder(token: string)

  /** One atom of the built regular expression. */
  datatype Atom =
    | Lit(c: char)  // an escaped literal character
    | Ws            // `\s+`
    | Wild          // `.+?` under the `s` flag

  /** The bracket that closes a placeholder opened by `open`. */
  function Closer(open: char): char {
    if open == '<' then '>' else ']'
  }

  /** The length of the placeholder `<[^>]+>` or `\[[^\]]+\]` starting at
      the front of `s`, or 0 when none starts there: the opening bracket, at
      least one character, and the first closing bracket after it. */
  function TokenLength(s: string): (n: nat)
    ensures n == 0 || (3 <= n <= |s| && (s[0] == '<' || s[0] == '['))
  {
    if |s| > 0 && (s[0] == '<' || s[0] == '[') then
      FindFromFirst(s, 1, Closer(s[0]));
      match FindFrom(s, 1, Closer(s[0]))
      case Some(j) => if j >= 2 then j + 1 else 0
      case None => 0
    else 0
  }

  /** A placeholder's shape: bracket, at least one inner character with no
      closing bracket among them, closing bracket. */
  predicate IsPlaceholderToken(t: string) {
    && |t| >= 3
    && (t[0] == '<' || t[0] == '[')
    && t[|t| - 1] == Closer(t[0])
    && (forall k :: 1 <= k < |t| - 1 ==> t[k] != Closer(t[0]))
  }

  /** The text a piece stands for. */
  function PieceText(p: Piece): string {
    match p
    case Char(c) => [c]
    case Placeholder(t) => t
  }

  /** The text a list of pieces was cut from. */
  function Flatten(ps: seq<Piece>): string {
    if |ps| == 0 then "" else PieceText(ps[0]) + Flatten(ps[1..])
  }

  lemma FlattenCons(p: Piece, ps: seq<Piece>)
    ensures Flatten([p] + ps) == PieceText(p) + Flatten(ps)
  {
    assert ([p] + ps)[0] == p && ([p] + ps)[1..] == ps;
  }

  /** The length of the piece cut at the front of a non-empty text: the
      placeholder starting there, or else one character. */
  function HeadLength(s: string): (m: nat)
    requires |s| > 0
    ensures 1 <= m <= |s|
  {
    var n := TokenLength(s);
    if n > 0 then n else 1
  }

  /** The piece cut at the front of a non-empty text. */
  function HeadPiece(s: string): (p: Piece)
    requires |s| > 0
    ensures PieceText(p) == s[..HeadLength(s)]
  {
    var n := TokenLength(s);
    if n > 0 then Placeholder(s[..n]) else Char(s[0])
  }

  /** `.replace(/<[^>]+>|\[[^\]]+\]/g, ...)` read as a left-to-right cut of
      the text into placeholders and single characters: at each position
      the placeholder that starts there is taken, otherwise one character. */
  function Tokenize(s: string): seq<Piece>
    decreases |s|
  {
    if |s| == 0 then [] else [HeadPiece(s)] + Tokenize(s[HeadLength(s)..])
  }

  /** Cutting loses and adds nothing: the pieces spell the text. */
  lemma {:induction false} TokenizeRoundTrip(s: string)
    ensures Flatten(Tokenize(s)) == s
    decreases |s|
  {
    if |s| > 0 {
      var m := HeadLength(s);
      TokenizeRoundTrip(s[m..]);
      FlattenTokenize(s);
      assert s[..m] + s[m..] == s;
    }
  }

  lemma FlattenTokenize(s: string)
    requires |s| > 0
    ensures Flatten(Tokenize(s)) == s[..HeadLength(s)] + Flatten(Tokenize(s[HeadLength(s)..]))
  {
    FlattenCons(HeadPiece(s), Tokenize(s[HeadLength(s)..]));
  }

  /** The shape of a placeholder the cut takes: the bracket, at least one
      character, and the first matching closing bracket. */
  lemma TokenLengthShape(s: string)
    requires TokenLength(s) > 0
    ensures IsPlaceholderToken(s[..TokenLength(s)])
  {
    FindFromFirst(s, 1, Closer(s[0]));
  }

  /** Every placeholder piece has the placeholder shape. */
  lemma {:induction false} TokenizePlaceholders(s: string)
    ensures forall i :: 0 <= i < |Tokenize(s)| && Tokenize(s)[i].Placeholder? ==>
              IsPlaceholderToken(Tokenize(s)[i].token)
    decreases |s|
  {
    if |s| > 0 {
      var ps := Tokenize(s);
      var rest := Tokenize(s[HeadLength(s)..]);
      TokenizePlaceholders(s[HeadLength(s)..]);
      if TokenLength(s) > 0 {
        TokenLengthShape(s);
      }
      forall i | 0 <= i < |ps| && ps[i].Placeholder?
        ensures IsPlaceholderToken(ps[i].token)
      {
        if i > 0 {
          assert ps[i] == rest[i - 1];
        }
      }
    }
  }

  /** The marker the source substitutes for every placeholder. */
  const Marker: string := "__LICENSE_TOKEN__"

  /** The text a piece becomes in the placeholder pass. */
  function MarkedText(p: Piece): string {
    match p
    case Char(c) => [c]
    case Placeholder(_) => Marker
  }

  /** The template text with every placeholder replaced by the marker. */
  function Marked(ps: seq<Piece>): string {
    if |ps| == 0 then "" else MarkedText(ps[0]) + Marked(ps[1..])
  }

  /** The escaping pass, then `.replace(/__LICENSE_TOKEN__/g, ".+?")`, then
      `.replace(/ /g, "\\s+")`. Escaping puts a backslash before each of
      `.*+?^${}()|[]\` so that it matches itself; none of them occurs in the
      marker, so the marker occurrences found after escaping are those of
      the unescaped text, scanned left to right. */
  function ToAtoms(p: string): seq<Atom>
    decreases |p|
  {
    if |p| == 0 then []
    else if StartsWith(p, Marker) then [Wild] + ToAtoms(p[|Marker|..])
    else if p[0] == ' ' then [Ws] + ToAtoms(p[1..])
    else [Lit(p[0])] + ToAtoms(p[1..])
  }

  /** `buildLicenseRegex(templateText)`, as its atoms. */
  function BuildPattern(template: string): seq<Atom> {
    PatternOf(Normalize(template))
  }

  /** The atoms built from an already normalized template. */
  function PatternOf(n: string): seq<Atom> {
    ToAtoms(Marked(Tokenize(n)))
  }

  /** The atom `x` matches exactly the text `t`. */
  predicate Eats(x: Atom, t: string) {
    match x
    case Lit(c) => t == [c]
    case Ws => |t| >= 1 && AllWs(t)
    case Wild => |t| >= 1
  }

  /** `new RegExp("^" + pattern + "$", "s").test(s)`: the atoms match the
      whole of `s`, the first atom some prefix and the others the rest. Only
      the existence of a match matters, so the laziness of `.+?` plays no
      part. */
  predicate Matches(atoms: seq<Atom>, s: string)
    decreases |atoms|, 1
  {
    if |atoms| == 0 then |s| == 0 else exists j | 0 <= j <= |s| :: MatchesFrom(atoms, s, j)
  }

  /** The first atom takes `s[..j]` and the others match `s[j..]`. */
  predicate MatchesFrom(atoms: seq<Atom>, s: string, j: int)
    decreases |atoms|, 0
  {
    |atoms| > 0 && 0 <= j <= |s| && Eats(atoms[0], s[..j]) && Matches(atoms[1..], s[j..])
  }

  /** `a` matches `s[..k]` and `b` matches `s[k..]`. */
  predicate SplitAt(a: seq<Atom>, b: seq<Atom>, s: string, k: int) {
    0 <= k <= |s| && Matches(a, s[..k]) && Matches(b, s[k..])
  }

  /** `regex.test(candidate)` for the regex built from `template`. */
  predicate Accepts(template: string, candidate: string) {
    Matches(BuildPattern(template), candidate)
  }

  // ---------------------------------------------------------------------
  // Matching concatenated patterns

  /** An atom that takes a prefix, followed by a match of the rest. */
  lemma MatchesCons(x: Atom, rest: seq<Atom>, s: string, j: int)
    requires 0 <= j <= |s| && Eats(x, s[..j]) && Matches(rest, s[j..])
    ensures Matches([x] + rest, s)
  {
    assert ([x] + rest)[0] == x && ([x] + rest)[1..] == rest;
    assert MatchesFrom([x] + rest, s, j);
  }

  lemma {:induction false} MatchesAppendSplit(a: seq<Atom>, b: seq<Atom>, s: string)
    requires Matches(a + b, s)
    ensures exists k :: SplitAt(a, b, s, k)
    decreases |a|
  {
    if |a| == 0 {
      assert a + b == b && s[..0] == "" && s[0..] == s;
      assert SplitAt(a, b, s, 0);
    } else {
      assert (a + b)[0] == a[0] && (a + b)[1..] == a[1..] + b;
      var j :| MatchesFrom(a + b, s, j);
      assert MatchesFrom(a + b, s, j);
      MatchesAppendSplit(a[1..], b, s[j..]);
      var k' :| SplitAt(a[1..], b, s[j..], k');
      assert SplitAt(a[1..], b, s[j..], k');
      var k := j + k';
      assert Matches(a, s[..k]) by {
        assert s[..k][..j] == s[..j] && s[..k][j..] == s[j..][..k'];
        MatchesCons(a[0], a[1..], s[..k], j);
        assert [a[0]] + a[1..] == a;
      }
      assert s[k..] == s[j..][k'..];
      assert SplitAt(a, b, s, k);
    }
  }

  lemma {:induction false} MatchesAppendJoin(a: seq<Atom>, b: seq<Atom>, s: string, k: int)
    requires SplitAt(a, b, s, k)
    ensures Matches(a + b, s)
    decreases |a|
  {
    if |a| == 0 {
      assert a + b == b && s[k..] == s;
    } else {
      assert Matches(a, s[..k]);
      var j :| MatchesFrom(a, s[..k], j);
      assert MatchesFrom(a, s[..k], j);
      assert s[..k][..j] == s[..j];
      assert s[j..][..k - j] == s[..k][j..] && s[j..][k - j..] == s[k..];
      assert SplitAt(a[1..], b, s[j..], k - j);
      MatchesAppendJoin(a[1..], b, s[j..], k - j);
      MatchesCons(a[0], a[1..] + b, s, j);
      assert [a[0]] + (a[1..] + b) == a + b;
    }
  }

  /** A concatenated pattern matches a text exactly when its first part
      matches a prefix and its second part the remaining suffix. */
  lemma MatchesAppend(a: seq<Atom>, b: seq<Atom>, s: string)
    ensures Matches(a + b, s) <==> exists k :: SplitAt(a, b, s, k)
  {
    if Matches(a + b, s) {
      MatchesAppendSplit(a, b, s);
    }
    if exists k :: SplitAt(a, b, s, k) {
      var k :| SplitAt(a, b, s, k);
      assert SplitAt(a, b, s, k);
      MatchesAppendJoin(a, b, s, k);
    }
  }

  // ---------------------------------------------------------------------
  // Patterns without wildcards

  predicate WildFree(atoms: seq<Atom>) {
    forall i :: 0 <= i < |atoms| ==> !atoms[i].Wild?
  }

  /** The text a wildcard-free pattern spells, with one space per `\s+`. */
  function Render(atoms: seq<Atom>): string
    requires WildFree(atoms)
  {
    if |atoms| == 0 then ""
    else (if atoms[0].Lit? then [atoms[0].c] else " ") + Render(atoms[1..])
  }

  /** A wildcard-free pattern matches the text it spells. */
  lemma {:induction false} MatchesRender(atoms: seq<Atom>)
    requires WildFree(atoms)
    ensures Matches(atoms, Render(atoms))
  {
    if |atoms| > 0 {
      var r := Render(atoms);
      MatchesRender(atoms[1..]);
      assert r[..1] == (if atoms[0].Lit? then [atoms[0].c] else " ");
      assert r[1..] == Render(atoms[1..]);
      assert MatchesFrom(atoms, r, 1);
    }
  }

  lemma WsRunHead(s: string, j: int)
    requires 1 <= j <= |s| && AllWs(s[..j])
    ensures IsWs(s[0])
    ensures j >= 2 ==> IsWs(s[1])
  {
    assert s[..j][0] == s[0];
    if j >= 2 {
      assert s[..j][1] == s[1];
    }
  }

  /** On single-spaced text a wildcard-free pattern matches only the text it
      spells: each `\s+` can take just the one space. */
  lemma {:induction false} MatchesSingleSpaced(atoms: seq<Atom>, s: string)
    requires WildFree(atoms) && SingleSpaced(s) && Matches(atoms, s)
    ensures s == Render(atoms)
  {
    if |atoms| > 0 {
      var j :| MatchesFrom(atoms, s, j);
      assert MatchesFrom(atoms, s, j);
      if atoms[0].Ws? {
        assert IsWs(s[..j][0]);
        WsRunHead(s, j);
        assert s[..1] == " ";
      } else {
        assert j == 1 && s[..1] == [atoms[0].c];
      }
      SingleSpacedSlice(s, 1, |s|);
      MatchesSingleSpaced(atoms[1..], s[1..]);
      assert s == s[..1] + s[1..];
    }
  }

  // ---------------------------------------------------------------------
  // Wildcards

  /** A lone wildcard matches any non-empty text, line breaks included. */
  lemma MatchesWild(f: string)
    ensures Matches([Wild], f) <==> |f| >= 1
  {
    assert [Wild][1..] == [];
    if |f| >= 1 {
      assert f[|f|..] == "";
      assert MatchesFrom([Wild], f, |f|);
    }
    if Matches([Wild], f) {
      var j :| 0 <= j <= |f| && MatchesFrom([Wild], f, j);
      assert MatchesFrom([Wild], f, j);
    }
  }
  /** Every atom takes at least one character. */
  lemma {:induction false} MatchesLength(atoms: seq<Atom>, s: string)
    requires Matches(atoms, s)
    ensures |s| >= |atoms|
    decreases |atoms|
  {
    if |atoms| > 0 {
      var j :| 0 <= j <= |s| && MatchesFrom(atoms, s, j);
      assert MatchesFrom(atoms, s, j);
      MatchesLength(atoms[1..], s[j..]);
    }
  }

  /** On single-spaced text, a pattern whose first part `a` and last part
      `b` have no wildcard fixes the text's prefix and suffix, and leaves
      at least one character for each atom of the middle `m`, whatever `m`
      holds. */
  lemma WildAnchors(a: seq<Atom>, m: seq<Atom>, b: seq<Atom>, s: string)
    requires WildFree(a) && WildFree(b) && SingleSpaced(s)
    requires Matches(a + m + b, s)
    ensures |s| >= |Render(a)| + |m| + |Render(b)|
    ensures s[..|Render(a)|] == Render(a)
    ensures s[|s| - |Render(b)|..] == Render(b)
  {
    var k1, k2 := ThreeWaySplit(a, m, b, s);
    AroundAnchors(a, m, b, s, k1, k2);
  }

  lemma AroundAnchors(a: seq<Atom>, m: seq<Atom>, b: seq<Atom>, s: string, k1: int, k2: int)
    requires WildFree(a) && WildFree(b) && SingleSpaced(s)
    requires Around(a, m, b, s, k1, k2)
    ensures k1 == |Render(a)| && s[..k1] == Render(a)
    ensures |s| - k2 == |Render(b)| && s[|s| - |Render(b)|..] == Render(b)
    ensures k2 - k1 >= |m|
  {
    MatchesLength(m, s[k1..k2]);
    SingleSpacedSlice(s, 0, k1);
    MatchesSingleSpaced(a, s[..k1]);
    SingleSpacedSlice(s, k2, |s|);
    MatchesSingleSpaced(b, s[k2..]);
  }

  /** `a` matches `s[..k1]`, `m` matches `s[k1..k2]` and `b` matches
      `s[k2..]`. */
  predicate Around(a: seq<Atom>, m: seq<Atom>, b: seq<Atom>, s: string, k1: int, k2: int) {
    0 <= k1 <= k2 <= |s| && Matches(a, s[..k1]) && Matches(m, s[k1..k2]) && Matches(b, s[k2..])
  }

  lemma ThreeWaySplit(a: seq<Atom>, m: seq<Atom>, b: seq<Atom>, s: string) returns (k1: int, k2: int)
    requires Matches(a + m + b, s)
    ensures Around(a, m, b, s, k1, k2)
  {
    MatchesAppendSplit(a + m, b, s);
    var k :| SplitAt(a + m, b, s, k);
    assert SplitAt(a + m, b, s, k);
    var u := s[..k];
    MatchesAppendSplit(a, m, u);
    k1 :| SplitAt(a, m, u, k1);
    assert SplitAt(a, m, u, k1);
    assert u[..k1] == s[..k1] && u[k1..] == s[k1..k];
    k2 := k;
  }

  // ---------------------------------------------------------------------
  // The placeholder pass

  /** Text in which no placeholder can start: no `<` or `[`. */
  predicate NoBrackets(s: string) {
    forall i :: 0 <= i < |s| ==> s[i] != '<' && s[i] != '['
  }
  /** Each character of `s` as a piece of its own. */
  function Chars(s: string): (ps: seq<Piece>)
    ensures |ps| == |s|
  {
    if |s| == 0 then [] else [Char(s[0])] + Chars(s[1..])
  }
  lemma CharsCons(c: char, s: string)
    ensures Chars([c] + s) == [Char(c)] + Chars(s)
  {
    assert ([c] + s)[0] == c && ([c] + s)[1..] == s;
  }

  /** Bracket-free text is cut into single characters. */
  lemma {:induction false} TokenizePlainPrefix(p: string, r: string)
    requires NoBrackets(p)
    ensures Tokenize(p + r) == Chars(p) + Tokenize(r)
  {
    if |p| == 0 {
      assert p + r == r;
    } else {
      var s := p + r;
      assert s[0] == p[0] && s[1..] == p[1..] + r;
      assert TokenLength(s) == 0;
      assert Tokenize(s) == [Char(p[0])] + Tokenize(s[1..]);
      TokenizePlainPrefix(p[1..], r);
    }
  }
  /** A text starting with a placeholder is cut there. */
  lemma TokenizeAtPlaceholder(tok: string, r: string)
    requires IsPlaceholderToken(tok)
    ensures Tokenize(tok + r) == [Placeholder(tok)] + Tokenize(r)
  {
    var s := tok + r;
    var n := |tok|;
    forall k | 1 <= k < n - 1
      ensures s[k] != Closer(s[0])
    {
      assert s[k] == tok[k];
    }
    FindFromAt(s, 1, Closer(s[0]), n - 1);
    assert TokenLength(s) == n;
    assert s[..n] == tok && s[n..] == r;
  }
  lemma {:induction false} MarkedAppend(a: seq<Piece>, b: seq<Piece>)
    ensures Marked(a + b) == Marked(a) + Marked(b)
  {
    if |a| == 0 {
      assert a + b == b;
    } else {
      assert (a + b)[0] == a[0] && (a + b)[1..] == a[1..] + b;
      MarkedAppend(a[1..], b);
    }
  }
  lemma {:induction false} MarkedChars(s: string)
    ensures Marked(Chars(s)) == s
  {
    if |s| > 0 {
      MarkedChars(s[1..]);
      assert Chars(s)[0] == Char(s[0]) && Chars(s)[1..] == Chars(s[1..]);
      assert [s[0]] + s[1..] == s;
    }
  }
  /** A template text as literal parts with a placeholder between each two
      consecutive ones: parts[0] toks[0] parts[1] ... toks[k-1] parts[k]. */
  function Join(parts: seq<string>, toks: seq<string>): string
    requires |parts| == |toks| + 1
    decreases |toks|
  {
    if |toks| == 0 then parts[0] else parts[0] + toks[0] + Join(parts[1..], toks[1..])
  }

  /** The pieces of such a text: each literal part character by character,
      each placeholder whole. */
  function Cut(parts: seq<string>, toks: seq<string>): seq<Piece>
    requires |parts| == |toks| + 1
    decreases |toks|
  {
    if |toks| == 0 then Chars(parts[0])
    else Chars(parts[0]) + [Placeholder(toks[0])] + Cut(parts[1..], toks[1..])
  }

  /** Every list of pieces is such a cut: the literal parts are the runs of
      single characters between placeholders, possibly empty. */
  lemma {:induction false} PiecesAreCut(ps: seq<Piece>)
    ensures exists parts, toks :: |parts| == |toks| + 1 && Cut(parts, toks) == ps
  {
    if |ps| == 0 {
      assert Cut([""], []) == ps;
    } else {
      PiecesAreCut(ps[1..]);
      var parts, toks :| |parts| == |toks| + 1 && Cut(parts, toks) == ps[1..];
      assert [ps[0]] + ps[1..] == ps;
      match ps[0]
      case Char(c) =>
        var parts' := [[c] + parts[0]] + parts[1..];
        assert parts'[0] == [c] + parts[0] && parts'[1..] == parts[1..];
        CharsCons(c, parts[0]);
        assert Cut(parts', toks) == ps;
      case Placeholder(t) =>
        var parts', toks' := [""] + parts, [t] + toks;
        assert parts'[0] == "" && parts'[1..] == parts && toks'[0] == t && toks'[1..] == toks;
        assert Cut(parts', toks') == ps;
    }
  }

  /** Bracket-free parts around placeholder tokens are cut exactly there. */
  lemma {:induction false} TokenizeJoin(parts: seq<string>, toks: seq<string>)
    requires |parts| == |toks| + 1
    requires forall k :: 0 <= k < |parts| ==> NoBrackets(parts[k])
    requires forall k :: 0 <= k < |toks| ==> IsPlaceholderToken(toks[k])
    ensures Tokenize(Join(parts, toks)) == Cut(parts, toks)
    decreases |toks|
  {
    if |toks| == 0 {
      TokenizePlainPrefix(parts[0], "");
      assert parts[0] + "" == parts[0] && Chars(parts[0]) + [] == Chars(parts[0]);
    } else {
      var ps, ts := parts[1..], toks[1..];
      assert forall k :: 0 <= k < |ps| ==> ps[k] == parts[k + 1];
      assert forall k :: 0 <= k < |ts| ==> ts[k] == toks[k + 1];
      TokenizeJoin(ps, ts);
      var rest := Join(ps, ts);
      assert Join(parts, toks) == parts[0] + (toks[0] + rest);
      TokenizePlainPrefix(parts[0], toks[0] + rest);
      TokenizeAtPlaceholder(toks[0], rest);
    }
  }

  /** The parts with the marker between each two consecutive ones. */
  function WithMarkers(parts: seq<string>): string
    requires |parts| >= 1
    decreases |parts|
  {
    if |parts| == 1 then parts[0] else parts[0] + Marker + WithMarkers(parts[1..])
  }

  /** The placeholder pass turns the cut into the parts joined by markers. */
  lemma {:induction false} MarkedCut(parts: seq<string>, toks: seq<string>)
    requires |parts| == |toks| + 1
    ensures Marked(Cut(parts, toks)) == WithMarkers(parts)
    decreases |toks|
  {
    MarkedChars(parts[0]);
    if |toks| > 0 {
      MarkedCut(parts[1..], toks[1..]);
      var p := [Placeholder(toks[0])];
      MarkedAppend(Chars(parts[0]) + p, Cut(parts[1..], toks[1..]));
      MarkedAppend(Chars(parts[0]), p);
      assert Marked(p) == Marker by {
        assert p[1..] == [];
        assert Marker + "" == Marker;
      }
    }
  }

  // ---------------------------------------------------------------------
  // The marker scan

  /** The marker becomes one wildcard. */
  lemma ToAtomsMarker(r: string)
    ensures ToAtoms(Marker + r) == [Wild] + ToAtoms(r)
  {
    var s := Marker + r;
    assert s[..|Marker|] == Marker && s[|Marker|..] == r;
  }
  /** The marker scan, reading `p` followed by `tail`, finds no marker
      starting inside `p`. */
  predicate NoMarkerIn(p: string, tail: string) {
    forall i :: 0 <= i < |p| ==> !StartsWith(p[i..] + tail, Marker)
  }

  lemma NoMarkerInTail(p: string, tail: string)
    requires |p| > 0 && NoMarkerIn(p, tail)
    ensures NoMarkerIn(p[1..], tail)
  {
    forall i | 0 <= i < |p| - 1
      ensures !StartsWith(p[1..][i..] + tail, Marker)
    {
      assert p[1..][i..] == p[i + 1..];
    }
  }

  /** Only the first `|Marker|` characters after a position decide whether
      a marker starts there. */
  lemma NoMarkerInExtend(p: string, tail: string, x: string)
    requires NoMarkerIn(p, tail) && |tail| >= |Marker|
    ensures NoMarkerIn(p, tail + x)
  {
    forall i | 0 <= i < |p|
      ensures !StartsWith(p[i..] + (tail + x), Marker)
    {
      var u := p[i..] + tail;
      assert !StartsWith(u, Marker);
      assert (p[i..] + (tail + x))[..|Marker|] == u[..|Marker|];
    }
  }

  lemma NoMarkerInDrop(p: string, tail: string)
    requires NoMarkerIn(p, tail)
    ensures NoMarkerIn(p, "")
  {
    forall i | 0 <= i < |p|
      ensures !StartsWith(p[i..] + "", Marker)
    {
      var u := p[i..] + tail;
      assert !StartsWith(u, Marker);
    }
  }

  /** A part in which the scan finds no marker is turned into atoms
      character by character, whatever follows it. */
  lemma {:induction false} ToAtomsLiteralPrefix(p: string, r: string)
    requires NoMarkerIn(p, r)
    ensures ToAtoms(p + r) == ToAtoms(p) + ToAtoms(r)
  {
    if |p| == 0 {
      assert p + r == r;
    } else {
      var s := p + r;
      assert s[0] == p[0] && s[1..] == p[1..] + r;
      assert !StartsWith(s, Marker) by {
        assert p[0..] + r == s;
      }
      NoMarkerInTail(p, r);
      ToAtomsLiteralPrefix(p[1..], r);
    }
  }

  /** Such a part becomes a pattern without wildcards that spells it. */
  lemma {:induction false} RenderLiteral(p: string)
    requires NoMarkerIn(p, "")
    ensures WildFree(ToAtoms(p)) && Render(ToAtoms(p)) == p
  {
    if |p| > 0 {
      var a := ToAtoms(p);
      assert !StartsWith(p, Marker) by {
        assert p[0..] + "" == p;
      }
      NoMarkerInTail(p, "");
      RenderLiteral(p[1..]);
      assert a[1..] == ToAtoms(p[1..]);
      assert [p[0]] + p[1..] == p;
    }
  }

  /** The scan finds markers only where the placeholders were: inside no
      part, reading each part but the last followed by a marker and the
      last followed by the end of the text. */
  predicate MarkerOnlyBetween(parts: seq<string>) {
    forall k :: 0 <= k < |parts| ==> NoMarkerIn(parts[k], if k < |parts| - 1 then Marker else "")
  }

  lemma MarkerOnlyBetweenTail(parts: seq<string>)
    requires |parts| >= 2 && MarkerOnlyBetween(parts)
    ensures MarkerOnlyBetween(parts[1..])
  {
    var rest := parts[1..];
    forall k | 0 <= k < |rest|
      ensures NoMarkerIn(rest[k], if k < |rest| - 1 then Marker else "")
    {
      assert rest[k] == parts[k + 1];
    }
  }

  lemma PartRender(parts: seq<string>, k: int)
    requires MarkerOnlyBetween(parts) && 0 <= k < |parts|
    ensures WildFree(ToAtoms(parts[k])) && Render(ToAtoms(parts[k])) == parts[k]
  {
    NoMarkerInDrop(parts[k], if k < |parts| - 1 then Marker else "");
    RenderLiteral(parts[k]);
  }

  /** The pattern of literal parts around placeholders: each part's atoms,
      with one wildcard between each two consecutive parts. */
  function PatternParts(parts: seq<string>): seq<Atom>
    requires |parts| >= 1
    decreases |parts|
  {
    if |parts| == 1 then ToAtoms(parts[0])
    else ToAtoms(parts[0]) + [Wild] + PatternParts(parts[1..])
  }

  lemma {:induction false} ToAtomsWithMarkers(parts: seq<string>)
    requires |parts| >= 1 && MarkerOnlyBetween(parts)
    ensures ToAtoms(WithMarkers(parts)) == PatternParts(parts)
    decreases |parts|
  {
    if |parts| > 1 {
      MarkerOnlyBetweenTail(parts);
      ToAtomsWithMarkers(parts[1..]);
      var w := WithMarkers(parts[1..]);
      assert NoMarkerIn(parts[0], Marker);
      NoMarkerInExtend(parts[0], Marker, w);
      assert WithMarkers(parts) == parts[0] + (Marker + w);
      ToAtomsLiteralPrefix(parts[0], Marker + w);
      ToAtomsMarker(w);
    }
  }

  /** The pattern built from a normalized template made of bracket-free
      parts around placeholders. */
  lemma PatternOfJoin(parts: seq<string>, toks: seq<string>)
    requires |parts| == |toks| + 1
    requires forall k :: 0 <= k < |parts| ==> NoBrackets(parts[k])
    requires forall k :: 0 <= k < |toks| ==> IsPlaceholderToken(toks[k])
    requires MarkerOnlyBetween(parts)
    ensures PatternOf(Join(parts, toks)) == PatternParts(parts)
  {
    TokenizeJoin(parts, toks);
    MarkedCut(parts, toks);
    ToAtomsWithMarkers(parts);
  }

  // ---------------------------------------------------------------------
  // What a template accepts

  /** `c` is the parts in order with a non-empty filler between each two
      consecutive ones. */
  predicate Filled(c: string, parts: seq<string>)
    requires |parts| >= 1
    decreases |parts|
  {
    if |parts| == 1 then c == parts[0]
    else StartsWith(c, parts[0]) && exists j | |parts[0]| < j <= |c| :: Filled(c[j..], parts[1..])
  }

  /** A single-spaced text the pattern accepts is filled in. */
  lemma {:induction false} MatchedIsFilled(parts: seq<string>, c: string)
    requires |parts| >= 1 && MarkerOnlyBetween(parts) && SingleSpaced(c)
    requires Matches(PatternParts(parts), c)
    ensures Filled(c, parts)
    decreases |parts|
  {
    var a := ToAtoms(parts[0]);
    PartRender(parts, 0);
    if |parts| == 1 {
      MatchesSingleSpaced(a, c);
    } else {
      var rest := PatternParts(parts[1..]);
      var w := [Wild] + rest;
      assert PatternParts(parts) == a + w;
      MatchesAppendSplit(a, w, c);
      var k :| SplitAt(a, w, c, k);
      assert SplitAt(a, w, c, k);
      SingleSpacedSlice(c, 0, k);
      MatchesSingleSpaced(a, c[..k]);
      var d := c[k..];
      assert Matches(w, d);
      var j :| 0 <= j <= |d| && MatchesFrom(w, d, j);
      assert MatchesFrom(w, d, j);
      assert w[0] == Wild && w[1..] == rest;
      assert d[j..] == c[k + j..];
      SingleSpacedSlice(c, k + j, |c|);
      MarkerOnlyBetweenTail(parts);
      MatchedIsFilled(parts[1..], c[k + j..]);
      assert StartsWith(c, parts[0]);
    }
  }

  /** A filled-in text is accepted, single-spaced or not. */
  lemma {:induction false} FilledIsMatched(parts: seq<string>, c: string)
    requires |parts| >= 1 && MarkerOnlyBetween(parts)
    requires Filled(c, parts)
    ensures Matches(PatternParts(parts), c)
    decreases |parts|
  {
    var a := ToAtoms(parts[0]);
    PartRender(parts, 0);
    MatchesRender(a);
    if |parts| > 1 {
      var n := |parts[0]|;
      var j :| n < j <= |c| && Filled(c[j..], parts[1..]);
      MarkerOnlyBetweenTail(parts);
      FilledIsMatched(parts[1..], c[j..]);
      var rest := PatternParts(parts[1..]);
      var d := c[n..];
      assert d[..j - n] == c[n..j] && d[j - n..] == c[j..];
      MatchesCons(Wild, rest, d, j - n);
      assert c[..n] == parts[0];
      MatchesAppendJoin(a, [Wild] + rest, c, n);
      assert PatternParts(parts) == a + ([Wild] + rest);
    }
  }

  /** A template whose placeholder pass leaves literal parts around its
      placeholders, none of them hiding a marker, accepts a normalized text
      exactly when the text is those parts in order with a non-empty
      filler in place of each placeholder. */
  lemma TemplateAccepts(t: string, parts: seq<string>, toks: seq<string>, c: string)
    requires |parts| == |toks| + 1
    requires Tokenize(Normalize(t)) == Cut(parts, toks)
    requires MarkerOnlyBetween(parts)
    requires SingleSpaced(c)
    ensures Accepts(t, c) <==> Filled(c, parts)
  {
    MarkedCut(parts, toks);
    ToAtomsWithMarkers(parts);
    assert BuildPattern(t) == PatternParts(parts);
    if Accepts(t, c) {
      MatchedIsFilled(parts, c);
    }
    if Filled(c, parts) {
      FilledIsMatched(parts, c);
    }
  }

  /** A template in which the placeholder pass finds nothing and the
      marker scan finds no marker accepts a normalized text exactly when it
      is the normalized template. */
  lemma PlainTemplateAccepts(t: string, c: string)
    requires Tokenize(Normalize(t)) == Chars(Normalize(t))
    requires NoMarkerIn(Normalize(t), "")
    requires SingleSpaced(c)
    ensures Accepts(t, c) <==> c == Normalize(t)
  {
    var n := Normalize(t);
    assert Cut([n], []) == Chars(n);
    assert MarkerOnlyBetween([n]);
    TemplateAccepts(t, [n], [], c);
  }

  // ---------------------------------------------------------------------
  // Examples

  /** `<>` and `[]` have no character between the brackets, so neither is
      a placeholder and both stay literal text. */
  lemma EmptyBracketsStayLiteral()
    ensures BuildPattern("<>") == [Lit('<'), Lit('>')]
    ensures BuildPattern("[]") == [Lit('['), Lit(']')]
  {
    EmptyAngleStaysLiteral();
    EmptySquareStaysLiteral();
  }

  lemma EmptyAngleStaysLiteral()
    ensures BuildPattern("<>") == [Lit('<'), Lit('>')]
  {
    assert IsNormal("<>");
    NormalFixpoint("<>");
    assert FindFrom("<>", 1, '>') == Some(1);
    assert TokenLength("<>") == 0;
    assert Tokenize("<>") == [Char('<')] + Tokenize(">");
    assert TokenLength(">") == 0;
    assert Tokenize(">") == [Char('>')] + Tokenize("");
    assert Marked([Char('<'), Char('>')]) == "<>" by {
      MarkedChars("<>");
      assert Chars("<>") == [Char('<'), Char('>')];
    }
    assert ToAtoms("<>") == [Lit('<')] + ToAtoms(">");
    assert ToAtoms(">") == [Lit('>')] + ToAtoms("");
  }

  lemma EmptySquareStaysLiteral()
    ensures BuildPattern("[]") == [Lit('['), Lit(']')]
  {
    assert IsNormal("[]");
    NormalFixpoint("[]");
    assert FindFrom("[]", 1, ']') == Some(1);
    assert TokenLength("[]") == 0;
    assert Tokenize("[]") == [Char('[')] + Tokenize("]");
    assert TokenLength("]") == 0;
    assert Tokenize("]") == [Char(']')] + Tokenize("");
    assert Marked([Char('['), Char(']')]) == "[]" by {
      MarkedChars("[]");
      assert Chars("[]") == [Char('['), Char(']')];
    }
    assert ToAtoms("[]") == [Lit('[')] + ToAtoms("]");
    assert ToAtoms("]") == [Lit(']')] + ToAtoms("");
  }

  /** A text of printable ASCII characters and single spaces, neither
      starting nor ending with a space, is already normal. */
  lemma PrintableIsNormal(s: string)
    requires forall i :: 0 <= i < |s| ==> s[i] == ' ' || '!' <= s[i] <= '~'
    requires forall i :: 0 <= i < |s| - 1 ==> s[i] != ' ' || s[i + 1] != ' '
    requires |s| > 0 ==> s[0] != ' ' && s[|s| - 1] != ' '
    ensures IsNormal(s)
  {
  }
  /** Text without brackets tokenizes into characters that mark back to
      the text itself. */
  lemma BracketFreeMarks(m: string)
    requires NoBrackets(m)
    ensures Marked(Tokenize(m)) == m
  {
    TokenizePlainPrefix(m, "");
    assert m + "" == m && Chars(m) + [] == Chars(m);
    MarkedChars(m);
  }
  /** The marker, tokenized on its own, is one wildcard. */
  lemma MarkerPattern()
    ensures PatternOf(Marker) == [Wild]
  {
    assert NoBrackets(Marker);
    BracketFreeMarks(Marker);
    ToAtomsMarker("");
    assert Marker + "" == Marker;
  }
  /** The marker text itself, written literally in a template, is taken for
      a placeholder: such a template accepts any non-empty text. */
  lemma MarkerTextIsWildcard(c: string)
    requires |c| >= 1
    ensures Accepts(Marker, c)
  {
    PrintableIsNormal(Marker);
    NormalFixpoint(Marker);
    MarkerPattern();
    MatchesWild(c);
  }
  /** Text without `_`. */
  predicate NoUnderscore(s: string) {
    forall i :: 0 <= i < |s| ==> s[i] != '_'
  }

  /** A part without `_` hides no marker, whatever follows it: the marker
      starts with `_`. */
  lemma NoUnderscoreNoMarker(p: string, tail: string)
    requires NoUnderscore(p)
    ensures NoMarkerIn(p, tail)
  {
    forall i | 0 <= i < |p|
      ensures !StartsWith(p[i..] + tail, Marker)
    {
      var u := p[i..] + tail;
      assert u[0] == p[i];
    }
  }

  /** A normalized template with two placeholders among three parts that
      hold no bracket and no `_`: the pass cuts it at the two placeholders,
      and its pattern is the first part's atoms, a wildcard, the middle
      part's atoms, a wildcard and the last part's atoms. */
  lemma TwoPlaceholders(p: string, tok1: string, m: string, tok2: string, q: string)
    requires NoBrackets(p) && NoBrackets(m) && NoBrackets(q)
    requires NoUnderscore(p) && NoUnderscore(m) && NoUnderscore(q)
    requires IsPlaceholderToken(tok1) && IsPlaceholderToken(tok2)
    ensures Tokenize(p + tok1 + m + tok2 + q) == Cut([p, m, q], [tok1, tok2])
    ensures MarkerOnlyBetween([p, m, q])
    ensures PatternOf(p + tok1 + m + tok2 + q) == ToAtoms(p) + [Wild] + ToAtoms(m) + [Wild] + ToAtoms(q)
  {
    var parts, toks := [p, m, q], [tok1, tok2];
    JoinThree(p, tok1, m, tok2, q);
    assert forall k :: 0 <= k < |parts| ==> NoBrackets(parts[k]);
    assert MarkerOnlyBetween(parts) by {
      NoUnderscoreNoMarker(p, Marker);
      NoUnderscoreNoMarker(m, Marker);
      NoUnderscoreNoMarker(q, "");
    }
    TokenizeJoin(parts, toks);
    PatternOfJoin(parts, toks);
    PatternPartsThree(p, m, q);
  }

  lemma PatternPartsThree(p: string, m: string, q: string)
    ensures PatternParts([p, m, q]) == ToAtoms(p) + [Wild] + ToAtoms(m) + [Wild] + ToAtoms(q)
  {
    var a, b, c := ToAtoms(p), ToAtoms(m), ToAtoms(q);
    assert PatternParts([m, q]) == b + [Wild] + c by {
      assert [m, q][1..] == [q];
    }
    assert [p, m, q][1..] == [m, q];
    assert a + [Wild] + (b + [Wild] + c) == a + [Wild] + b + [Wild] + c;
  }

  lemma JoinThree(p: string, tok1: string, m: string, tok2: string, q: string)
    ensures Join([p, m, q], [tok1, tok2]) == p + tok1 + m + tok2 + q
  {
    assert Join([m, q], [tok2]) == m + tok2 + q by {
      assert [m, q][1..] == [q] && [tok2][1..] == [];
    }
    assert [p, m, q][1..] == [m, q] && [tok1, tok2][1..] == [tok2];
  }

  /** Three parts are filled in exactly when non-empty fillers go between
      them. */
  lemma FilledThree(c: string, p: string, m: string, q: string)
    ensures Filled(c, [p, m, q]) <==> exists f, g :: |f| >= 1 && |g| >= 1 && c == p + f + m + g + q
  {
    if Filled(c, [p, m, q]) {
      var f, g := FilledThreeSplit(c, p, m, q);
    }
    if exists f, g :: |f| >= 1 && |g| >= 1 && c == p + f + m + g + q {
      var f, g :| |f| >= 1 && |g| >= 1 && c == p + f + m + g + q;
      FillTwoGaps(p, f, m, g, q);
    }
  }

  lemma FilledThreeSplit(c: string, p: string, m: string, q: string) returns (f: string, g: string)
    requires Filled(c, [p, m, q])
    ensures |f| >= 1 && |g| >= 1 && c == p + f + m + g + q
  {
    assert [p, m, q][1..] == [m, q];
    var j :| |p| < j <= |c| && Filled(c[j..], [m, q]);
    var d := c[j..];
    f := c[|p|..j];
    g := FilledTwoSplit(d, m, q);
    assert c == p + f + d by {
      assert c == c[..|p|] + c[|p|..j] + d;
    }
    assert p + f + (m + g + q) == p + f + m + g + q;
  }

  lemma FilledTwoSplit(d: string, m: string, q: string) returns (g: string)
    requires Filled(d, [m, q])
    ensures |g| >= 1 && d == m + g + q
  {
    assert [m, q][1..] == [q];
    var j :| |m| < j <= |d| && Filled(d[j..], [q]);
    g := d[|m|..j];
    assert d == d[..|m|] + d[|m|..j] + d[j..];
  }

  /** A copyright line with two placeholders, cut into its three literal
      parts (the last one empty) around them. */
  const CopyrightLine := "Copyright (c) <year> <owner>"

  lemma CopyrightLineNormal()
    ensures Normalize(CopyrightLine) == CopyrightLine
  {
    PrintableIsNormal(CopyrightLine);
    NormalFixpoint(CopyrightLine);
  }

  lemma CopyrightLineParts()
    ensures CopyrightLine == "Copyright (c) " + "<year>" + " " + "<owner>" + ""
    ensures NoBrackets("Copyright (c) ") && NoUnderscore("Copyright (c) ")
    ensures NoBrackets(" ") && NoUnderscore(" ")
    ensures IsPlaceholderToken("<year>") && IsPlaceholderToken("<owner>")
  {
  }

  lemma CopyrightLineShape()
    ensures Tokenize(Normalize(CopyrightLine)) == Cut(["Copyright (c) ", " ", ""], ["<year>", "<owner>"])
    ensures MarkerOnlyBetween(["Copyright (c) ", " ", ""])
  {
    CopyrightLineNormal();
    CopyrightLineParts();
    TwoPlaceholders("Copyright (c) ", "<year>", " ", "<owner>", "");
  }

  /** A single-spaced text is accepted by the copyright line exactly when
      it is "Copyright (c) ", a non-empty filler, a space and another
      non-empty filler. */
  lemma CopyrightLineAccepts(c: string)
    requires SingleSpaced(c)
    ensures Accepts(CopyrightLine, c) <==> Filled(c, ["Copyright (c) ", " ", ""])
  {
    CopyrightLineShape();
    TemplateAccepts(CopyrightLine, ["Copyright (c) ", " ", ""], ["<year>", "<owner>"], c);
  }


  /** Three parts with a non-empty filler in each of the two gaps. */
  lemma FillTwoGaps(p: string, f: string, m: string, g: string, q: string)
    requires |f| >= 1 && |g| >= 1
    ensures Filled(p + f + m + g + q, [p, m, q])
  {
    var c := p + f + m + g + q;
    var d := c[|p| + |f|..];
    assert Filled(d, [m, q]) by {
      assert d == m + g + q;
      assert d[|m| + |g|..] == q;
      assert [m, q][1..] == [q];
      assert d[..|m|] == m;
    }
    assert [p, m, q][1..] == [m, q];
    assert c[..|p|] == p;
  }

  /** A year text: printable ASCII without spaces, such as "2024" or
      "1999-2024". */
  predicate YearText(y: string) {
    |y| >= 1 && forall i :: 0 <= i < |y| ==> '!' <= y[i] <= '~'
  }
  /** A holder's name: printable ASCII with single inner spaces, such as
      "Jane Doe". */
  predicate HolderText(h: string) {
    && |h| >= 1 && h[0] != ' ' && h[|h| - 1] != ' '
    && (forall i :: 0 <= i < |h| ==> h[i] == ' ' || '!' <= h[i] <= '~')
    && (forall i :: 0 <= i < |h| - 1 ==> h[i] != ' ' || h[i + 1] != ' ')
  }

  /** Any year and any holder's name fill the two placeholders. */
  lemma CopyrightLineAcceptsFilled(y: string, h: string)
    requires YearText(y) && HolderText(h)
    ensures Accepts(CopyrightLine, "Copyright (c) " + y + " " + h)
  {
    var p := "Copyright (c) ";
    var c := p + y + " " + h;
    assert SingleSpaced(c) by {
      assert forall i :: 0 <= i < |y| ==> c[|p| + i] == y[i];
      assert forall i :: 0 <= i < |h| ==> c[|p| + |y| + 1 + i] == h[i];
      PrintableIsNormal(c);
    }
    assert Filled(c, [p, " ", ""]) by {
      FillTwoGaps(p, y, " ", h, "");
      assert c + "" == c;
    }
    CopyrightLineAccepts(c);
  }

  lemma JaneDoeAccepted()
    ensures Accepts(CopyrightLine, "Copyright (c) 2024 Jane Doe")
  {
    assert "Copyright (c) 2024 Jane Doe" == "Copyright (c) " + "2024" + " " + "Jane Doe";
    CopyrightLineAcceptsFilled("2024", "Jane Doe");
  }

  /** A text that does not start with the first part is rejected. */
  lemma UnrelatedTextRejected()
    ensures !Accepts(CopyrightLine, "Some unrelated text")
  {
    var c := "Some unrelated text";
    assert SingleSpaced(c) by {
      PrintableIsNormal(c);
    }
    assert !StartsWith(c, "Copyright (c) ") by {
      assert c[..14][0] == c[0];
    }
    CopyrightLineAccepts(c);
  }

  /** Each placeholder must take something: a year without a holder is
      rejected. */
  lemma MissingHolderRejected()
    ensures !Accepts(CopyrightLine, "Copyright (c) 2024")
  {
    var c := "Copyright (c) 2024";
    assert SingleSpaced(c) by {
      PrintableIsNormal(c);
    }
    assert !Filled(c, ["Copyright (c) ", " ", ""]) by {
      assert ["Copyright (c) ", " ", ""][1..] == [" ", ""];
      forall j | 14 < j <= |c|
        ensures !Filled(c[j..], [" ", ""])
      {
        if j < |c| {
          assert c[j..][..1][0] == c[j];
        }
      }
    }
    CopyrightLineAccepts(c);
  }
}
