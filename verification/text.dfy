/** Character classes and string helpers that stand in for the JavaScript
    built-ins the license tool relies on (`\s`, `toLowerCase`, `includes`,
    `startsWith`). */
module Text {
  import opened Wrappers

  /** The characters JavaScript's `\s` and `String.prototype.trim` treat as
      white space: the ECMAScript WhiteSpace and LineTerminator productions. */
  predicate IsWs(c: char) {
    || c == '\t' || c == '\n' || c == '\U{B}' || c == '\U{C}' || c == '\r'
    || c == ' ' || c == '\U{A0}' || c == '\U{1680}'
    || ('\U{2000}' <= c <= '\U{200A}')
    || c == '\U{2028}' || c == '\U{2029}' || c == '\U{202F}' || c == '\U{205F}'
    || c == '\U{3000}' || c == '\U{FEFF}'
  }

  /** Every character of `s` is white space (vacuously true of ""). */
  predicate AllWs(s: string) {
    forall i :: 0 <= i < |s| ==> IsWs(s[i])
  }

  /** ASCII lower-casing of one character. */
  function LowerChar(c: char): (d: char)
    ensures 'A' <= c <= 'Z' ==> d as int == c as int + 32
    ensures !('A' <= c <= 'Z') ==> d == c
  {
    if 'A' <= c <= 'Z' then (c as int + 32) as char else c
  }

  /** `toLowerCase`, character by character. */
  function Lower(s: string): (r: string)
    ensures |r| == |s|
    ensures forall i :: 0 <= i < |s| ==> r[i] == LowerChar(s[i])
  {
    seq(|s|, i requires 0 <= i < |s| => LowerChar(s[i]))
  }

  /** Lower-casing is idempotent: lower-cased text has no capitals left. */
  lemma LowerIdempotent(s: string)
    ensures Lower(Lower(s)) == Lower(s)
  {
    var l := Lower(s);
    forall i | 0 <= i < |s|
      ensures Lower(l)[i] == l[i]
    {
      assert !('A' <= l[i] <= 'Z');
    }
  }

  /** Lower-casing neither creates nor removes white space, and leaves
      white-space characters as they are. */
  lemma LowerKeepsWs(c: char)
    ensures IsWs(LowerChar(c)) == IsWs(c)
    ensures IsWs(c) ==> LowerChar(c) == c
  {
  }

  /** Lower-casing works character by character, so it distributes over
      concatenation and slicing. */
  lemma LowerAppend(a: string, b: string)
    ensures Lower(a + b) == Lower(a) + Lower(b)
  {
  }

  lemma LowerSlice(s: string, i: int, j: int)
    requires 0 <= i <= j <= |s|
    ensures Lower(s[i..j]) == Lower(s)[i..j]
  {
  }

  /** `hay.includes(needle)`: needle occurs in hay at some offset.
      Every string includes the empty string. */
  predicate Includes(hay: string, needle: string) {
    exists i | 0 <= i <= |hay| :: OccursAt(hay, needle, i)
  }

  /** `needle` sits in `hay` starting at offset `i`. */
  predicate OccursAt(hay: string, needle: string, i: int) {
    0 <= i <= |hay| - |needle| && hay[i..i + |needle|] == needle
  }

  /** `s.startsWith(prefix)`. */
  predicate StartsWith(s: string, prefix: string) {
    |prefix| <= |s| && s[..|prefix|] == prefix
  }

  /** The position of the first `c` in `s` at or after `from`. */
  function FindFrom(s: string, from: nat, c: char): Option<nat>
    decreases |s| - from
  {
    if from >= |s| then None
    else if s[from] == c then Some(from)
    else FindFrom(s, from + 1, c)
  }

  /** The search finds the first occurrence, and finds none only when
      there is none. */
  lemma {:induction false} FindFromFirst(s: string, from: nat, c: char)
    ensures var r := FindFrom(s, from, c);
            && (r.Some? ==> from <= r.value < |s| && s[r.value] == c)
            && (r.Some? ==> forall k :: from <= k < r.value ==> s[k] != c)
            && (r.None? ==> forall k :: from <= k < |s| ==> s[k] != c)
    decreases |s| - from
  {
    if from < |s| && s[from] != c {
      FindFromFirst(s, from + 1, c);
    }
  }

  /** The search stops at the first occurrence. */
  lemma {:induction false} FindFromAt(s: string, from: nat, c: char, j: nat)
    requires from <= j < |s| && s[j] == c
    requires forall k :: from <= k < j ==> s[k] != c
    ensures FindFrom(s, from, c) == Some(j)
    decreases j - from
  {
    if from < j {
      FindFromAt(s, from + 1, c, j);
    }
  }
}
