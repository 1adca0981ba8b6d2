/**
 * String primitives the library relies on: scanning runs of characters,
 * splitting on spaces (the selector chunker), `indexOf`, the first-occurrence
 * `replace`, and `trim`.
 */
module Text {
  import opened Wrappers

  /** First index at or after `i` whose character is in `stops`, or `|s|` when none is. */
  function RunEnd(s: string, i: nat, stops: set<char>): (r: nat)
    requires i <= |s|
    decreases |s| - i
    ensures i <= r <= |s|
    ensures forall k :: i <= k < r ==> s[k] !in stops
    ensures r == |s| || s[r] in stops
  {
    if i == |s| || s[i] in stops then i else RunEnd(s, i + 1, stops)
  }

  /** A run end is determined by its two defining facts. */
  lemma RunEndIs(s: string, i: nat, stops: set<char>, j: nat)
    requires i <= j <= |s|
    requires forall k :: i <= k < j ==> s[k] !in stops
    requires j == |s| || s[j] in stops
    ensures RunEnd(s, i, stops) == j
  {
  }

  /** A non-empty string without spaces: what the selector chunker yields as one token. */
  predicate IsWord(w: string) {
    |w| > 0 && ' ' !in w
  }

  /**
   * The maximal runs of non-space characters of `s`, in order. For selectors of the
   * documented grammar this is what the global chunker regex of `querySelectorAll`
   * yields; a string of spaces only yields no token at all.
   */
  function Words(s: string): (ws: seq<string>)
    decreases |s|
  {
    if s == [] then []
    else if s[0] == ' ' then Words(s[1..])
    else
      var e := RunEnd(s, 0, {' '});
      [s[..e]] + Words(s[e..])
  }

  /** Every token of the chunker is a non-empty, space-free word. */
  lemma {:induction false} WordsAreWords(s: string)
    ensures forall w :: w in Words(s) ==> IsWord(w)
    decreases |s|
  {
    if s == [] {
    } else if s[0] == ' ' {
      WordsAreWords(s[1..]);
    } else {
      var e := RunEnd(s, 0, {' '});
      WordsAreWords(s[e..]);
      assert forall k :: 0 <= k < e ==> s[..e][k] != ' ';
    }
  }

  /** Whether `needle` occurs in `hay` starting at index `i`. */
  predicate OccursAt(hay: string, needle: string, i: nat) {
    i + |needle| <= |hay| && hay[i..i + |needle|] == needle
  }

  /** `hay.indexOf(needle, from)`: the first index at or after `from` where `needle` occurs. */
  function IndexOfFrom(hay: string, needle: string, from: nat): (r: Option<nat>)
    decreases |hay| - from
    ensures r.Some? ==> from <= r.value && OccursAt(hay, needle, r.value)
    ensures r.Some? ==> forall k :: from <= k < r.value ==> !OccursAt(hay, needle, k)
    ensures r.None? ==> forall k :: from <= k ==> !OccursAt(hay, needle, k)
  {
    if from + |needle| > |hay| then None
    else if OccursAt(hay, needle, from) then Some(from)
    else IndexOfFrom(hay, needle, from + 1)
  }

  /** `hay.indexOf(needle)`, with `None` for the host's `-1`. */
  function IndexOf(hay: string, needle: string): Option<nat> {
    IndexOfFrom(hay, needle, 0)
  }

  /** `s.replace(pat, rep)` with a string pattern: only the first occurrence is replaced. */
  function ReplaceFirst(s: string, pat: string, rep: string): string {
    match IndexOf(s, pat)
    case None => s
    case Some(k) => s[..k] + rep + s[k + |pat|..]
  }

  /** Where `replace` cuts: at the first occurrence of the pattern. */
  lemma FirstReplaced(s: string, pat: string, rep: string) returns (k: nat)
    requires IndexOf(s, pat).Some?
    ensures IndexOf(s, pat) == Some(k)
    ensures OccursAt(s, pat, k) && forall j :: 0 <= j < k ==> !OccursAt(s, pat, j)
    ensures ReplaceFirst(s, pat, rep) == s[..k] + rep + s[k + |pat|..]
  {
    k := IndexOf(s, pat).value;
  }

  /**
   * The white space `String.prototype.trim` strips: the ASCII blanks, the line
   * terminators, no-break space and the byte-order mark.
   */
  predicate IsSpace(c: char) {
    c in {' ', '\t', '\n', '\r', '\U{000B}', '\U{000C}', '\U{00A0}', '\U{2028}', '\U{2029}', '\U{FEFF}'}
  }

  /** The number of leading white-space characters of `s`. */
  function LeadingSpaces(s: string): (n: nat)
    ensures n <= |s|
    ensures forall k :: 0 <= k < n ==> IsSpace(s[k])
    ensures n == |s| || !IsSpace(s[n])
  {
    if s == [] || !IsSpace(s[0]) then 0
    else
      var n := 1 + LeadingSpaces(s[1..]);
      assert forall k :: 1 <= k < n ==> s[k] == s[1..][k - 1];
      n
  }

  /** The number of trailing white-space characters of `s`. */
  function TrailingSpaces(s: string): (n: nat)
    ensures n <= |s|
    ensures forall k :: |s| - n <= k < |s| ==> IsSpace(s[k])
    ensures n == |s| || !IsSpace(s[|s| - 1 - n])
  {
    if s == [] || !IsSpace(s[|s| - 1]) then 0
    else 1 + TrailingSpaces(s[..|s| - 1])
  }

  /** `jArgon.trim`: `s` without its leading and trailing white space. */
  function Trim(s: string): (r: string)
    ensures |r| <= |s| - LeadingSpaces(s)
    ensures r == s[LeadingSpaces(s)..LeadingSpaces(s) + |r|]
    ensures forall k :: 0 <= k < |s| && !(LeadingSpaces(s) <= k < LeadingSpaces(s) + |r|) ==> IsSpace(s[k])
    ensures r != [] ==> !IsSpace(r[0]) && !IsSpace(r[|r| - 1])
  {
    var a := LeadingSpaces(s);
    var rest := s[a..];
    var r := rest[..|rest| - TrailingSpaces(rest)];
    assert r == s[a..a + |r|];
    assert forall k :: a + |r| <= k < |s| ==> s[k] == rest[k - a];
    r
  }
}
