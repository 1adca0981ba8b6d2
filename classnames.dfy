/**
 * Class-string logic: the whole-token class test `hasClassName` and the three
 * edits `addClassName`, `removeClassName` and `toggleClassName`, all as
 * functions of an element's `className` string.
 */
module ClassNames {
  import opened Wrappers
  import opened Text

  /** `hasClassName`: whether " c " occurs in the space-padded class string. */
  function HasClass(className: string, c: string): bool {
    IndexOf(" " + className + " ", " " + c + " ").Some?
  }

  /** A class name an edit can add: non-empty and free of white space. */
  predicate IsClassName(c: string) {
    |c| > 0 && forall k :: 0 <= k < |c| ==> !IsSpace(c[k])
  }

  /** Class strings whose only white space is the plain space. */
  predicate SpaceSeparated(s: string) {
    forall k :: 0 <= k < |s| && IsSpace(s[k]) ==> s[k] == ' '
  }

  /** `c` stands in `s` at index `i` as a whole space-delimited token. */
  predicate IsTokenAt(s: string, c: string, i: nat) {
    && i + |c| <= |s|
    && s[i..i + |c|] == c
    && (i == 0 || s[i - 1] == ' ')
    && (i + |c| == |s| || s[i + |c|] == ' ')
  }

  /** An occurrence of " c " in " s " is exactly a token occurrence of `c` in `s`. */
  lemma PaddedOccurrence(s: string, c: string, i: nat)
    ensures OccursAt(" " + s + " ", " " + c + " ", i) <==> IsTokenAt(s, c, i)
  {
    var p, n := " " + s + " ", " " + c + " ";
    if OccursAt(p, n, i) {
      assert p[i] == n[0] && p[i + |c| + 1] == n[|c| + 1];
      forall k | 0 <= k < |c| ensures s[i + k] == c[k] {
        assert p[i + 1 + k] == n[1 + k];
      }
      assert s[i..i + |c|] == c;
    }
    if IsTokenAt(s, c, i) {
      assert p[i..i + |n|] == n by {
        forall k | 0 <= k < |n| ensures p[i + k] == n[k] {
          if 0 < k <= |c| { assert p[i + k] == s[i + k - 1] == s[i..i + |c|][k - 1]; }
        }
      }
    }
  }

  /** `hasClassName` holds exactly when some token occurrence exists. */
  lemma HasClassIffTokenAt(s: string, c: string)
    ensures HasClass(s, c) <==> exists i: nat :: IsTokenAt(s, c, i)
  {
    var p, n := " " + s + " ", " " + c + " ";
    if HasClass(s, c) {
      var i := IndexOf(p, n).value;
      PaddedOccurrence(s, c, i);
    } else {
      forall i: nat ensures !IsTokenAt(s, c, i) {
        PaddedOccurrence(s, c, i);
      }
    }
  }

  /** A token occurrence stays one when a prefix ending before it is dropped. */
  lemma TokenShift(s: string, c: string, i: nat, d: nat)
    requires IsTokenAt(s, c, i) && d <= i
    ensures IsTokenAt(s[d..], c, i - d)
  {
    var r := s[d..];
    assert |r| == |s| - d;
    forall k | 0 <= k < |c| ensures r[i - d + k] == c[k] {
      assert r[i - d + k] == s[i + k] == s[i..i + |c|][k];
    }
    assert r[i - d..i - d + |c|] == c;
    if i - d > 0 {
      assert r[i - d - 1] == s[i - 1];
    }
    if i - d + |c| < |r| {
      assert r[i - d + |c|] == s[i + |c|];
    }
  }

  /** A token occurrence is one of the space-separated words. */
  lemma {:induction false} TokenAtIsWord(s: string, c: string, i: nat)
    requires IsWord(c) && IsTokenAt(s, c, i)
    ensures c in Words(s)
    decreases |s|
  {
    assert c[0] in c;
    assert s[i] == c[0];
    if s[0] == ' ' {
      assert i > 0;
      TokenShift(s, c, i, 1);
      TokenAtIsWord(s[1..], c, i - 1);
    } else {
      var e := RunEnd(s, 0, {' '});
      if i == 0 {
        forall k | 0 <= k < |c| ensures s[k] !in {' '} {
          assert s[k] == c[k] && c[k] in c;
        }
        RunEndIs(s, 0, {' '}, |c|);
        assert s[..e] == c;
      } else {
        assert s[i - 1] == ' ';
        assert e < i;
        TokenShift(s, c, i, e);
        TokenAtIsWord(s[e..], c, i - e);
      }
    }
  }

  /** A token occurrence in a suffix is one in the whole string, unless it starts the suffix after a non-space. */
  lemma TokenUnshift(s: string, c: string, d: nat, j: nat)
    requires d <= |s| && IsTokenAt(s[d..], c, j)
    requires j > 0 || d == 0 || s[d - 1] == ' '
    ensures IsTokenAt(s, c, d + j)
  {
    var r := s[d..];
    forall k | 0 <= k < |c| ensures s[d + j + k] == c[k] {
      assert s[d + j + k] == r[j + k] == r[j..j + |c|][k];
    }
    assert s[d + j..d + j + |c|] == c;
    if j > 0 { assert s[d + j - 1] == r[j - 1]; }
    if d + j + |c| < |s| { assert s[d + j + |c|] == r[j + |c|]; }
  }

  /** Every space-separated word has a token occurrence. */
  lemma {:induction false} WordIsTokenAt(s: string, c: string)
    requires c in Words(s)
    ensures exists i: nat :: IsTokenAt(s, c, i)
    decreases |s|
  {
    if s[0] == ' ' {
      WordIsTokenAt(s[1..], c);
      var j: nat :| IsTokenAt(s[1..], c, j);
      TokenUnshift(s, c, 1, j);
    } else {
      var e := RunEnd(s, 0, {' '});
      if c == s[..e] {
        assert IsTokenAt(s, c, 0);
      } else {
        WordIsTokenAt(s[e..], c);
        var j: nat :| IsTokenAt(s[e..], c, j);
        WordsAreWords(s[e..]);
        assert c[0] in c;
        assert j > 0;
        TokenUnshift(s, c, e, j);
      }
    }
  }

  /**
   * The class test is whole-token membership: for a space-free non-empty `c`,
   * `hasClassName` holds exactly when `c` is one of the space-separated words of
   * the class string (so `foo` does not match the class `foobar`).
   */
  lemma HasClassIffWord(className: string, c: string)
    requires IsWord(c)
    ensures HasClass(className, c) <==> c in Words(className)
  {
    HasClassIffTokenAt(className, c);
    if c in Words(className) {
      WordIsTokenAt(className, c);
    }
    if HasClass(className, c) {
      var i :| IsTokenAt(className, c, i);
      TokenAtIsWord(className, c, i);
    }
  }

  /** `foo` is not a class of an element whose only class is `foobar`. */
  lemma NoPrefixMatch()
    ensures !HasClass("foobar", "foo")
    ensures HasClass("foo bar", "bar")
  {
    HasClassIffTokenAt("foobar", "foo");
    forall i: nat ensures !IsTokenAt("foobar", "foo", i) {
      if i == 0 { assert "foobar"[3] != ' '; }
      else if i <= 3 { assert "foobar"[i - 1] != ' '; }
    }
    HasClassIffTokenAt("foo bar", "bar");
    assert "foo bar"[4..7] == "bar";
    assert IsTokenAt("foo bar", "bar", 4);
  }

  /** `addClassName`'s new class string. */
  function AddedClass(className: string, c: string): string {
    if HasClass(className, c) then className else Trim(className + " " + c)
  }

  /** `removeClassName`'s new class string. */
  function RemovedClass(className: string, c: string): string {
    if HasClass(className, c) then Trim(ReplaceFirst(" " + className + " ", " " + c + " ", " "))
    else className
  }

  /** `toggleClassName`'s new class string. */
  function ToggledClass(className: string, c: string): string {
    if HasClass(className, c) then Trim(ReplaceFirst(" " + className + " ", " " + c + " ", " "))
    else Trim(className + " " + c)
  }

  /** `Trim` is determined by a split into blank ends and a middle with non-blank ends. */
  lemma TrimIs(x: string, u: string, w: string, v: string)
    requires x == u + w + v
    requires forall k :: 0 <= k < |u| ==> IsSpace(u[k])
    requires forall k :: 0 <= k < |v| ==> IsSpace(v[k])
    requires w == [] || (!IsSpace(w[0]) && !IsSpace(w[|w| - 1]))
    ensures Trim(x) == w
  {
    var a, r := LeadingSpaces(x), Trim(x);
    assert forall k :: 0 <= k < |u| ==> x[k] == u[k];
    assert forall k :: 0 <= k < |v| ==> x[|u| + |w| + k] == v[k];
    if w != [] {
      assert x[|u|] == w[0];
      assert a == |u|;
      assert x[|u| + |w| - 1] == w[|w| - 1];
      assert r == x[|u|..|u| + |w|] == w;
    }
  }

  /** The whitespace around a trimmed string, spelled out. */
  lemma TrimSplit(s: string) returns (u: string, v: string)
    ensures s == u + Trim(s) + v
    ensures forall k :: 0 <= k < |u| ==> IsSpace(u[k])
    ensures forall k :: 0 <= k < |v| ==> IsSpace(v[k])
  {
    var a, t := LeadingSpaces(s), Trim(s);
    u, v := s[..a], s[a + |t|..];
    assert s == u + t + v;
    assert forall k :: 0 <= k < |v| ==> v[k] == s[a + |t| + k];
  }

  /** Appending " c" to a class string and trimming keeps its inner blank tail. */
  lemma AppendTrim(s: string, c: string) returns (u: string, v: string)
    requires IsClassName(c)
    ensures s == u + Trim(s) + v
    ensures forall k :: 0 <= k < |u| ==> IsSpace(u[k])
    ensures forall k :: 0 <= k < |v| ==> IsSpace(v[k])
    ensures Trim(s + " " + c) == if Trim(s) == [] then c else Trim(s) + v + " " + c
  {
    u, v := TrimSplit(s);
    var t := Trim(s);
    assert !IsSpace(c[0]) && !IsSpace(c[|c| - 1]);
    var x := s + " " + c;
    if t == [] {
      assert x == (u + v + " ") + c + "";
      TrimIs(x, u + v + " ", c, "");
    } else {
      assert x == u + (t + v + " " + c) + "";
      TrimIs(x, u, t + v + " " + c, "");
    }
  }

  /** A class name is a token at the very end of "... c" after a space. */
  lemma TokenAtEnd(pre: string, c: string)
    requires IsClassName(c)
    ensures IsTokenAt(pre + " " + c, c, |pre| + 1)
  {
    assert (pre + " " + c)[|pre| + 1..] == c;
  }

  /**
   * `addClassName` changes nothing when the class is already present, and
   * otherwise leaves it present: the class test holds afterwards.
   */
  lemma AddClassNameSpec(className: string, c: string)
    requires IsClassName(c)
    ensures HasClass(className, c) ==> AddedClass(className, c) == className
    ensures HasClass(AddedClass(className, c), c)
  {
    if !HasClass(className, c) {
      var u, v := AppendTrim(className, c);
      var t := Trim(className);
      var r := AddedClass(className, c);
      if t == [] {
        assert r == c;
        assert IsTokenAt(r, c, 0);
      } else {
        assert r == (t + v) + " " + c;
        TokenAtEnd(t + v, c);
      }
      HasClassIffTokenAt(r, c);
    }
  }

  /** Adding a class twice is adding it once. */
  lemma AddClassNameIdempotent(className: string, c: string)
    requires IsClassName(c)
    ensures AddedClass(AddedClass(className, c), c) == AddedClass(className, c)
  {
    AddClassNameSpec(className, c);
    AddClassNameSpec(AddedClass(className, c), c);
  }

  /**
   * `removeClassName` changes nothing when the class is absent; otherwise it cuts
   * out the FIRST occurrence of " c " in the padded class string, no other one,
   * and trims the rest.
   */
  lemma RemoveClassNameSpec(className: string, c: string)
    ensures !HasClass(className, c) ==> RemovedClass(className, c) == className
    ensures HasClass(className, c) ==>
      var p, n := " " + className + " ", " " + c + " ";
      exists k: nat :: OccursAt(p, n, k)
        && (forall j :: 0 <= j < k ==> !OccursAt(p, n, j))
        && RemovedClass(className, c) == Trim(p[..k] + " " + p[k + |n|..])
  {
    if HasClass(className, c) {
      var p, n := " " + className + " ", " " + c + " ";
      var k := FirstReplaced(p, n, " ");
      assert RemovedClass(className, c) == Trim(ReplaceFirst(p, n, " "));
    }
  }

  /** A token occurrence inside a prefix that ends at a space or at the end. */
  lemma TokenInPrefix(a: string, b: string, c: string, k: nat)
    requires IsTokenAt(a + b, c, k) && k + |c| <= |a|
    requires b == [] || b[0] == ' '
    ensures IsTokenAt(a, c, k)
  {
    assert (a + b)[k..k + |c|] == a[k..k + |c|];
  }

  /** A token occurrence stays one when blank space is put in front. */
  lemma TokenBehindSpaces(u: string, s: string, c: string, k: nat)
    requires IsTokenAt(s, c, k)
    requires forall j :: 0 <= j < |u| ==> u[j] == ' '
    ensures IsTokenAt(u + s, c, |u| + k)
  {
    assert (u + s)[|u| + k..|u| + k + |c|] == s[k..k + |c|];
  }

  /**
   * In "t v c", where "c" was not a token of the class string "u t v" with plain
   * spaces in front, the only token occurrence of `c` is the last one.
   */
  lemma OnlyLastToken(u: string, t: string, v: string, c: string, k: nat)
    requires IsClassName(c) && !HasClass(u + t + v, c)
    requires forall j :: 0 <= j < |u| ==> u[j] == ' '
    requires k < |t| + |v| + 1
    ensures !IsTokenAt(t + v + " " + c, c, k)
  {
    var a := t + v + " " + c;
    if IsTokenAt(a, c, k) {
      var sep := |t| + |v|;
      assert a[sep] == ' ';
      assert k + |c| <= sep;
      assert a == (t + v) + (" " + c);
      TokenInPrefix(t + v, " " + c, c, k);
      TokenBehindSpaces(u, t + v, c, k);
      assert u + (t + v) == u + t + v;
      HasClassIffTokenAt(u + t + v, c);
    }
  }

  /** The first occurrence of " c " in " t v c " is the final one. */
  lemma FirstOccurrenceIsLast(u: string, t: string, v: string, c: string)
    requires IsClassName(c) && !HasClass(u + t + v, c)
    requires forall j :: 0 <= j < |u| ==> u[j] == ' '
    ensures IndexOf(" " + (t + v + " " + c) + " ", " " + c + " ") == Some(|t| + |v| + 1)
  {
    var a := t + v + " " + c;
    var p, n := " " + a + " ", " " + c + " ";
    var m := |t| + |v| + 1;
    TokenAtEnd(t + v, c);
    PaddedOccurrence(a, c, m);
    forall k: nat | k < m ensures !OccursAt(p, n, k) {
      OnlyLastToken(u, t, v, c, k);
      PaddedOccurrence(a, c, k);
    }
  }

  /** Cutting the final " c " out of " t v c " leaves " t v ". */
  lemma CutLast(t: string, v: string, c: string)
    ensures var p := " " + (t + v + " " + c) + " ";
      var m := |t| + |v| + 1;
      p[..m] + " " + p[m + |c| + 2..] == " " + t + (v + " ")
  {
    var p := " " + (t + v + " " + c) + " ";
    var m := |t| + |v| + 1;
    assert p == (" " + t + v) + (" " + c + " ");
    assert p[..m] == " " + t + v;
    assert p[m + |c| + 2..] == [];
  }

  /** Removing the class from a class string that is the class alone leaves nothing. */
  lemma RemoveLone(c: string)
    requires IsClassName(c)
    ensures RemovedClass(c, c) == []
  {
    var n := " " + c + " ";
    assert OccursAt(n, n, 0);
    assert IndexOf(n, n) == Some(0);
    assert ReplaceFirst(n, n, " ") == " ";
    TrimIs(" ", " ", [], []);
  }

  /** Removing `c` from "t v c", the class string "u t v" having lacked it, leaves `t`. */
  lemma RemoveFromAppended(u: string, t: string, v: string, c: string)
    requires IsClassName(c) && !HasClass(u + t + v, c)
    requires forall j :: 0 <= j < |u| ==> u[j] == ' '
    requires forall j :: 0 <= j < |v| ==> IsSpace(v[j])
    requires t != [] && !IsSpace(t[0]) && !IsSpace(t[|t| - 1])
    ensures RemovedClass(t + v + " " + c, c) == t
  {
    var a := t + v + " " + c;
    FirstOccurrenceIsLast(u, t, v, c);
    var p, n := " " + a + " ", " " + c + " ";
    var m := FirstReplaced(p, n, " ");
    assert m == |t| + |v| + 1 && |n| == |c| + 2;
    assert HasClass(a, c);
    CutLast(t, v, c);
    assert ReplaceFirst(p, n, " ") == " " + t + (v + " ");
    assert RemovedClass(a, c) == Trim(" " + t + (v + " "));
    forall j | 0 <= j < |v| + 1 ensures IsSpace((v + " ")[j]) {
      if j < |v| { assert (v + " ")[j] == v[j]; }
    }
    TrimIs(" " + t + (v + " "), " ", t, v + " ");
  }

  /**
   * Removing a class just added gives back the trimmed original: for a class
   * string separated by plain spaces that does not hold `c`,
   * `removeClassName(addClassName(e, c), c)` leaves `e.className` trimmed.
   */
  lemma RemoveAfterAdd(className: string, c: string)
    requires IsClassName(c) && SpaceSeparated(className) && !HasClass(className, c)
    ensures RemovedClass(AddedClass(className, c), c) == Trim(className)
  {
    var u, v := AppendTrim(className, c);
    var t := Trim(className);
    if t == [] {
      assert AddedClass(className, c) == c;
      RemoveLone(c);
    } else {
      assert AddedClass(className, c) == t + v + " " + c;
      forall j | 0 <= j < |u| ensures u[j] == ' ' {
        assert u[j] == className[j];
      }
      RemoveFromAppended(u, t, v, c);
    }
  }

  /** `toggleClassName` removes a present class and adds an absent one. */
  lemma ToggleClassNameSpec(className: string, c: string)
    ensures ToggledClass(className, c) ==
      if HasClass(className, c) then RemovedClass(className, c) else AddedClass(className, c)
    ensures IsClassName(c) && !HasClass(className, c) ==> HasClass(ToggledClass(className, c), c)
  {
    if IsClassName(c) {
      AddClassNameSpec(className, c);
    }
  }

  /** Toggling an absent class twice gives back the trimmed original. */
  lemma ToggleTwice(className: string, c: string)
    requires IsClassName(c) && SpaceSeparated(className) && !HasClass(className, c)
    ensures ToggledClass(ToggledClass(className, c), c) == Trim(className)
  {
    AddClassNameSpec(className, c);
    RemoveAfterAdd(className, c);
  }
}
