/**
 * The candidate locators `getElementsByClassName` and
 * `getElementsByAttribute`: each takes a base set from the host (by tag,
 * by class, or every element below the root) and filters it in place,
 * splicing out the elements that fail the test.
 *
 * `ClassLocate` and `AttrLocate` state what the loops compute; the methods
 * are proved to compute exactly that, and the lemmas at the end prove that
 * on a rendered step the result is the step's matching elements.
 */
module Locators {
  import opened Wrappers
  import opened Seqs
  import opened Text
  import opened Dom
  import opened Steps

  /**
   * The last dot `d` with `lo <= d` and at least one character between it
   * and `hi`: a greedy optional group before `\.` gives up characters from
   * the right, so the dot it settles on is the last one.
   */
  function LastDot(s: string, lo: nat, hi: nat): (r: Option<nat>)
    requires lo <= hi <= |s|
    decreases hi - lo
    ensures r.Some? ==> lo <= r.value && r.value + 2 <= hi && s[r.value] == '.'
    ensures r.Some? ==> forall k :: r.value < k && k + 2 <= hi ==> s[k] != '.'
    ensures r.None? ==> forall k :: lo <= k && k + 2 <= hi ==> s[k] != '.'
  {
    if hi < lo + 2 then None
    else if s[hi - 2] == '.' then Some(hi - 2)
    else LastDot(s, lo, hi - 1)
  }

  /** `([^ ]+)?\.([^ ]+)` from `p` on, the expression `getElementsByClassName` splits with. */
  function ClassChunkLastDot(s: string, p: nat): (r: Option<ClassParts>)
    requires p <= |s|
    decreases |s| - p
    ensures r.Some? ==> NoneOf(r.value.tag, {' '}) && |r.value.cls| > 0 && NoneOf(r.value.cls, {' '})
    ensures r.None? ==> forall k :: p <= k && k + 1 < |s| ==> !(s[k] == '.' && s[k + 1] != ' ')
  {
    if p == |s| then None
    else
      var q := RunEnd(s, p, {' '});
      match LastDot(s, p, q)
      case Some(d) => Some(ClassParts(s[p..d], s[d + 1..q]))
      case None => ClassChunkLastDot(s, p + 1)
  }

  /** The base set `getElementsByClassName` starts from: by tag when the selector names one. */
  function ClassBase(t: Tree, root: Option<nat>, selector: string): (r: seq<nat>)
    requires ValidTree(t) && ValidRoot(t, root)
    ensures forall e :: e in r ==> e < |t|
    ensures Increasing(r)
  {
    match ClassChunkLastDot(selector, 0)
    case Some(m) => if m.tag != "" then ElementsByTagName(t, root, m.tag) else AllElements(t, root)
    case None => AllElements(t, root)
  }

  /** The class `getElementsByClassName` tests for: after the dot, or the whole selector. */
  function ClassWanted(selector: string): string {
    match ClassChunkLastDot(selector, 0)
    case Some(m) => m.cls
    case None => selector
  }

  function ClassTest(t: Tree, c: string): (nat -> bool) {
    (e: nat) => e < |t| && HasClassName(t, e, c)
  }

  /**
   * What `getElementsByClassName(selector, root)` returns: the base set,
   * in its order, less the elements without the class.
   */
  function ClassLocate(t: Tree, root: Option<nat>, selector: string): (r: seq<nat>)
    requires ValidTree(t) && ValidRoot(t, root)
    ensures IsSubsequence(r, ClassBase(t, root, selector))
    ensures forall e :: e in r <==> e in ClassBase(t, root, selector) && HasClassName(t, e, ClassWanted(selector))
    ensures forall e :: e in r ==> e < |t|
    ensures Increasing(r)
  {
    var base := ClassBase(t, root, selector);
    FilterIncreasing(base, ClassTest(t, ClassWanted(selector)));
    FilterIsSubsequence(base, ClassTest(t, ClassWanted(selector)));
    FilterMembers(base, ClassTest(t, ClassWanted(selector)));
    Filter(base, ClassTest(t, ClassWanted(selector)))
  }

  /** The attribute test of `getElementsByAttribute`: present, and equal to the value when one is asked. */
  function AttrTest(t: Tree, a: string, v: Option<string>): (nat -> bool) {
    (e: nat) => e < |t| &&
      match v
      case None => GetAttribute(t, e, a).Some?
      case Some(x) => GetAttribute(t, e, a) == Some(x)
  }

  /** The attribute test on one element, case by case as the loop asks it. */
  lemma AttrTestAt(t: Tree, e: nat, a: string, v: Option<string>)
    requires e < |t|
    ensures AttrTest(t, a, v)(e) <==> GetAttribute(t, e, a).Some? && !(v.Some? && GetAttribute(t, e, a) != v)
  {
  }

  /** The base set `getElementsByAttribute` filters, from the part before `[`. */
  function AttrBase(t: Tree, root: Option<nat>, qual: string): (r: seq<nat>)
    requires ValidTree(t) && ValidRoot(t, root)
    ensures forall e :: e in r ==> e < |t|
    ensures Increasing(r)
  {
    if '.' in qual then ClassLocate(t, root, qual[1..]) else ElementsByTagName(t, root, qual)
  }

  /**
   * What `getElementsByAttribute(selector, root)` returns: `None` for the
   * host's `undefined` when the selector does not split, and otherwise the
   * base set less the elements that fail the attribute test.
   */
  function AttrLocate(t: Tree, root: Option<nat>, selector: string): (r: Option<seq<nat>>)
    requires ValidTree(t) && ValidRoot(t, root)
    ensures r.None? <==> AttrChunk(selector, 0).None?
    ensures r.Some? ==> var m := AttrChunk(selector, 0).value;
      && IsSubsequence(r.value, AttrBase(t, root, m.qual))
      && forall e :: e in r.value <==> e in AttrBase(t, root, m.qual) && AttrTest(t, m.name, m.value)(e)
    ensures r.Some? ==> Increasing(r.value)
  {
    match AttrChunk(selector, 0)
    case None => None
    case Some(m) =>
      var base := AttrBase(t, root, m.qual);
      FilterIncreasing(base, AttrTest(t, m.name, m.value));
      FilterIsSubsequence(base, AttrTest(t, m.name, m.value));
      FilterMembers(base, AttrTest(t, m.name, m.value));
      Some(Filter(base, AttrTest(t, m.name, m.value)))
  }

  /** A loop step that keeps `elems[i]` moves past it. */
  lemma KeepStep(elems: seq<nat>, base: seq<nat>, i: nat, k: nat, keep: nat -> bool)
    requires i < |elems| && k < |base|
    requires elems[..i] == Filter(base[..k], keep) && elems[i..] == base[k..]
    requires keep(elems[i])
    ensures elems[..i + 1] == Filter(base[..k + 1], keep) && elems[i + 1..] == base[k + 1..]
  {
    assert base[..k + 1][..k] == base[..k];
    assert elems[i] == elems[i..][0] == base[k];
    assert elems[..i + 1] == elems[..i] + [elems[i]];
  }

  /** A loop step that splices out `elems[i]` leaves the next element at `i`. */
  lemma CutStep(elems: seq<nat>, base: seq<nat>, i: nat, k: nat, keep: nat -> bool)
    requires i < |elems| && k < |base|
    requires elems[..i] == Filter(base[..k], keep) && elems[i..] == base[k..]
    requires !keep(elems[i])
    ensures var r := elems[..i] + elems[i + 1..];
      && |r| == |elems| - 1
      && r[..i] == Filter(base[..k + 1], keep) && r[i..] == base[k + 1..]
      && forall e :: e in r ==> e in elems
  {
    assert base[..k + 1][..k] == base[..k];
    assert elems[i] == elems[i..][0] == base[k];
    var r := elems[..i] + elems[i + 1..];
    assert r[..i] == elems[..i];
    assert r[i..] == elems[i + 1..] == elems[i..][1..];
    forall e | e in r ensures e in elems {
      var j :| 0 <= j < |r| && r[j] == e;
      if j < i { assert r[j] == elems[j]; } else { assert r[j] == elems[j + 1]; }
    }
  }

  /** When the loop has run through, the whole base set has been filtered. */
  lemma LoopDone(elems: seq<nat>, base: seq<nat>, k: nat, keep: nat -> bool)
    requires k <= |base| && elems[..|elems|] == Filter(base[..k], keep) && elems[|elems|..] == base[k..]
    ensures elems == Filter(base, keep)
  {
    assert base[..k] == base;
  }

  /** `getElementsByClassName(selector, root)`: split the selector, then splice out non-members. */
  method GetElementsByClassName(t: Tree, selector: string, root: Option<nat>) returns (elems: seq<nat>)
    requires ValidTree(t) && ValidRoot(t, root)
    ensures elems == ClassLocate(t, root, selector)
  {
    elems := ClassBase(t, root, selector);
    var cls := ClassWanted(selector);
    ghost var base := elems;
    ghost var k := 0;
    var i: int := 0;
    var l := |elems|;
    while i < l
      invariant 0 <= i <= l == |elems| && k <= |base|
      invariant forall e :: e in elems ==> e < |t|
      invariant elems[..i] == Filter(base[..k], ClassTest(t, cls))
      invariant elems[i..] == base[k..]
      decreases l - i
    {
      assert elems[i] in elems;
      if !HasClassName(t, elems[i], cls) {
        CutStep(elems, base, i, k, ClassTest(t, cls));
        elems := elems[..i] + elems[i + 1..];
        i := i - 1;
        l := l - 1;
      } else {
        KeepStep(elems, base, i, k, ClassTest(t, cls));
      }
      i := i + 1;
      k := k + 1;
    }
    LoopDone(elems, base, k, ClassTest(t, cls));
  }

  /** `getElementsByAttribute(selector, root)`: split the selector, take the base set, splice out the failures. */
  method GetElementsByAttribute(t: Tree, selector: string, root: Option<nat>) returns (r: Option<seq<nat>>)
    requires ValidTree(t) && ValidRoot(t, root)
    ensures r == AttrLocate(t, root, selector)
  {
    var m := AttrChunk(selector, 0);
    if m.None? {
      return None;
    }
    var qual, name, value := m.value.qual, m.value.name, m.value.value;
    var elems: seq<nat>;
    if '.' in qual {
      elems := GetElementsByClassName(t, qual[1..], root);
    } else {
      elems := ElementsByTagName(t, root, qual);
    }
    assert elems == AttrBase(t, root, qual);
    elems := SpliceFailedAttrs(t, elems, name, value);
    r := Some(elems);
  }

  /** The loop of `getElementsByAttribute`: each element failing the attribute test is spliced out in place. */
  method SpliceFailedAttrs(t: Tree, base: seq<nat>, name: string, value: Option<string>) returns (elems: seq<nat>)
    requires forall e :: e in base ==> e < |t|
    ensures elems == Filter(base, AttrTest(t, name, value))
  {
    elems := base;
    ghost var k: nat := 0;
    var i: int := 0;
    var l := |elems|;
    while i < l
      invariant 0 <= i <= l == |elems| && k <= |base|
      invariant forall e :: e in elems ==> e < |t|
      invariant elems[..i] == Filter(base[..k], AttrTest(t, name, value))
      invariant elems[i..] == base[k..]
      decreases l - i
    {
      var e := elems[i];
      assert e in elems;
      var got := GetAttribute(t, e, name);
      AttrTestAt(t, e, name, value);
      // missing attribute, or a value asked for and not matched: the same splice
      if got.None? || (value.Some? && got != value) {
        CutStep(elems, base, i, k, AttrTest(t, name, value));
        elems := elems[..i] + elems[i + 1..];
        i := i - 1;
      } else {
        KeepStep(elems, base, i, k, AttrTest(t, name, value));
      }
      // the list may have shrunk: re-read its length
      l := |elems|;
      i := i + 1;
      k := k + 1;
    }
    LoopDone(elems, base, k, AttrTest(t, name, value));
  }

  // ---------------------------------------------------------------------
  // On rendered steps, the locators find the matching elements.
  // ---------------------------------------------------------------------

  function StepTest(t: Tree, st: Step): (nat -> bool) {
    (e: nat) => e < |t| && StepMatches(t, e, st)
  }

  /** The elements below `root` that a step matches, in document order. */
  function Matching(t: Tree, root: Option<nat>, st: Step): (r: seq<nat>)
    requires ValidTree(t) && ValidRoot(t, root)
    ensures forall e: nat :: e in r <==> e < |t| && InScope(t, root, e) && StepMatches(t, e, st)
    ensures Increasing(r)
  {
    var all := AllElements(t, root);
    FilterMembers(all, StepTest(t, st));
    FilterIncreasing(all, StepTest(t, st));
    Filter(all, StepTest(t, st))
  }

  /** With the dot at `d` and none after it, the search from the right stops at `d`. */
  lemma {:induction false} LastDotFinds(s: string, lo: nat, hi: nat, d: nat)
    requires lo <= d && d + 2 <= hi <= |s| && s[d] == '.'
    requires forall k :: d < k && k + 2 <= hi ==> s[k] != '.'
    ensures LastDot(s, lo, hi) == Some(d)
    decreases hi
  {
    if hi - 2 != d {
      LastDotFinds(s, lo, hi - 1, d);
    }
  }

  /** A selector without a dot does not split. */
  lemma {:induction false} NoClassChunk(s: string, p: nat)
    requires p <= |s| && NoneOf(s, {'.'})
    ensures ClassChunkLastDot(s, p) == None
    decreases |s| - p
  {
    if p < |s| {
      NoClassChunk(s, p + 1);
    }
  }

  /** `pre.c` splits at its one dot. */
  lemma ClassChunkOf(s: string, pre: string, c: string)
    requires NoneOf(pre, {' ', '.'}) && |c| > 0 && NoneOf(c, {' ', '.'})
    requires |s| == |pre| + 1 + |c| && s[..|pre|] == pre && s[|pre|] == '.' && s[|pre| + 1..] == c
    ensures ClassChunkLastDot(s, 0) == Some(ClassParts(pre, c))
  {
    forall k | |pre| < k < |s| ensures s[k] != '.' && s[k] != ' ' {
      assert s[k] == s[|pre| + 1..][k - |pre| - 1];
    }
    forall k | 0 <= k < |pre| ensures s[k] != ' ' {
      assert s[k] == s[..|pre|][k];
    }
    RunEndIs(s, 0, {' '}, |s|);
    LastDotFinds(s, 0, |s|, |pre|);
    assert s[0..|pre|] == pre && s[|pre| + 1..|s|] == c;
  }

  /** `getElementsByClassName(Render(st), root)` is the step's matches. */
  lemma ClassLocateRender(t: Tree, root: Option<nat>, tagOf: Option<string>, c: string)
    requires ValidTree(t) && ValidRoot(t, root) && WellFormed(ByClass(tagOf, c))
    ensures ClassLocate(t, root, Render(ByClass(tagOf, c))) == Matching(t, root, ByClass(tagOf, c))
  {
    var pre := if tagOf.Some? then tagOf.value else "";
    var s := Render(ByClass(tagOf, c));
    assert s == pre + "." + c;
    NameAvoids(c, {' ', '.'});
    if tagOf.Some? {
      NameAvoids(pre, {' ', '.'});
    }
    assert s[..|pre|] == pre && s[|pre| + 1..] == c;
    ClassChunkOf(s, pre, c);
    var all := AllElements(t, root);
    var st := ByClass(tagOf, c);
    if tagOf.Some? {
      FilterFilter(all, TagTest(t, pre), ClassTest(t, c), StepTest(t, st));
    } else {
      FilterSame(all, ClassTest(t, c), StepTest(t, st));
    }
  }

  /** A class name by itself, as `.c[a]` hands it on, selects every element with the class. */
  lemma ClassLocateName(t: Tree, root: Option<nat>, c: string)
    requires ValidTree(t) && ValidRoot(t, root) && IsName(c)
    ensures ClassLocate(t, root, c) == Filter(AllElements(t, root), ClassTest(t, c))
  {
    NameAvoids(c, {'.'});
    NoClassChunk(c, 0);
  }

  /** Once the attribute expression has split the selector, the locator filters the base set. */
  lemma AttrLocateChunk(t: Tree, root: Option<nat>, s: string, m: AttrParts)
    requires ValidTree(t) && ValidRoot(t, root) && AttrChunk(s, 0) == Some(m)
    ensures AttrLocate(t, root, s) == Some(Filter(AttrBase(t, root, m.qual), AttrTest(t, m.name, m.value)))
  {
  }

  /** The base set of a rendered qualifier, less the attribute test's failures, is the step's matches. */
  lemma AttrBaseMatching(t: Tree, root: Option<nat>, q: Qualifier, a: string, v: Option<string>)
    requires ValidTree(t) && ValidRoot(t, root) && WellFormed(ByAttr(q, a, v))
    ensures Filter(AttrBase(t, root, QualText(q)), AttrTest(t, a, v)) == Matching(t, root, ByAttr(q, a, v))
  {
    var st := ByAttr(q, a, v);
    QualRead(q);
    var all := AllElements(t, root);
    match q
    case QTag(tag) =>
      assert AttrBase(t, root, QualText(q)) == Filter(all, TagTest(t, tag));
      FilterFilter(all, TagTest(t, tag), AttrTest(t, a, v), StepTest(t, st));
    case QClass(c) =>
      ClassLocateName(t, root, c);
      assert AttrBase(t, root, QualText(q)) == Filter(all, ClassTest(t, c));
      FilterFilter(all, ClassTest(t, c), AttrTest(t, a, v), StepTest(t, st));
  }

  /** `getElementsByAttribute(Render(st), root)` is the step's matches. */
  lemma AttrLocateRender(t: Tree, root: Option<nat>, q: Qualifier, a: string, v: Option<string>)
    requires ValidTree(t) && ValidRoot(t, root) && WellFormed(ByAttr(q, a, v))
    ensures AttrLocate(t, root, Render(ByAttr(q, a, v))) == Some(Matching(t, root, ByAttr(q, a, v)))
  {
    var qt, vt := QualText(q), ValueText(v);
    var s := qt + "[" + a + vt + "]";
    assert Render(ByAttr(q, a, v)) == s;
    QualRead(q);
    NameAvoids(a, {'=', ']'});
    BracketedSlices(qt, a, vt);
    AttrChunkOf(s, qt, a, v);
    AttrLocateChunk(t, root, s, AttrParts(qt, a, v));
    AttrBaseMatching(t, root, q, a, v);
  }

  // ---------------------------------------------------------------------
  // The tag wildcard `*`.
  // ---------------------------------------------------------------------

  /** `getElementsByClassName('*.c', root)`: the host reads `*` as every element, so every class-`c` element is found. */
  lemma ClassLocateStar(t: Tree, root: Option<nat>, c: string)
    requires ValidTree(t) && ValidRoot(t, root) && IsName(c)
    ensures ClassLocate(t, root, "*." + c) == Filter(AllElements(t, root), ClassTest(t, c))
  {
    var s := "*." + c;
    NameAvoids(c, {' ', '.'});
    assert s[..1] == "*" && s[2..] == c;
    ClassChunkOf(s, "*", c);
  }

  /** `getElementsByAttribute('*[a…]', root)`: the base set is every element below `root`. */
  lemma AttrLocateStar(t: Tree, root: Option<nat>, a: string, v: Option<string>)
    requires ValidTree(t) && ValidRoot(t, root) && IsName(a) && (v.Some? ==> IsValue(v.value))
    ensures AttrLocate(t, root, "*[" + a + ValueText(v) + "]") == Some(Filter(AllElements(t, root), AttrTest(t, a, v)))
  {
    var s := "*[" + a + ValueText(v) + "]";
    AttrChunkStar(a, v);
    AttrLocateChunk(t, root, s, AttrParts("*", a, v));
    assert '.' !in "*";
  }

  /** The attribute chunker splits `*[a…]` into the qualifier `*` and the attribute parts. */
  lemma AttrChunkStar(a: string, v: Option<string>)
    requires IsName(a) && (v.Some? ==> IsValue(v.value))
    ensures AttrChunk("*[" + a + ValueText(v) + "]", 0) == Some(AttrParts("*", a, v))
  {
    var vt := ValueText(v);
    var s := "*" + "[" + a + vt + "]";
    assert "*[" + a + vt + "]" == s;
    NameAvoids(a, {'=', ']'});
    BracketedSlices("*", a, vt);
    AttrChunkOf(s, "*", a, v);
  }
}
