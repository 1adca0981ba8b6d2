/**
 * `querySelectorAll`: the bottom-up selector engine.
 *
 * The selector is cut into tokens by a global regular expression; the last
 * token picks the candidates (by id, attribute, class or tag); every
 * candidate then climbs its ancestors, consuming the remaining tokens right
 * to left, and is spliced out of the candidate array when it runs out of
 * ancestors first. A token holding `>` gives the very next parent one
 * chance to match the token to its left.
 *
 * `Walk` is what the loop decides for one candidate, `QueryResult` what the
 * whole call returns; `Css` is the backtracking reading of the same chain,
 * which `Walk` agrees with whenever the chain has no `>`.
 */
module Query {
  import opened Wrappers
  import opened Seqs
  import opened Text
  import opened Dom
  import opened Steps
  import opened Locators

  // ---------------------------------------------------------------------
  // The chunker `/[^ \[]+\[[^ \]]+\]|(?:[^ .]+)?\.[^ ]+|[^ ]+/g`.
  // ---------------------------------------------------------------------

  /**
   * Where the first alternative, a run up to `[`, a run up to `]`, then `]`,
   * ends when tried at the start of `s` (neither run may hold a space).
   */
  function BracketTokenEnd(s: string): (r: Option<nat>)
    ensures r.Some? ==> 0 < r.value <= |s|
  {
    var b := RunEnd(s, 0, {' ', '['});
    if b > 0 && b < |s| && s[b] == '[' then
      var c := RunEnd(s, b + 1, {' ', ']'});
      if c > b + 1 && c < |s| && s[c] == ']' then Some(c + 1) else None
    else None
  }

  /**
   * The tokens the chunker yields, left to right. At a space nothing
   * matches; otherwise the bracket alternative may end a token at its `]`,
   * and the other two alternatives both run to the next space.
   */
  function Tokens(s: string): (ts: seq<string>)
    decreases |s|
    ensures forall k :: 0 <= k < |ts| ==> IsWord(ts[k])
  {
    if s == [] then []
    else if s[0] == ' ' then Tokens(s[1..])
    else
      match BracketTokenEnd(s)
      case Some(n) =>
        BracketTokenWord(s, n);
        [s[..n]] + Tokens(s[n..])
      case None =>
        var e := RunEnd(s, 0, {' '});
        SpaceFreePrefix(s, e);
        [s[..e]] + Tokens(s[e..])
  }

  /** A prefix none of whose characters is a space, and that is not empty, is a word. */
  lemma SpaceFreePrefix(s: string, n: nat)
    requires 0 < n <= |s| && forall k :: 0 <= k < n ==> s[k] != ' '
    ensures IsWord(s[..n])
  {
    forall k | 0 <= k < n ensures s[..n][k] != ' ' {
    }
  }

  /** The bracket alternative matches no space. */
  lemma BracketTokenWord(s: string, n: nat)
    requires BracketTokenEnd(s) == Some(n)
    ensures IsWord(s[..n])
  {
    var b := RunEnd(s, 0, {' ', '['});
    var c := RunEnd(s, b + 1, {' ', ']'});
    forall k | 0 <= k < n ensures s[k] != ' ' {
      if k < b { assert s[k] !in {' ', '['}; }
      else if b < k < c { assert s[k] !in {' ', ']'}; }
    }
    SpaceFreePrefix(s, n);
  }

  /** A word in which `]` can only stand last. */
  predicate CleanWord(w: string) {
    forall k :: 0 <= k < |w| - 1 ==> w[k] != ']'
  }

  /**
   * When no space-separated word holds a `]` before its end, the chunker
   * yields exactly the space-separated words.
   */
  lemma {:induction false} TokensAreWords(s: string)
    requires forall w :: w in Words(s) ==> CleanWord(w)
    ensures Tokens(s) == Words(s)
    decreases |s|
  {
    if s == [] {
    } else if s[0] == ' ' {
      TokensAreWords(s[1..]);
    } else {
      var e := RunEnd(s, 0, {' '});
      assert Words(s) == [s[..e]] + Words(s[e..]);
      assert s[..e] in Words(s);
      match BracketTokenEnd(s)
      case Some(n) =>
        var b := RunEnd(s, 0, {' ', '['});
        var c := RunEnd(s, b + 1, {' ', ']'});
        assert n == c + 1;
        forall k | 0 <= k <= c ensures s[k] != ' ' {
          if k < b { assert s[k] !in {' ', '['}; }
          else if b < k < c { assert s[k] !in {' ', ']'}; }
        }
        RunEndStops(s, c);
        assert c < e;
        assert s[..e][c] == ']';
        assert c == e - 1;
        TokensAreWords(s[e..]);
      case None =>
        TokensAreWords(s[e..]);
    }
  }

  /** A run of non-spaces over `0..c` means the first space comes later. */
  lemma RunEndStops(s: string, c: nat)
    requires c < |s| && forall k :: 0 <= k <= c ==> s[k] != ' '
    ensures RunEnd(s, 0, {' '}) > c
  {
  }

  /** A selector of spaces only yields no token; any other yields one at least. */
  lemma {:induction false} TokensEmptyIff(s: string)
    ensures Tokens(s) == [] <==> forall k :: 0 <= k < |s| ==> s[k] == ' '
    decreases |s|
  {
    if s != [] && s[0] == ' ' {
      TokensEmptyIff(s[1..]);
      assert forall k :: 1 <= k < |s| ==> s[k] == s[1..][k - 1];
    }
  }

  // ---------------------------------------------------------------------
  // Candidates from the last token.
  // ---------------------------------------------------------------------

  /** What `/#([^ ]+)|([^\[]+\[[^\]]+\])|(\.)/` finds first in the last token. */
  datatype Category = IdCategory(id: string) | AttrCategory | DotCategory | TagCategory

  function CategoryOf(s: string, p: nat): (r: Category)
    requires p <= |s|
    decreases |s| - p
    ensures r.IdCategory? ==> IsWord(r.id)
    ensures r == TagCategory ==> '.' !in s[p..]
  {
    if p == |s| then TagCategory
    else if s[p] == '#' && p + 1 < |s| && s[p + 1] != ' ' then
      var e := RunEnd(s, p + 1, {' '});
      assert s[p + 1..e] == s[p + 1..][..e - p - 1];
      SpaceFreePrefix(s[p + 1..], e - p - 1);
      IdCategory(s[p + 1..e])
    else if BracketGroupAt(s, p) then AttrCategory
    else if s[p] == '.' then DotCategory
    else
      assert s[p..] == [s[p]] + s[p + 1..];
      CategoryOf(s, p + 1)
  }

  /**
   * The candidate array: the element with the id, if any; the attribute
   * locator's result (`undefined` reads as empty); the class locator's; or
   * the host's elements by tag. All searches start from the document.
   */
  function Candidates(t: Tree, token: string): (r: seq<nat>)
    requires ValidTree(t)
    ensures forall e :: e in r ==> e < |t|
    ensures Increasing(r)
  {
    match CategoryOf(token, 0)
    case IdCategory(id) => (match ElementById(t, id) case Some(k) => [k] case None => [])
    case AttrCategory =>
      var found := AttrLocate(t, None, token);
      if found.None? then []
      else
        assert forall e :: e in found.value ==> e in AttrBase(t, None, AttrChunk(token, 0).value.qual);
        found.value
    case DotCategory => ClassLocate(t, None, token)
    case TagCategory => ElementsByTagName(t, None, token)
  }

  /** A text without `#`, `[` and `.` is looked up by tag. */
  lemma {:induction false} CategoryPlain(s: string, p: nat)
    requires p <= |s| && NoneOf(s, {'#', '[', '.'})
    ensures CategoryOf(s, p) == TagCategory
    decreases |s| - p
  {
    if p < |s| {
      assert NoneOf(s[p..|s|], {'['}) by {
        forall k | 0 <= k < |s| - p ensures s[p..|s|][k] !in {'['} {
          assert s[p + k] !in {'#', '[', '.'};
        }
      }
      RunEndIn(s, p, |s|, {'['});
      CategoryPlain(s, p + 1);
    }
  }

  /** The first `.` of a text without `[`, with no `#` before it, makes a class lookup. */
  lemma {:induction false} CategoryDot(s: string, p: nat, d: nat)
    requires p <= d < |s| && s[d] == '.' && NoneOf(s, {'['})
    requires forall k :: p <= k < d ==> s[k] != '#' && s[k] != '.'
    ensures CategoryOf(s, p) == DotCategory
    decreases d - p
  {
    RunEndIn(s, p, |s|, {'['});
    if p < d {
      CategoryDot(s, p + 1, d);
    }
  }

  /** The category expression on a rendered step picks the step's kind of lookup. */
  lemma CategoryRender(st: Step)
    requires WellFormed(st)
    ensures CategoryOf(Render(st), 0) == match st
      case ById(id) => IdCategory(id)
      case ByTag(_) => TagCategory
      case ByClass(_, _) => DotCategory
      case ByAttr(_, _, _) => AttrCategory
  {
    var s := Render(st);
    match st
    case ById(id) =>
      NameAvoids(id, {' '});
      assert s[1..|s|] == id && s[1] == id[0];
      RunEndIn(s, 1, |s|, {' '});
    case ByTag(tag) =>
      NameAvoids(tag, {'#', '[', '.'});
      CategoryPlain(tag, 0);
    case ByClass(tagOf, c) =>
      var pre := if tagOf.Some? then tagOf.value else "";
      assert s == pre + "." + c;
      CategoryClass(pre, c);
    case ByAttr(q, a, v) =>
      CategoryAttr(q, a, v);
  }

  /** `pre.c`, or `.c` when `pre` is empty, makes a class lookup. */
  lemma CategoryClass(pre: string, c: string)
    requires (pre == "" || IsName(pre)) && IsName(c)
    ensures CategoryOf(pre + "." + c, 0) == DotCategory
  {
    var s := pre + "." + c;
    NameAvoids(pre, {'#', '.', '['});
    NameAvoids(c, {'['});
    NoneOfConcat(pre, ".", {'['});
    NoneOfConcat(pre + ".", c, {'['});
    forall k | 0 <= k < |pre| ensures s[k] != '#' && s[k] != '.' {
      assert s[k] == pre[k];
    }
    CategoryDot(s, 0, |pre|);
  }

  /** A rendered attribute step makes an attribute lookup. */
  lemma CategoryAttr(q: Qualifier, a: string, v: Option<string>)
    requires WellFormed(ByAttr(q, a, v))
    ensures CategoryOf(Render(ByAttr(q, a, v)), 0) == AttrCategory
  {
    var qt, vt := QualText(q), ValueText(v);
    var s := qt + "[" + a + vt + "]";
    assert Render(ByAttr(q, a, v)) == s;
    QualRead(q);
    NameAvoids(a, {'=', ']'});
    NameAvoids(if q.QTag? then q.tag else q.cls, {'#'});
    assert s[0] == qt[0] != '#';
    BracketedSlices(qt, a, vt);
    ValueTextFacts(v);
    BracketedParts(s, qt, a, vt);
  }

  /** `getElementById` returns the first of the elements carrying the id. */
  lemma FirstMatching(t: Tree, id: string)
    requires ValidTree(t)
    ensures var m := Matching(t, None, ById(id));
      ElementById(t, id) == if m == [] then None else Some(m[0])
  {
    var m := Matching(t, None, ById(id));
    var r := ElementById(t, id);
    assert r.Some? ==> r.value in m;
    assert m != [] ==> m[0] in m;
    if r.Some? && m != [] {
      var i :| 0 <= i < |m| && m[i] == r.value;
      assert m[0] <= m[i];
    }
  }

  /**
   * On a rendered last token the candidates are the step's matches in
   * document order, only the first of them for an id.
   */
  lemma CandidatesRender(t: Tree, st: Step)
    requires ValidTree(t) && WellFormed(st)
    ensures var m := Matching(t, None, st);
      Candidates(t, Render(st)) == if st.ById? then (if m == [] then [] else [m[0]]) else m
  {
    if st.ById? {
      CandidatesId(t, st);
    } else {
      CandidatesMatching(t, st);
    }
  }

  /** The id case of `CandidatesRender`. */
  lemma CandidatesId(t: Tree, st: Step)
    requires ValidTree(t) && WellFormed(st) && st.ById?
    ensures var m := Matching(t, None, st);
      Candidates(t, Render(st)) == if m == [] then [] else [m[0]]
  {
    CategoryRender(st);
    FirstMatching(t, st.id);
  }

  /** The tag, class and attribute cases of `CandidatesRender`. */
  lemma CandidatesMatching(t: Tree, st: Step)
    requires ValidTree(t) && WellFormed(st) && !st.ById?
    ensures Candidates(t, Render(st)) == Matching(t, None, st)
  {
    match st
    case ByTag(tag) => CandidatesTag(t, tag);
    case ByClass(tagOf, c) => CandidatesClass(t, tagOf, c);
    case ByAttr(q, a, v) => CandidatesAttr(t, q, a, v);
  }

  /** A bare tag is looked up by `getElementsByTagName`. */
  lemma CandidatesTag(t: Tree, tag: string)
    requires ValidTree(t) && WellFormed(ByTag(tag))
    ensures Candidates(t, Render(ByTag(tag))) == Matching(t, None, ByTag(tag))
  {
    CategoryRender(ByTag(tag));
    FilterSame(AllElements(t, None), TagTest(t, tag), StepTest(t, ByTag(tag)));
  }

  /** A class step is looked up by `getElementsByClassName`. */
  lemma CandidatesClass(t: Tree, tagOf: Option<string>, c: string)
    requires ValidTree(t) && WellFormed(ByClass(tagOf, c))
    ensures Candidates(t, Render(ByClass(tagOf, c))) == Matching(t, None, ByClass(tagOf, c))
  {
    CategoryRender(ByClass(tagOf, c));
    ClassLocateRender(t, None, tagOf, c);
  }

  /** An attribute step is looked up by `getElementsByAttribute`. */
  lemma CandidatesAttr(t: Tree, q: Qualifier, a: string, v: Option<string>)
    requires ValidTree(t) && WellFormed(ByAttr(q, a, v))
    ensures Candidates(t, Render(ByAttr(q, a, v))) == Matching(t, None, ByAttr(q, a, v))
  {
    CategoryRender(ByAttr(q, a, v));
    AttrLocateRender(t, None, q, a, v);
  }

  /** `x` is what the step picks as a candidate: a match, and for an id the first one. */
  predicate Selected(t: Tree, st: Step, x: nat)
    requires x < |t|
  {
    StepMatches(t, x, st) && (st.ById? ==> forall k :: 0 <= k < x ==> !HasId(t, k, st.id))
  }

  /** On a rendered last token, an element is a candidate exactly when the step selects it. */
  lemma CandidateIff(t: Tree, st: Step, x: nat)
    requires ValidTree(t) && WellFormed(st) && x < |t|
    ensures x in Candidates(t, Render(st)) <==> Selected(t, st, x)
  {
    CandidatesRender(t, st);
    var m := Matching(t, None, st);
    if st.ById? {
      FirstMatching(t, st.id);
    }
  }

  /** The wildcard `*` alone selects every element of the document. */
  lemma QueryStar(t: Tree)
    requires ValidTree(t)
    ensures QueryReady("*")
    ensures QueryResult(t, "*") == AllElements(t, None)
  {
    var s := "*";
    RunEndIs(s, 0, {' ', '['}, 1);
    RunEndIs(s, 0, {' '}, 1);
    assert BracketTokenEnd(s) == None;
    assert s[..1] == s && s[1..] == [];
    assert Tokens(s) == [s];
    RunEndIs(s, 0, {'['}, 1);
    assert CategoryOf(s, 0) == TagCategory;
  }

  // ---------------------------------------------------------------------
  // The ancestor walker.
  // ---------------------------------------------------------------------

  /** `directChild.test(step)`: a token counts as `>` when it holds one. */
  predicate IsCombinator(token: string) {
    '>' in token
  }

  /** The steps the walker may be given: some, and the first is not `>` (it would read `steps[-1]`). */
  predicate WalkReady(steps: seq<string>) {
    |steps| > 0 && !IsCombinator(steps[0])
  }

  /**
   * What the inner loop decides for a node whose cursor is at `steps[j]`:
   * climb to the parent (the document ends the climb, failed); at a `>`,
   * the parent must match the step to its left or the climb fails; else a
   * matching parent consumes a step and a non-matching one is skipped. The
   * climb succeeds once every step is consumed.
   */
  predicate Walk(t: Tree, steps: seq<string>, j: nat, x: nat)
    requires ValidTree(t) && x < |t| && j < |steps| && WalkReady(steps)
    decreases x
    ensures Walk(t, steps, j, x) ==> exists a: nat :: a < x && IsAncestor(t, a, x) && HasSelector(t, a, steps[0])
  {
    match t[x].parent
    case None => false
    case Some(p) =>
      if IsCombinator(steps[j]) then
        HasSelector(t, p, steps[j - 1]) && (j < 2 || Walk(t, steps, j - 2, p))
      else if HasSelector(t, p, steps[j]) then
        j == 0 || Walk(t, steps, j - 1, p)
      else
        Walk(t, steps, j, p)
  }

  /**
   * The chain `steps[..j+1]` read with backtracking: a descendant step may
   * be matched by any ancestor, not only the nearest that matches; a `>`
   * still asks the parent of the node matched by the step to its right.
   */
  predicate Css(t: Tree, steps: seq<string>, j: nat, x: nat)
    requires ValidTree(t) && x < |t| && j < |steps| && WalkReady(steps)
    decreases x
  {
    match t[x].parent
    case None => false
    case Some(p) =>
      if IsCombinator(steps[j]) then
        HasSelector(t, p, steps[j - 1]) && (j < 2 || Css(t, steps, j - 2, p))
      else
        (HasSelector(t, p, steps[j]) && (j == 0 || Css(t, steps, j - 1, p))) || Css(t, steps, j, p)
  }

  /** The per-candidate test of the outer loop, for the tokens left of the last. */
  function WalkTest(t: Tree, steps: seq<string>): (nat -> bool)
    requires ValidTree(t)
  {
    (x: nat) => x < |t| && WalkReady(steps) && Walk(t, steps, |steps| - 1, x)
  }

  /** What `querySelectorAll` asks of its caller: the first of several tokens is not `>`. */
  predicate QueryReady(selector: string) {
    |Tokens(selector)| > 1 ==> !IsCombinator(Tokens(selector)[0])
  }

  /**
   * What `querySelectorAll(selector)` returns: nothing for a selector
   * without tokens; the candidates of a lone token as they are; otherwise
   * the candidates, in order, whose climb succeeds.
   */
  function QueryResult(t: Tree, selector: string): (r: seq<nat>)
    requires ValidTree(t) && QueryReady(selector)
    ensures forall e :: e in r ==> e < |t|
    ensures Increasing(r)
  {
    var tokens := Tokens(selector);
    if tokens == [] then []
    else
      var candidates := Candidates(t, tokens[|tokens| - 1]);
      if |tokens| == 1 then candidates
      else
        var keep := WalkTest(t, tokens[..|tokens| - 1]);
        FilterMembers(candidates, keep);
        FilterIncreasing(candidates, keep);
        Filter(candidates, keep)
  }

  // ---------------------------------------------------------------------
  // The method, loop for loop.
  // ---------------------------------------------------------------------

  /** The candidate array, computed with the locator methods. */
  method FindCandidates(t: Tree, token: string) returns (candidates: seq<nat>)
    requires ValidTree(t)
    ensures candidates == Candidates(t, token)
  {
    match CategoryOf(token, 0)
    case IdCategory(id) =>
      var el := ElementById(t, id);
      candidates := if el.Some? then [el.value] else [];
    case AttrCategory =>
      var found := GetElementsByAttribute(t, token, None);
      candidates := if found.Some? then found.value else [];
    case DotCategory =>
      candidates := GetElementsByClassName(t, token, None);
    case TagCategory =>
      candidates := ElementsByTagName(t, None, token);
  }

  /** The inner loop: climb from one candidate with the cursor reset to the bottom step. */
  method Climb(t: Tree, steps: seq<string>, candidate: nat) returns (parent: Option<nat>)
    requires ValidTree(t) && candidate < |t| && WalkReady(steps)
    ensures parent.Some? == Walk(t, steps, |steps| - 1, candidate)
  {
    var iBottom := |steps| - 1;
    var j: int := iBottom;
    parent := Some(candidate);
    var climbing := true;
    while climbing
      invariant parent.Some? ==> parent.value < |t|
      invariant climbing ==> parent.Some? && 0 <= j < |steps|
      invariant climbing ==> Walk(t, steps, iBottom, candidate) == Walk(t, steps, j, parent.value)
      invariant !climbing ==> parent.Some? == Walk(t, steps, iBottom, candidate)
      decreases if climbing && parent.Some? then 1 + parent.value else 0
    {
      parent := t[parent.value].parent;
      if parent.None? {
        // reached the document
        climbing := false;
      } else {
        if IsCombinator(steps[j]) {
          j := j - 1;
          if !HasSelector(t, parent.value, steps[j]) {
            parent := None;
            climbing := false;
          } else {
            j := j - 1;
          }
        } else if HasSelector(t, parent.value, steps[j]) {
          j := j - 1;
        }
        if climbing && j < 0 {
          climbing := false;
        }
      }
    }
  }

  /** `querySelectorAll(selector)`: tokenize, pick the candidates, splice out those whose climb fails. */
  method QuerySelectorAll(t: Tree, selector: string) returns (candidates: seq<nat>)
    requires ValidTree(t) && QueryReady(selector)
    ensures candidates == QueryResult(t, selector)
  {
    var steps := Tokens(selector);
    if steps == [] {
      return [];
    }
    var stepsL := |steps|;
    candidates := FindCandidates(t, steps[stepsL - 1]);
    if stepsL > 1 {
      assert steps[..stepsL - 1][0] == steps[0];
      candidates := SpliceFailedClimbs(t, steps[..stepsL - 1], candidates);
    }
  }

  /** The outer loop of `querySelectorAll`: each candidate whose climb fails is spliced out in place. */
  method SpliceFailedClimbs(t: Tree, steps: seq<string>, found: seq<nat>) returns (candidates: seq<nat>)
    requires ValidTree(t) && WalkReady(steps) && forall e :: e in found ==> e < |t|
    ensures candidates == Filter(found, WalkTest(t, steps))
  {
    candidates := found;
    ghost var k: nat := 0;
    var candidatesL := |candidates|;
    var i: int := 0;
    while i < candidatesL
      invariant 0 <= i <= candidatesL == |candidates| && k <= |found|
      invariant forall e :: e in candidates ==> e < |t|
      invariant candidates[..i] == Filter(found[..k], WalkTest(t, steps))
      invariant candidates[i..] == found[k..]
      decreases candidatesL - i
    {
      assert candidates[i] in candidates;
      var parent := Climb(t, steps, candidates[i]);
      if parent.None? {
        CutStep(candidates, found, i, k, WalkTest(t, steps));
        candidates := candidates[..i] + candidates[i + 1..];
        candidatesL := candidatesL - 1;
        i := i - 1;
      } else {
        KeepStep(candidates, found, i, k, WalkTest(t, steps));
      }
      i := i + 1;
      k := k + 1;
    }
    LoopDone(candidates, found, k, WalkTest(t, steps));
  }

  // ---------------------------------------------------------------------
  // The walker against the backtracking reading.
  // ---------------------------------------------------------------------

  /** Every climb the loop accepts is a match of the chain. */
  lemma {:induction false} WalkSound(t: Tree, steps: seq<string>, j: nat, x: nat)
    requires ValidTree(t) && x < |t| && j < |steps| && WalkReady(steps)
    requires Walk(t, steps, j, x)
    ensures Css(t, steps, j, x)
    decreases x
  {
    var p := t[x].parent.value;
    assert t[x].parent == Some(p) && p < x;
    if IsCombinator(steps[j]) {
      if j >= 2 {
        WalkSound(t, steps, j - 2, p);
      }
      assert HasSelector(t, p, steps[j - 1]) && (j < 2 || Css(t, steps, j - 2, p));
    } else if HasSelector(t, p, steps[j]) {
      if j > 0 {
        WalkSound(t, steps, j - 1, p);
      }
      assert j == 0 || Css(t, steps, j - 1, p);
    } else {
      WalkSound(t, steps, j, p);
      assert Css(t, steps, j, p);
    }
  }

  predicate NoCombinator(steps: seq<string>) {
    forall k :: 0 <= k < |steps| ==> !IsCombinator(steps[k])
  }

  /** Without `>`, a node below a match of `steps[..j+1]` is below a match of `steps[..j]`. */
  lemma {:induction false} CssLift(t: Tree, steps: seq<string>, j: nat, x: nat)
    requires ValidTree(t) && x < |t| && 0 < j < |steps| && WalkReady(steps) && NoCombinator(steps)
    requires Css(t, steps, j, x)
    ensures Css(t, steps, j - 1, x)
    decreases x
  {
    var p := t[x].parent.value;
    if !(HasSelector(t, p, steps[j]) && Css(t, steps, j - 1, p)) {
      CssLift(t, steps, j, p);
    }
  }

  /** Without `>`, taking the nearest matching ancestor never loses a match. */
  lemma {:induction false} WalkComplete(t: Tree, steps: seq<string>, j: nat, x: nat)
    requires ValidTree(t) && x < |t| && j < |steps| && WalkReady(steps) && NoCombinator(steps)
    requires Css(t, steps, j, x)
    ensures Walk(t, steps, j, x)
    decreases x
  {
    var p := t[x].parent.value;
    if HasSelector(t, p, steps[j]) {
      if j > 0 {
        if !Css(t, steps, j - 1, p) {
          CssLift(t, steps, j, p);
        }
        WalkComplete(t, steps, j - 1, p);
      }
    } else {
      WalkComplete(t, steps, j, p);
    }
  }

  /** Without `>`, the walker is exactly the backtracking reading. */
  lemma WalkExact(t: Tree, steps: seq<string>, j: nat, x: nat)
    requires ValidTree(t) && x < |t| && j < |steps| && WalkReady(steps) && NoCombinator(steps)
    ensures Walk(t, steps, j, x) <==> Css(t, steps, j, x)
  {
    if Walk(t, steps, j, x) {
      WalkSound(t, steps, j, x);
    }
    if Css(t, steps, j, x) {
      WalkComplete(t, steps, j, x);
    }
  }

  /** The tree `a > b > b > c`, elements 0 to 3. */
  function Ladder(): Tree {
    [ Node("a", "", map[], None), Node("b", "", map[], Some(0)),
      Node("b", "", map[], Some(1)), Node("c", "", map[], Some(2)) ]
  }

  /** The ladder is a tree a DOM can hold. */
  lemma LadderValid()
    ensures ValidTree(Ladder())
  {
    var t := Ladder();
    assert LowerCase(t[0].tag) && LowerCase(t[1].tag) && LowerCase(t[2].tag) && LowerCase(t[3].tag);
    assert ClassReflected(t[0]) && ClassReflected(t[1]) && ClassReflected(t[2]) && ClassReflected(t[3]);
  }

  /**
   * After `>` there is no retry higher up: for `a > b c` the element `c`
   * sits below a `b` whose parent is an `a`, but the walker consumes `b` at
   * the nearest `b`, whose parent is not an `a`, and drops `c`.
   */
  lemma ChildNoRetry()
    ensures ValidTree(Ladder()) && WalkReady(["a", ">", "b"])
    ensures Css(Ladder(), ["a", ">", "b"], 2, 3)
    ensures !Walk(Ladder(), ["a", ">", "b"], 2, 3)
  {
    LadderValid();
    var t, steps := Ladder(), ["a", ">", "b"];
    ReadTag("a");
    ReadTag("b");
    assert IsName("a") && IsName("b");
    assert HasSelector(t, 0, "a") && HasSelector(t, 2, "b") && HasSelector(t, 1, "b");
    assert !HasSelector(t, 1, "a");
    assert IsCombinator(">") && !IsCombinator("a") && !IsCombinator("b");
    assert Css(t, steps, 1, 1);
    assert Css(t, steps, 2, 2);
    assert !Walk(t, steps, 1, 2);
  }

  // ---------------------------------------------------------------------
  // What the query returns.
  // ---------------------------------------------------------------------

  /** A selector without a non-space character selects nothing. */
  lemma QueryBlank(t: Tree, selector: string)
    requires ValidTree(t) && forall k :: 0 <= k < |selector| ==> selector[k] == ' '
    ensures QueryReady(selector)
    ensures QueryResult(t, selector) == []
  {
    TokensEmptyIff(selector);
  }

  /** A lone token returns its candidates unfiltered. */
  lemma QueryLoneToken(t: Tree, selector: string)
    requires ValidTree(t) && |Tokens(selector)| == 1
    ensures QueryReady(selector)
    ensures QueryResult(t, selector) == Candidates(t, Tokens(selector)[0])
  {
  }

  /** The result keeps a subsequence of the candidates, in their order. */
  lemma QuerySubsequence(t: Tree, selector: string)
    requires ValidTree(t) && QueryReady(selector) && Tokens(selector) != []
    ensures var tokens := Tokens(selector);
      IsSubsequence(QueryResult(t, selector), Candidates(t, tokens[|tokens| - 1]))
  {
    var tokens := Tokens(selector);
    var candidates := Candidates(t, tokens[|tokens| - 1]);
    var r := QueryResult(t, selector);
    if |tokens| > 1 {
      var keep := WalkTest(t, tokens[..|tokens| - 1]);
      assert r == Filter(candidates, keep);
      FilterIsSubsequence(candidates, keep);
    } else {
      assert r == candidates;
      SubsequenceSelf(candidates);
    }
  }

  /** An id as the last step yields one element at most, even when the id is repeated in the tree. */
  lemma QueryIdAtMostOne(t: Tree, selector: string)
    requires ValidTree(t) && QueryReady(selector) && Tokens(selector) != []
    requires var tokens := Tokens(selector); CategoryOf(tokens[|tokens| - 1], 0).IdCategory?
    ensures |QueryResult(t, selector)| <= 1
  {
    var tokens := Tokens(selector);
    var candidates := Candidates(t, tokens[|tokens| - 1]);
    assert |candidates| <= 1;
    FilterLength(candidates, WalkTest(t, tokens[..|tokens| - 1]));
  }

  /**
   * Each candidate is judged on its own: it stays exactly when its climb
   * with the cursor at the bottom step succeeds.
   */
  lemma QueryMembers(t: Tree, selector: string, x: nat)
    requires ValidTree(t) && QueryReady(selector) && |Tokens(selector)| > 1
    ensures var tokens := Tokens(selector); var steps := tokens[..|tokens| - 1];
      x in QueryResult(t, selector) <==>
        x in Candidates(t, tokens[|tokens| - 1]) && Walk(t, steps, |steps| - 1, x)
  {
    var tokens := Tokens(selector);
    var steps := tokens[..|tokens| - 1];
    var candidates := Candidates(t, tokens[|tokens| - 1]);
    FilterMembers(candidates, WalkTest(t, steps));
    assert WalkReady(steps);
  }

  /**
   * `x` matches, in the backtracking reading, the chain of the tokens
   * before the last, and is selected by the last token when that is a
   * rendered step.
   */
  ghost predicate ChainSelects(t: Tree, tokens: seq<string>, x: nat)
    requires ValidTree(t)
  {
    |tokens| > 1 && x < |t| && ChainHolds(t, tokens[..|tokens| - 1], x) && LastSelected(t, tokens[|tokens| - 1], x)
  }

  /** `x` matches the chain `steps` in the backtracking reading. */
  predicate ChainHolds(t: Tree, steps: seq<string>, x: nat)
    requires ValidTree(t)
  {
    x < |t| && WalkReady(steps) && Css(t, steps, |steps| - 1, x)
  }

  /** Every element returned matches the chain and is selected by the last token. */
  lemma QuerySound(t: Tree, selector: string, x: nat)
    requires ValidTree(t) && QueryReady(selector) && |Tokens(selector)| > 1
    requires x in QueryResult(t, selector)
    ensures ChainSelects(t, Tokens(selector), x)
  {
    var tokens := Tokens(selector);
    assert tokens[..|tokens| - 1][0] == tokens[0];
    ChainSound(t, tokens, x);
  }

  /** A candidate the outer loop keeps matches the chain and is selected by the last token. */
  lemma ChainSound(t: Tree, tokens: seq<string>, x: nat)
    requires ValidTree(t) && |tokens| > 1 && WalkReady(tokens[..|tokens| - 1])
    requires x in Filter(Candidates(t, tokens[|tokens| - 1]), WalkTest(t, tokens[..|tokens| - 1]))
    ensures ChainSelects(t, tokens, x)
  {
    var steps := tokens[..|tokens| - 1];
    KeptSound(t, steps, Candidates(t, tokens[|tokens| - 1]), x);
    CandidateSelected(t, tokens[|tokens| - 1], x);
  }

  /** A candidate the outer loop keeps is a candidate that matches the chain. */
  lemma KeptSound(t: Tree, steps: seq<string>, candidates: seq<nat>, x: nat)
    requires ValidTree(t) && x in Filter(candidates, WalkTest(t, steps))
    ensures x in candidates && ChainHolds(t, steps, x)
  {
    FilterMembers(candidates, WalkTest(t, steps));
    WalkSound(t, steps, |steps| - 1, x);
  }

  /** Whatever well-formed step `token` renders, that step selects `x`. */
  ghost predicate LastSelected(t: Tree, token: string, x: nat)
    requires x < |t|
  {
    forall st :: WellFormed(st) && Render(st) == token ==> Selected(t, st, x)
  }

  /** A candidate of a rendered token is selected by its step. */
  lemma CandidateSelected(t: Tree, token: string, x: nat)
    requires ValidTree(t) && x < |t| && x in Candidates(t, token)
    ensures LastSelected(t, token, x)
  {
    forall st | WellFormed(st) && Render(st) == token ensures Selected(t, st, x) {
      CandidateIff(t, st, x);
    }
  }

  /**
   * The last token is the rendered step `st`, which selects `x`, and `x`
   * matches, in the backtracking reading, the chain of the tokens before
   * it, none of which is `>`.
   */
  predicate ChainMatch(t: Tree, tokens: seq<string>, st: Step, x: nat)
    requires ValidTree(t)
  {
    && |tokens| > 1 && NoCombinator(tokens)
    && WellFormed(st) && tokens[|tokens| - 1] == Render(st) && x < |t| && Selected(t, st, x)
    && var steps := tokens[..|tokens| - 1];
      WalkReady(steps) && Css(t, steps, |steps| - 1, x)
  }

  /** Without `>`, every element the last step selects and the chain matches is returned. */
  lemma QueryComplete(t: Tree, selector: string, st: Step, x: nat)
    requires ValidTree(t) && ChainMatch(t, Tokens(selector), st, x)
    ensures QueryReady(selector)
    ensures x in QueryResult(t, selector)
  {
    ChainComplete(t, Tokens(selector), st, x);
  }

  /** The filter of the outer loop keeps a candidate that matches a chain without `>`. */
  lemma ChainComplete(t: Tree, tokens: seq<string>, st: Step, x: nat)
    requires ValidTree(t) && ChainMatch(t, tokens, st, x)
    ensures x in Filter(Candidates(t, tokens[|tokens| - 1]), WalkTest(t, tokens[..|tokens| - 1]))
  {
    var steps := tokens[..|tokens| - 1];
    var candidates := Candidates(t, tokens[|tokens| - 1]);
    CandidateIff(t, st, x);
    assert x in candidates && x < |t| && WalkReady(steps) && Css(t, steps, |steps| - 1, x);
    assert NoCombinator(steps) by {
      forall k | 0 <= k < |steps| ensures !IsCombinator(steps[k]) {
        assert steps[k] == tokens[k];
      }
    }
    WalkComplete(t, steps, |steps| - 1, x);
    var keep := WalkTest(t, steps);
    assert keep(x);
    FilterMembers(candidates, keep);
  }
}
