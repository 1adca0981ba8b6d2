/**
 * One step of a selector chain (`#id`, `tag`, `.c`, `tag.c`, `tag[a]`,
 * `tag[a="v"]`, `.c[a]`, `.c[a="v"]`) and `hasSelector`, which tests one
 * element against one step.
 *
 * `hasSelector` works by matching regular expressions against the step
 * text. Each expression is written out below as a scan over positions
 * that returns what the host's leftmost, greedy match returns; the step
 * the matches describe is `ReadStep`, and the element test is
 * `StepMatches`. For steps built by `Render` from well-formed parts,
 * `ReadStep` gives the parts back.
 */
module Steps {
  import opened Wrappers
  import opened Text
  import opened Dom

  /** What the shape expression `(\.?[^\[]+\[[^\]]+\])|(\.)` found first. */
  datatype Shape = BracketShape | DotShape | NoShape

  /** The pieces of the attribute expression `([^\[]+)\[([^=\]]+)(?:="([^"]+))?`. */
  datatype AttrParts = AttrParts(qual: string, name: string, value: Option<string>)

  /** The pieces of a class expression: `tag` is empty when its optional group did not take part. */
  datatype ClassParts = ClassParts(tag: string, cls: string)

  /** What the first token of a chain is qualified by, before `[`. */
  datatype Qualifier = QTag(tag: string) | QClass(cls: string)

  /** One step of the documented grammar. */
  datatype Step =
    | ById(id: string)
    | ByTag(tag: string)
    | ByClass(tagOf: Option<string>, cls: string)
    | ByAttr(qual: Qualifier, attr: string, value: Option<string>)

  /** No character of `s` is in `stops`. */
  predicate NoneOf(s: string, stops: set<char>) {
    forall k :: 0 <= k < |s| ==> s[k] !in stops
  }

  /** A run end found from a slice known to be free of stop characters. */
  lemma RunEndIn(s: string, i: nat, j: nat, stops: set<char>)
    requires i <= j <= |s|
    requires NoneOf(s[i..j], stops)
    requires j == |s| || s[j] in stops
    ensures RunEnd(s, i, stops) == j
  {
    forall k | i <= k < j ensures s[k] !in stops {
      assert s[k] == s[i..j][k - i];
    }
    RunEndIs(s, i, stops, j);
  }

  // ---------------------------------------------------------------------
  // The regular expressions of hasSelector, as scans.
  // ---------------------------------------------------------------------

  /**
   * At `p`, the first alternative of the shape expression matches: a
   * non-empty run without `[`, then `[`, a non-empty run without `]`, then `]`.
   * The optional leading dot changes nothing about whether it matches.
   */
  predicate BracketGroupAt(s: string, p: nat)
    requires p <= |s|
  {
    var b := RunEnd(s, p, {'['});
    b > p && b < |s| && RunEnd(s, b + 1, {']'}) > b + 1 && RunEnd(s, b + 1, {']'}) < |s|
  }

  /** The shape expression, tried at `p`, `p+1`, … in turn. */
  function SelectorShape(s: string, p: nat): Shape
    requires p <= |s|
    decreases |s| - p
  {
    if p == |s| then NoShape
    else if BracketGroupAt(s, p) then BracketShape
    else if s[p] == '.' then DotShape
    else SelectorShape(s, p + 1)
  }

  /** The optional `="v"` part after the attribute name, which ends at `e`. */
  function AttrValue(s: string, e: nat): Option<string>
    requires e <= |s|
  {
    if e + 2 < |s| && s[e] == '=' && s[e + 1] == '"' && s[e + 2] != '"'
    then Some(s[e + 2..RunEnd(s, e + 2, {'"'})])
    else None
  }

  /**
   * The attribute expression from `p` on. A start before the next `[` can
   * only match with that `[`, so a failed attempt resumes after it.
   */
  function AttrChunk(s: string, p: nat): Option<AttrParts>
    requires p <= |s|
    decreases |s| - p
  {
    var b := RunEnd(s, p, {'['});
    if b == |s| then None
    else
      var e := RunEnd(s, b + 1, {'=', ']'});
      if b > p && e > b + 1 then Some(AttrParts(s[p..b], s[b + 1..e], AttrValue(s, e)))
      else AttrChunk(s, b + 1)
  }

  /** `([^ \.]+)?\.([^ ]+)` from `p` on: the tag group stops at the first dot. */
  function ClassChunkFirstDot(s: string, p: nat): Option<ClassParts>
    requires p <= |s|
    decreases |s| - p
  {
    if p == |s| then None
    else
      var q := RunEnd(s, p, {' ', '.'});
      if q + 1 < |s| && s[q] == '.' && s[q + 1] != ' '
      then Some(ClassParts(s[p..q], s[q + 1..RunEnd(s, q + 1, {' '})]))
      else ClassChunkFirstDot(s, p + 1)
  }

  /** `#([^#]+)` from `p` on. */
  function IdChunk(s: string, p: nat): Option<string>
    requires p <= |s|
    decreases |s| - p
  {
    if p == |s| then None
    else if s[p] == '#' && p + 1 < |s| && s[p + 1] != '#'
    then Some(s[p + 1..RunEnd(s, p + 1, {'#'})])
    else IdChunk(s, p + 1)
  }

  /**
   * The step `hasSelector` reads out of its text, following its dispatch:
   * a bracket group means an attribute step, qualified by a class when the
   * part before `[` holds a dot (the first character is then dropped);
   * otherwise a dot means a class step; otherwise `#` means an id; and
   * otherwise the whole text is a tag name. `None` where the source indexes
   * a failed match and throws.
   */
  function ReadStep(s: string): (r: Option<Step>)
    ensures NoneOf(s, {'[', '.', '#'}) ==> r == Some(ByTag(s))
    ensures r.None? ==> '[' in s || '.' in s
  {
    ScanFacts(s);
    match SelectorShape(s, 0)
    case BracketShape =>
      (match AttrChunk(s, 0)
       case None => None
       case Some(m) =>
         Some(ByAttr(if '.' in m.qual then QClass(m.qual[1..]) else QTag(m.qual), m.name, m.value)))
    case DotShape =>
      (match ClassChunkFirstDot(s, 0)
       case None => None
       case Some(m) => Some(ByClass(if m.tag == "" then None else Some(m.tag), m.cls)))
    case NoShape =>
      (match IdChunk(s, 0)
       case Some(id) => Some(ById(id))
       case None => Some(ByTag(s)))
  }

  /**
   * Without `[` the shape expression finds no bracket group, and finds a dot
   * exactly when there is one; without `#` the id expression finds nothing.
   */
  lemma ScanFacts(s: string)
    ensures '[' !in s ==> SelectorShape(s, 0) == if '.' in s then DotShape else NoShape
    ensures NoneOf(s, {'#'}) ==> IdChunk(s, 0) == None
  {
    if '[' !in s {
      assert NoneOf(s, {'['}) by {
        forall k | 0 <= k < |s| ensures s[k] !in {'['} {
          assert s[k] in s;
        }
      }
      ShapeWithoutBracket(s, 0);
      assert s[0..] == s;
    }
    if NoneOf(s, {'#'}) {
      NoIdChunk(s, 0);
    }
  }

  /** The element test each kind of step stands for. */
  predicate StepMatches(t: Tree, e: nat, st: Step)
    requires e < |t|
  {
    match st
    case ById(id) => HasId(t, e, id)
    case ByTag(tag) => HasName(t, e, tag)
    case ByClass(tagOf, c) => (tagOf.Some? ==> HasName(t, e, tagOf.value)) && HasClassName(t, e, c)
    case ByAttr(q, a, v) =>
      (match q
       case QTag(tag) => HasName(t, e, tag)
       case QClass(c) => HasClassName(t, e, c))
      && (match v
          case None => GetAttribute(t, e, a).Some?
          case Some(x) => GetAttribute(t, e, a) == Some(x))
  }

  /** `hasSelector(elem, selector)`; `false` where the source would throw. */
  predicate HasSelector(t: Tree, e: nat, s: string)
    requires e < |t|
  {
    match ReadStep(s)
    case None => false
    case Some(st) => StepMatches(t, e, st)
  }

  // ---------------------------------------------------------------------
  // Well-formed steps and their text.
  // ---------------------------------------------------------------------

  /** Characters a tag, class, id or attribute name may not hold. */
  const NameStops: set<char> := {' ', '.', '#', '[', ']', '=', '"', '>'}

  /** Characters an attribute value may not hold. */
  const ValueStops: set<char> := {' ', '"', ']', '>'}

  predicate IsName(s: string) {
    |s| > 0 && NoneOf(s, NameStops)
  }

  predicate IsValue(s: string) {
    |s| > 0 && NoneOf(s, ValueStops)
  }

  /**
   * A tag name other than `*`: the host reads the tag `*` as every element,
   * while `hasName` compares it literally, so `*` is not a step of the grammar.
   */
  predicate IsTag(s: string) {
    IsName(s) && s != "*"
  }

  predicate WellFormed(st: Step) {
    match st
    case ById(id) => IsName(id)
    case ByTag(tag) => IsTag(tag)
    case ByClass(tagOf, c) => (tagOf.Some? ==> IsTag(tagOf.value)) && IsName(c)
    case ByAttr(q, a, v) =>
      (if q.QTag? then IsTag(q.tag) else IsName(q.cls)) && IsName(a) && (v.Some? ==> IsValue(v.value))
  }

  function QualText(q: Qualifier): string {
    match q
    case QTag(tag) => tag
    case QClass(c) => "." + c
  }

  /** The `="v"` part of an attribute step, empty when only presence is asked. */
  function ValueText(v: Option<string>): string {
    match v
    case None => ""
    case Some(x) => "=\"" + x + "\""
  }

  /** The text of a step, as a selector writes it. */
  function Render(st: Step): string {
    match st
    case ById(id) => "#" + id
    case ByTag(tag) => tag
    case ByClass(None, c) => "." + c
    case ByClass(Some(tag), c) => tag + "." + c
    case ByAttr(q, a, v) => QualText(q) + "[" + a + ValueText(v) + "]"
  }

  // ---------------------------------------------------------------------
  // Reading a rendered step gives it back.
  // ---------------------------------------------------------------------

  /** Without `[`, the shape is a dot exactly when a dot is left to find. */
  lemma {:induction false} ShapeWithoutBracket(s: string, p: nat)
    requires p <= |s| && NoneOf(s, {'['})
    ensures SelectorShape(s, p) == if '.' in s[p..] then DotShape else NoShape
    decreases |s| - p
  {
    if p < |s| {
      RunEndIn(s, p, |s|, {'['});
      if s[p] != '.' {
        ShapeWithoutBracket(s, p + 1);
        assert s[p..] == [s[p]] + s[p + 1..];
      }
    }
  }

  /** Without `#` there is no id to find. */
  lemma {:induction false} NoIdChunk(s: string, p: nat)
    requires p <= |s| && NoneOf(s, {'#'})
    ensures IdChunk(s, p) == None
    decreases |s| - p
  {
    if p < |s| {
      NoIdChunk(s, p + 1);
    }
  }

  /** A name holds none of the given stop characters. */
  lemma NameAvoids(s: string, stops: set<char>)
    requires NoneOf(s, NameStops) && stops <= NameStops
    ensures NoneOf(s, stops)
  {
  }

  lemma ReadId(id: string)
    requires IsName(id)
    ensures ReadStep(Render(ById(id))) == Some(ById(id))
  {
    var s := "#" + id;
    assert s[1..] == id && s[1..|s|] == id;
    NameAvoids(id, {'[', '.'});
    NameAvoids(id, {'#'});
    assert NoneOf(s, {'[', '.'}) by {
      forall k | 0 <= k < |s| ensures s[k] !in {'[', '.'} {
        if k > 0 { assert s[k] == id[k - 1]; }
      }
    }
    assert s[0..] == s;
    ShapeWithoutBracket(s, 0);
    assert SelectorShape(s, 0) == NoShape;
    RunEndIn(s, 1, |s|, {'#'});
    assert IdChunk(s, 0) == Some(id);
  }

  lemma ReadTag(tag: string)
    requires IsName(tag)
    ensures ReadStep(Render(ByTag(tag))) == Some(ByTag(tag))
  {
    NameAvoids(tag, {'['});
    NameAvoids(tag, {'#'});
    assert '.' !in tag[0..];
    ShapeWithoutBracket(tag, 0);
    NoIdChunk(tag, 0);
  }

  /** Stop-free strings stay stop-free when joined. */
  lemma NoneOfConcat(x: string, y: string, stops: set<char>)
    requires NoneOf(x, stops) && NoneOf(y, stops)
    ensures NoneOf(x + y, stops)
  {
    forall k | 0 <= k < |x + y| ensures (x + y)[k] !in stops {
      if k >= |x| { assert (x + y)[k] == y[k - |x|]; }
    }
  }

  /** `pre.c`, or `.c` when `pre` is empty, reads back as a class step. */
  lemma ReadDotted(pre: string, c: string)
    requires (pre == "" || IsName(pre)) && IsName(c)
    ensures ReadStep(pre + "." + c) == Some(ByClass(if pre == "" then None else Some(pre), c))
  {
    var s := pre + "." + c;
    NameAvoids(c, {'['});
    NameAvoids(c, {' '});
    NameAvoids(pre, {'['});
    NameAvoids(pre, {' ', '.'});
    NoneOfConcat(pre, ".", {'['});
    NoneOfConcat(pre + ".", c, {'['});
    assert s[0..] == s && s[|pre|] == '.';
    ShapeWithoutBracket(s, 0);
    assert s[0..|pre|] == pre && s[|pre| + 1..|s|] == c;
    RunEndIn(s, 0, |pre|, {' ', '.'});
    RunEndIn(s, |pre| + 1, |s|, {' '});
    assert s[|pre| + 1] == c[0];
    assert ClassChunkFirstDot(s, 0) == Some(ClassParts(pre, c));
  }

  lemma ReadClass(tagOf: Option<string>, c: string)
    requires (tagOf.Some? ==> IsName(tagOf.value)) && IsName(c)
    ensures ReadStep(Render(ByClass(tagOf, c))) == Some(ByClass(tagOf, c))
  {
    if tagOf.Some? {
      ReadDotted(tagOf.value, c);
    } else {
      ReadDotted("", c);
      assert "" + "." + c == "." + c;
    }
  }

  /** The text of a step's qualifier, and what reading it back makes of it. */
  lemma QualRead(q: Qualifier)
    requires IsName(if q.QTag? then q.tag else q.cls)
    ensures |QualText(q)| > 0 && NoneOf(QualText(q), {'[', '=', ']', '"', ' '})
    ensures (if '.' in QualText(q) then QClass(QualText(q)[1..]) else QTag(QualText(q))) == q
  {
    match q
    case QTag(tag) =>
      NameAvoids(tag, {'[', '=', ']', '"', ' '});
      assert '.' !in tag;
    case QClass(c) =>
      NameAvoids(c, {'[', '=', ']', '"', ' '});
      assert ("." + c)[0] == '.';
      assert ("." + c)[1..] == c;
  }

  /** The `="v"` part of an attribute step holds no `]` and starts with `=`. */
  lemma ValueTextFacts(v: Option<string>)
    requires v.Some? ==> IsValue(v.value)
    ensures NoneOf(ValueText(v), {']'})
    ensures ValueText(v) == "" || ValueText(v)[0] == '='
  {
    if v.Some? {
      var vt := ValueText(v);
      forall k | 0 <= k < |vt| ensures vt[k] != ']' {
        if 2 <= k < |vt| - 1 { assert vt[k] == v.value[k - 2]; }
      }
    }
  }

  /** Reading the optional value back from where the attribute name ends. */
  lemma AttrValueAt(s: string, e: nat, v: Option<string>)
    requires e <= |s| && (v.Some? ==> IsValue(v.value))
    requires s[e..] == ValueText(v) + "]"
    ensures AttrValue(s, e) == v
  {
    var tail := ValueText(v) + "]";
    assert |s| == e + |tail|;
    if v.Some? {
      QuotedValueAt(s, e, v.value);
    } else {
      assert s[e] == s[e..][0] == ']';
    }
  }

  /** Reading `="x"]` back from where the attribute name ends. */
  lemma QuotedValueAt(s: string, e: nat, x: string)
    requires e <= |s| && IsValue(x)
    requires s[e..] == "=\"" + x + "\"]"
    ensures AttrValue(s, e) == Some(x)
  {
    var tail := "=\"" + x + "\"]";
    var n := e + 2 + |x|;
    forall k | 0 <= k < |tail| ensures s[e + k] == tail[k] {
      assert s[e..][k] == s[e + k];
    }
    assert s[e] == tail[0] == '=' && s[e + 1] == tail[1] == '"';
    assert s[n] == tail[2 + |x|] == '"';
    NameAvoidsValue(x);
    forall k | e + 2 <= k < n ensures s[k] !in {'"'} && s[k] == x[k - e - 2] {
      assert s[k] == tail[k - e] == x[k - e - 2];
    }
    RunEndIs(s, e + 2, {'"'}, n);
    assert s[e + 2..n] == x;
  }

  /** A value holds no `"`. */
  lemma NameAvoidsValue(x: string)
    requires IsValue(x)
    ensures NoneOf(x, {'"'})
  {
  }

  /** Where the pieces of `qt[a…]` lie. */
  lemma BracketedSlices(qt: string, a: string, vt: string)
    ensures var s := qt + "[" + a + vt + "]";
      && |s| == |qt| + |a| + |vt| + 2
      && s[0..|qt|] == qt && s[|qt|] == '['
      && s[|qt| + 1..|qt| + 1 + |a|] == a
      && s[|qt| + 1..|s| - 1] == a + vt
      && s[|qt| + 1 + |a|..] == vt + "]"
      && s[|s| - 1] == ']'
  {
    var s := qt + "[" + a + vt + "]";
    assert s == qt + ("[" + (a + (vt + "]")));
  }

  /** The shape expression and the attribute expression both see `qt[a…]` as a bracket group. */
  lemma BracketedParts(s: string, qt: string, a: string, vt: string)
    requires |qt| > 0 && NoneOf(qt, {'['})
    requires |a| > 0 && NoneOf(a, {'=', ']'})
    requires NoneOf(vt, {']'}) && (vt == "" || vt[0] == '=')
    requires |s| == |qt| + |a| + |vt| + 2
    requires s[0..|qt|] == qt && s[|qt|] == '['
    requires s[|qt| + 1..|qt| + 1 + |a|] == a && s[|qt| + 1..|s| - 1] == a + vt
    requires s[|qt| + 1 + |a|..] == vt + "]" && s[|s| - 1] == ']'
    ensures RunEnd(s, 0, {'['}) == |qt|
    ensures RunEnd(s, |qt| + 1, {'=', ']'}) == |qt| + 1 + |a|
    ensures BracketGroupAt(s, 0)
  {
    var b, e := |qt|, |qt| + 1 + |a|;
    RunEndIn(s, 0, b, {'['});
    NoneOfConcat(a, vt, {']'});
    RunEndIn(s, b + 1, |s| - 1, {']'});
    assert s[e] == (vt + "]")[0];
    RunEndIn(s, b + 1, e, {'=', ']'});
  }

  /** The attribute expression, once its two runs are known, splits `s` at them. */
  lemma AttrChunkAt(s: string, b: nat, e: nat)
    requires b < |s| && RunEnd(s, 0, {'['}) == b && b > 0
    requires b + 1 <= |s| && RunEnd(s, b + 1, {'=', ']'}) == e && e > b + 1
    ensures AttrChunk(s, 0) == Some(AttrParts(s[0..b], s[b + 1..e], AttrValue(s, e)))
  {
  }

  /** The two expressions split `qt[a…]` into the qualifier, the name and the value. */
  lemma AttrChunkOf(s: string, qt: string, a: string, v: Option<string>)
    requires |qt| > 0 && NoneOf(qt, {'['})
    requires |a| > 0 && NoneOf(a, {'=', ']'})
    requires v.Some? ==> IsValue(v.value)
    requires |s| == |qt| + |a| + |ValueText(v)| + 2
    requires s[0..|qt|] == qt && s[|qt|] == '['
    requires s[|qt| + 1..|qt| + 1 + |a|] == a && s[|qt| + 1..|s| - 1] == a + ValueText(v)
    requires s[|qt| + 1 + |a|..] == ValueText(v) + "]" && s[|s| - 1] == ']'
    ensures SelectorShape(s, 0) == BracketShape
    ensures AttrChunk(s, 0) == Some(AttrParts(qt, a, v))
  {
    var b, e := |qt|, |qt| + 1 + |a|;
    ValueTextFacts(v);
    BracketedParts(s, qt, a, ValueText(v));
    AttrValueAt(s, e, v);
    AttrChunkAt(s, b, e);
  }

  /** A bracket group read by the attribute expression becomes an attribute step. */
  lemma ReadBracket(s: string, m: AttrParts)
    requires SelectorShape(s, 0) == BracketShape && AttrChunk(s, 0) == Some(m)
    ensures ReadStep(s) == Some(ByAttr(if '.' in m.qual then QClass(m.qual[1..]) else QTag(m.qual), m.name, m.value))
  {
  }

  lemma ReadAttr(q: Qualifier, a: string, v: Option<string>)
    requires WellFormed(ByAttr(q, a, v))
    ensures ReadStep(Render(ByAttr(q, a, v))) == Some(ByAttr(q, a, v))
  {
    var qt, vt := QualText(q), ValueText(v);
    var s := qt + "[" + a + vt + "]";
    assert Render(ByAttr(q, a, v)) == s;
    QualRead(q);
    NameAvoids(a, {'=', ']'});
    BracketedSlices(qt, a, vt);
    AttrChunkOf(s, qt, a, v);
    ReadBracket(s, AttrParts(qt, a, v));
  }

  /** `hasSelector` reads every well-formed step back from its text. */
  lemma ReadRender(st: Step)
    requires WellFormed(st)
    ensures ReadStep(Render(st)) == Some(st)
  {
    match st
    case ById(id) => ReadId(id);
    case ByTag(tag) => ReadTag(tag);
    case ByClass(tagOf, c) => ReadClass(tagOf, c);
    case ByAttr(q, a, v) => ReadAttr(q, a, v);
  }

  /**
   * On a rendered step, `hasSelector` is the step's element test: an id is
   * the `id` attribute, `tag.c` is the tag and the class token, `.c[a]` is
   * the class and the attribute's presence, `x[a="v"]` is the qualifier and
   * the attribute's exact value, and a bare word is the tag name.
   */
  lemma HasSelectorRender(t: Tree, e: nat, st: Step)
    requires e < |t| && WellFormed(st)
    ensures HasSelector(t, e, Render(st)) == StepMatches(t, e, st)
  {
    ReadRender(st);
  }

  /** Different well-formed steps have different texts. */
  lemma RenderInjective(a: Step, b: Step)
    requires WellFormed(a) && WellFormed(b) && Render(a) == Render(b)
    ensures a == b
  {
    ReadRender(a);
    ReadRender(b);
  }
}
