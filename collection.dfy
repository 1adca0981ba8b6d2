/**
 * The jArgon object: a document whose elements' class strings the library
 * rewrites, and the collection of element handles the library wraps, with
 * its three private helpers `hasAny`, `getElements` and `mutate` and the
 * class-string edits that `mutate` applies.
 *
 * Each helper receives its checking, locating or editing function as an
 * argument; here that argument is one of a small set of named choices.
 */
module Collection {
  import opened Wrappers
  import opened Text
  import opened Seqs
  import opened Dom
  import opened Steps
  import opened Locators
  import opened Query
  import ClassNames

  // ---------------------------------------------------------------------
  // The functions handed to the helpers.
  // ---------------------------------------------------------------------

  /** The checks `hasAny` is handed: `hasName`, `hasClassName`, `hasSelector`. */
  datatype Check = NameCheck | ClassCheck | SelectorCheck

  function Checked(t: Tree, e: nat, criterion: string, check: Check): bool
    requires e < |t|
  {
    match check
    case NameCheck => HasName(t, e, criterion)
    case ClassCheck => HasClassName(t, e, criterion)
    case SelectorCheck => HasSelector(t, e, criterion)
  }

  /** What `hasAny` returns: a bare boolean for one element, otherwise one boolean per element. */
  datatype Answer = One(b: bool) | Each(bs: seq<bool>)

  /** The locators `getElements` is handed: `getElementsByClassName`, `getElementsByAttribute`. */
  datatype Locator = ByClassName | ByAttribute

  /** `getElementsByAttribute` below `root`, its `undefined` read as nothing to push. */
  function AttrFound(t: Tree, root: nat, selector: string): (r: seq<nat>)
    requires ValidTree(t) && root < |t|
    ensures forall e :: e in r ==> e < |t|
  {
    var found := AttrLocate(t, Some(root), selector);
    if found.None? then []
    else
      assert forall e :: e in found.value ==> e in AttrBase(t, Some(root), AttrChunk(selector, 0).value.qual);
      found.value
  }

  /** One locator call below `root`. */
  function Located(t: Tree, root: nat, selector: string, locator: Locator): (r: seq<nat>)
    requires ValidTree(t) && root < |t|
    ensures forall e :: e in r ==> e < |t|
  {
    match locator
    case ByClassName => ClassLocate(t, Some(root), selector)
    case ByAttribute => AttrFound(t, root, selector)
  }

  predicate AllIn(t: Tree, es: seq<nat>) {
    forall k :: 0 <= k < |es| ==> es[k] < |t|
  }

  /** The locator as a function of the root. */
  function LocatorAt(t: Tree, selector: string, locator: Locator): (nat -> seq<nat>)
    requires ValidTree(t)
  {
    match locator
    case ByClassName => (e: nat) => if e < |t| then ClassLocate(t, Some(e), selector) else []
    case ByAttribute => (e: nat) => if e < |t| then AttrFound(t, e, selector) else []
  }

  /** The locator results for each root in turn, concatenated. */
  function Gathered(t: Tree, roots: seq<nat>, selector: string, locator: Locator): seq<nat>
    requires ValidTree(t)
  {
    Flatten(MapSeq(roots, LocatorAt(t, selector, locator)))
  }

  /** The edits `mutate` is handed: `addClassName`, `removeClassName`, `toggleClassName`. */
  datatype Edit = AddEdit | RemoveEdit | ToggleEdit

  function Edited(className: string, c: string, edit: Edit): string {
    match edit
    case AddEdit => ClassNames.AddedClass(className, c)
    case RemoveEdit => ClassNames.RemovedClass(className, c)
    case ToggleEdit => ClassNames.ToggledClass(className, c)
  }

  /**
   * Whether the edit assigns `className` at all: `addClassName` only when
   * the class is missing, `removeClassName` only when it is present,
   * `toggleClassName` always.
   */
  predicate Writes(className: string, c: string, edit: Edit) {
    match edit
    case AddEdit => !ClassNames.HasClass(className, c)
    case RemoveEdit => ClassNames.HasClass(className, c)
    case ToggleEdit => true
  }

  /**
   * The tree after one edit of element `e`. Assigning `className` also sets
   * the `class` attribute it reflects; an edit that assigns nothing leaves
   * the tree as it was.
   */
  function EditNode(t: Tree, e: nat, c: string, edit: Edit): (r: Tree)
    requires e < |t|
    ensures |r| == |t| && r[e].className == Edited(t[e].className, c, edit)
    ensures Writes(t[e].className, c, edit) ==> GetAttribute(r, e, "class") == Some(r[e].className)
    ensures !Writes(t[e].className, c, edit) ==> r == t
    ensures forall i :: 0 <= i < |t| && i != e ==> r[i] == t[i]
    ensures ValidTree(t) ==> ValidTree(r)
  {
    var n := t[e];
    if Writes(n.className, c, edit) then
      var s := Edited(n.className, c, edit);
      t[e := n.(className := s, attrs := n.attrs["class" := s])]
    else t
  }

  /** Two trees alike in everything but class strings and the `class` attributes reflecting them. */
  predicate SameShape(t: Tree, u: Tree) {
    |t| == |u| && forall i :: 0 <= i < |t| ==>
      u[i].tag == t[i].tag && u[i].parent == t[i].parent && u[i].attrs - {"class"} == t[i].attrs - {"class"}
  }

  /** The tree after editing each listed element in turn (an element listed twice is edited twice). */
  function EditAll(t: Tree, es: seq<nat>, c: string, edit: Edit): (r: Tree)
    requires AllIn(t, es)
    ensures SameShape(t, r)
    ensures ValidTree(t) ==> ValidTree(r)
    decreases |es|
  {
    if es == [] then t
    else
      var u := EditAll(t, es[..|es| - 1], c, edit);
      var e := es[|es| - 1];
      assert u[e].attrs["class" := Edited(u[e].className, c, edit)] - {"class"} == u[e].attrs - {"class"};
      EditNode(u, e, c, edit)
  }

  /** One more root gathers one more locator result. */
  lemma GatheredStep(t: Tree, roots: seq<nat>, i: nat, selector: string, locator: Locator)
    requires ValidTree(t) && AllIn(t, roots) && i < |roots|
    ensures Gathered(t, roots[..i + 1], selector, locator)
      == Gathered(t, roots[..i], selector, locator) + Located(t, roots[i], selector, locator)
  {
    var f := LocatorAt(t, selector, locator);
    MapSeqSnoc(roots, i, f);
    FlattenSnoc(MapSeq(roots[..i], f), f(roots[i]));
  }

  /** One more listed element is one more edit. */
  lemma EditAllStep(t: Tree, es: seq<nat>, i: nat, c: string, edit: Edit)
    requires AllIn(t, es) && i < |es|
    ensures AllIn(t, es[..i]) && AllIn(t, es[..i + 1])
    ensures EditAll(t, es[..i + 1], c, edit) == EditNode(EditAll(t, es[..i], c, edit), es[i], c, edit)
  {
    assert es[..i + 1][..i] == es[..i];
  }

  // ---------------------------------------------------------------------
  // The document.
  // ---------------------------------------------------------------------

  /** The element tree, whose class strings the edits rewrite in place. */
  class Document {
    var nodes: Tree

    constructor (nodes: Tree)
      ensures this.nodes == nodes
    {
      this.nodes := nodes;
    }

    /** The element's `className` becomes `className`, and so does its `class` attribute. */
    method SetClassName(e: nat, className: string)
      requires e < |nodes|
      modifies this
      ensures nodes == old(nodes)[e := old(nodes)[e].(className := className, attrs := old(nodes)[e].attrs["class" := className])]
    {
      var n := nodes[e];
      nodes := nodes[e := n.(className := className, attrs := n.attrs["class" := className])];
    }

    /** `addClassName`: append " c" and trim, unless the class is already there. */
    method AddClassName(e: nat, c: string)
      requires e < |nodes|
      modifies this
      ensures nodes == EditNode(old(nodes), e, c, AddEdit)
      ensures ValidTree(old(nodes)) ==> ValidTree(nodes)
    {
      var className := nodes[e].className;
      if !ClassNames.HasClass(className, c) {
        SetClassName(e, Trim(className + " " + c));
      }
    }

    /** `removeClassName`: cut the first " c " out of the padded class string, if the class is there. */
    method RemoveClassName(e: nat, c: string)
      requires e < |nodes|
      modifies this
      ensures nodes == EditNode(old(nodes), e, c, RemoveEdit)
      ensures ValidTree(old(nodes)) ==> ValidTree(nodes)
    {
      var className := nodes[e].className;
      var chain := " " + className + " ";
      if ClassNames.HasClass(className, c) {
        SetClassName(e, Trim(ReplaceFirst(chain, " " + c + " ", " ")));
      }
    }

    /** `toggleClassName`: remove the class when present, else add it. */
    method ToggleClassName(e: nat, c: string)
      requires e < |nodes|
      modifies this
      ensures nodes == EditNode(old(nodes), e, c, ToggleEdit)
      ensures ValidTree(old(nodes)) ==> ValidTree(nodes)
    {
      var className := nodes[e].className;
      var chain := " " + className + " ";
      if ClassNames.HasClass(className, c) {
        SetClassName(e, Trim(ReplaceFirst(chain, " " + c + " ", " ")));
      } else {
        SetClassName(e, Trim(className + " " + c));
      }
    }
  }

  // ---------------------------------------------------------------------
  // The jArgon object.
  // ---------------------------------------------------------------------

  /** What the jArgon constructor is given: nothing, one element, or an array of them. */
  datatype Wrapped = Nothing | Element(e: nat) | Elements(es: seq<nat>)

  function Unwrapped(w: Wrapped): seq<nat> {
    match w
    case Nothing => []
    case Element(e) => [e]
    case Elements(es) => es
  }

  class JArgon {
    const doc: Document
    var elems: seq<nat>

    /** The wrapped handles name elements of a well-formed tree. */
    ghost predicate Valid()
      reads this, doc
    {
      ValidTree(doc.nodes) && AllIn(doc.nodes, elems)
    }

    /**
     * `new jArgon(elems)`: start empty, then push each element given. The
     * object is valid when the handles given name elements of a
     * well-formed tree.
     */
    constructor (doc: Document, init: Wrapped)
      ensures this.doc == doc && elems == Unwrapped(init)
      ensures ValidTree(doc.nodes) && AllIn(doc.nodes, Unwrapped(init)) ==> Valid()
    {
      this.doc := doc;
      elems := [];
      new;
      var given := Unwrapped(init);
      var i := 0;
      while i < |given|
        invariant 0 <= i <= |given|
        invariant elems == given[..i]
      {
        elems := elems + [given[i]];
        i := i + 1;
      }
    }

    /** `hasAny`: the check on each element, unwrapped when there is exactly one. */
    method HasAny(criterion: string, check: Check) returns (r: Answer)
      requires Valid()
      ensures r.One? <==> |elems| == 1
      ensures r.One? ==> r.b == Checked(doc.nodes, elems[0], criterion, check)
      ensures r.Each? ==> |r.bs| == |elems|
      ensures r.Each? ==> forall k :: 0 <= k < |elems| ==> r.bs[k] == Checked(doc.nodes, elems[k], criterion, check)
    {
      var l := |elems|;
      var matched := new bool[l];
      var i := 0;
      while i < l
        invariant 0 <= i <= l
        invariant forall k :: 0 <= k < i ==> matched[k] == Checked(doc.nodes, elems[k], criterion, check)
      {
        matched[i] := Checked(doc.nodes, elems[i], criterion, check);
        i := i + 1;
      }
      if i == 1 {
        r := One(matched[0]);
      } else {
        r := Each(matched[..]);
      }
    }

    /** The loop of `getElements`: each element's locator result pushed in turn. */
    method Gather(selector: string, locator: Locator) returns (found: seq<nat>)
      requires Valid()
      ensures found == Gathered(doc.nodes, elems, selector, locator)
    {
      var t := doc.nodes;
      found := [];
      var i := 0;
      while i < |elems|
        invariant 0 <= i <= |elems|
        invariant found == Gathered(t, elems[..i], selector, locator)
      {
        var more: seq<nat>;
        match locator {
          case ByClassName =>
            more := GetElementsByClassName(t, selector, Some(elems[i]));
          case ByAttribute =>
            var r := GetElementsByAttribute(t, selector, Some(elems[i]));
            more := if r.Some? then r.value else [];
        }
        GatheredStep(t, elems, i, selector, locator);
        found := found + more;
        i := i + 1;
      }
      assert elems[..i] == elems;
    }

    /** `getElements`: a new jArgon object over the gathered elements. */
    method GetElements(selector: string, locator: Locator) returns (r: JArgon)
      requires Valid()
      ensures fresh(r) && r.doc == doc && r.Valid()
      ensures r.elems == Gathered(doc.nodes, elems, selector, locator)
    {
      var found := Gather(selector, locator);
      GatheredInTree(doc.nodes, elems, selector, locator);
      r := new JArgon(doc, Elements(found));
    }

    /**
     * `mutate`: apply the edit to each element in turn. The edits hand the
     * element back, so `this[i]` keeps its handle.
     */
    method Mutate(criterion: string, edit: Edit)
      requires Valid()
      modifies doc
      ensures Valid()
      ensures doc.nodes == EditAll(old(doc.nodes), elems, criterion, edit)
    {
      ghost var t := doc.nodes;
      var i := 0;
      while i < |elems|
        invariant 0 <= i <= |elems|
        invariant SameShape(t, doc.nodes)
        invariant doc.nodes == EditAll(t, elems[..i], criterion, edit)
      {
        EditAllStep(t, elems, i, criterion, edit);
        match edit {
          case AddEdit => doc.AddClassName(elems[i], criterion);
          case RemoveEdit => doc.RemoveClassName(elems[i], criterion);
          case ToggleEdit => doc.ToggleClassName(elems[i], criterion);
        }
        i := i + 1;
      }
      assert elems[..i] == elems;
    }
  }

  lemma InTree(t: Tree, selector: string)
    requires ValidTree(t) && QueryReady(selector)
    ensures AllIn(t, QueryResult(t, selector))
  {
    var r := QueryResult(t, selector);
    assert forall k :: 0 <= k < |r| ==> r[k] in r;
  }

  /** The string branch of the exported `jArgon(selector)`: wrap the query's result. */
  method Select(doc: Document, selector: string) returns (r: JArgon)
    requires ValidTree(doc.nodes) && QueryReady(selector)
    ensures fresh(r) && r.doc == doc && r.Valid()
    ensures r.elems == QueryResult(doc.nodes, selector)
  {
    var t := doc.nodes;
    var found := QuerySelectorAll(t, selector);
    InTree(t, selector);
    r := new JArgon(doc, Elements(found));
  }

  // ---------------------------------------------------------------------
  // What the helpers' results mean.
  // ---------------------------------------------------------------------

  /** A gathered element is one that the locator finds below one of the roots. */
  lemma GatheredMember(t: Tree, roots: seq<nat>, selector: string, locator: Locator, x: nat)
    requires ValidTree(t) && AllIn(t, roots)
    ensures x in Gathered(t, roots, selector, locator) <==>
      exists k :: 0 <= k < |roots| && x in Located(t, roots[k], selector, locator)
  {
    var parts := MapSeq(roots, LocatorAt(t, selector, locator));
    FlattenMember(parts, x);
    assert forall k :: 0 <= k < |roots| ==> parts[k] == Located(t, roots[k], selector, locator);
  }

  /** Only elements of the tree are gathered. */
  lemma GatheredInTree(t: Tree, roots: seq<nat>, selector: string, locator: Locator)
    requires ValidTree(t) && AllIn(t, roots)
    ensures AllIn(t, Gathered(t, roots, selector, locator))
  {
    var r := Gathered(t, roots, selector, locator);
    forall i | 0 <= i < |r| ensures r[i] < |t| {
      GatheredMember(t, roots, selector, locator, r[i]);
    }
  }

  /**
   * `getElementsByClassName(c)` on a collection, for a bare class name:
   * exactly the elements with class `c` lying below one of the wrapped
   * elements.
   */
  lemma GatheredClassNames(t: Tree, roots: seq<nat>, c: string)
    requires ValidTree(t) && AllIn(t, roots) && IsName(c)
    ensures forall x: nat :: x in Gathered(t, roots, c, ByClassName) <==>
      x < |t| && HasClassName(t, x, c) && exists k :: 0 <= k < |roots| && IsAncestor(t, roots[k], x)
  {
    forall x: nat {
      GatheredMember(t, roots, c, ByClassName, x);
    }
    forall k | 0 <= k < |roots|
      ensures forall x: nat :: x in Located(t, roots[k], c, ByClassName) <==>
        x < |t| && HasClassName(t, x, c) && IsAncestor(t, roots[k], x)
    {
      var all := AllElements(t, Some(roots[k]));
      ClassLocateName(t, Some(roots[k]), c);
      FilterMembers(all, ClassTest(t, c));
    }
  }

  /** The tree `0 > 1 > 2`, the innermost element of class `c` and the others of none. */
  function Nested(c: string): Tree {
    [ Node("div", "", map[], None), Node("div", "", map[], Some(0)),
      Node("p", c, map["class" := c], Some(1)) ]
  }

  /** The nested tree is one a DOM can hold. */
  lemma NestedValid(c: string)
    ensures ValidTree(Nested(c))
  {
    var t := Nested(c);
    assert LowerCase(t[0].tag) && LowerCase(t[1].tag) && LowerCase(t[2].tag);
    assert ClassReflected(t[0]) && ClassReflected(t[1]) && ClassReflected(t[2]);
  }

  /** Below element 0 lie 1 and 2; below element 1 lies 2. */
  lemma NestedScopes(c: string)
    ensures ValidTree(Nested(c))
    ensures AllElements(Nested(c), Some(0)) == [1, 2]
    ensures AllElements(Nested(c), Some(1)) == [2]
  {
    NestedScope(c, 0);
    NestedScope(c, 1);
  }

  /** What lies below element `a` of the nested tree, one handle at a time. */
  lemma NestedScope(c: string, a: nat)
    requires a <= 1
    ensures ValidTree(Nested(c))
    ensures AllElements(Nested(c), Some(a)) == if a == 0 then [1, 2] else [2]
  {
    NestedValid(c);
    var t := Nested(c);
    var f := ScopeTest(t, Some(a));
    assert Indices(3) == Indices(2) + [2] && Indices(2) == Indices(1) + [1] && Indices(1) == [] + [0];
    NestedScopeTest(c, a);
    FilterSnoc(Indices(2), 2, f);
    FilterSnoc(Indices(1), 1, f);
    FilterSnoc<nat>([], 0, f);
  }

  /** Element 2 lies below both outer elements, element 1 only below element 0. */
  lemma NestedScopeTest(c: string, a: nat)
    requires a <= 1
    ensures ValidTree(Nested(c))
    ensures var f := ScopeTest(Nested(c), Some(a)); f(2) && !f(0) && (f(1) <==> a == 0)
  {
    NestedValid(c);
  }

  /** Only element 2 has class `c`. */
  lemma NestedClassNames(c: string)
    requires IsName(c)
    ensures HasClassName(Nested(c), 2, c) && !HasClassName(Nested(c), 1, c)
  {
    assert ClassNames.IsTokenAt(c, c, 0);
    ClassNames.HasClassIffTokenAt(c, c);
    ClassNames.HasClassIffTokenAt("", c);
  }

  /** Below element 0, only element 2 has class `c`. */
  lemma NestedOuter(c: string)
    requires IsName(c)
    ensures ValidTree(Nested(c)) && ClassLocate(Nested(c), Some(0), c) == [2]
  {
    var t := Nested(c);
    NestedScopes(c);
    NestedClassNames(c);
    ClassLocateName(t, Some(0), c);
    FilterPair<nat>(1, 2, ClassTest(t, c));
  }

  /** Below element 1, element 2 has class `c`. */
  lemma NestedInner(c: string)
    requires IsName(c)
    ensures ValidTree(Nested(c)) && ClassLocate(Nested(c), Some(1), c) == [2]
  {
    var t := Nested(c);
    NestedScopes(c);
    NestedClassNames(c);
    ClassLocateName(t, Some(1), c);
    assert [2] == [] + [2];
    FilterSnoc<nat>([], 2, ClassTest(t, c));
  }

  /** Gathering around two roots whose locator results agree. */
  lemma GatheredTwice(t: Tree, a: nat, b: nat, c: string, r: seq<nat>)
    requires ValidTree(t) && a < |t| && b < |t|
    requires ClassLocate(t, Some(a), c) == r && ClassLocate(t, Some(b), c) == r
    ensures Gathered(t, [a, b], c, ByClassName) == r + r
  {
    var f := LocatorAt(t, c, ByClassName);
    assert f(a) == r && f(b) == r;
    FlattenMapPair(a, b, f);
  }

  /**
   * `getElements` concatenates without removing repeats: around two nested
   * elements, an element below both is gathered twice.
   */
  lemma GatheredRepeats(c: string)
    requires IsName(c)
    ensures ValidTree(Nested(c)) && AllIn(Nested(c), [0, 1])
    ensures Gathered(Nested(c), [0, 1], c, ByClassName) == [2, 2]
  {
    NestedOuter(c);
    NestedInner(c);
    GatheredTwice(Nested(c), 0, 1, c, [2]);
  }

  /** Elements not listed keep their class strings. */
  lemma {:induction false} EditAllOutside(t: Tree, es: seq<nat>, c: string, edit: Edit, e: nat)
    requires AllIn(t, es) && e < |t| && e !in es
    ensures EditAll(t, es, c, edit)[e] == t[e]
    decreases |es|
  {
    if es != [] {
      assert es[|es| - 1] in es;
      assert forall y :: y in es[..|es| - 1] ==> y in es;
      EditAllOutside(t, es[..|es| - 1], c, edit, e);
    }
  }

  /** After `addClassName(c)` on a collection, each of its elements has the class. */
  lemma {:induction false} AddAllHasClass(t: Tree, es: seq<nat>, c: string)
    requires AllIn(t, es) && ClassNames.IsClassName(c)
    ensures forall e :: e in es ==> e < |t| && HasClassName(EditAll(t, es, c, AddEdit), e, c)
    decreases |es|
  {
    if es != [] {
      var n := |es| - 1;
      var u := EditAll(t, es[..n], c, AddEdit);
      AddAllHasClass(t, es[..n], c);
      ClassNames.AddClassNameSpec(u[es[n]].className, c);
      var r := EditAll(t, es, c, AddEdit);
      assert r == EditNode(u, es[n], c, AddEdit);
      forall e | e in es ensures e < |t| && HasClassName(r, e, c) {
        if e != es[n] {
          assert e in es[..n];
          assert r[e] == u[e];
        }
      }
    }
  }

  /** `addClassName(c)` on a collection whose elements all have the class changes nothing. */
  lemma {:induction false} AddAllPresent(t: Tree, es: seq<nat>, c: string)
    requires AllIn(t, es) && ClassNames.IsClassName(c)
    requires forall e :: e in es ==> e < |t| && HasClassName(t, e, c)
    ensures EditAll(t, es, c, AddEdit) == t
    decreases |es|
  {
    if es != [] {
      var n := |es| - 1;
      assert forall y :: y in es[..n] ==> y in es;
      AddAllPresent(t, es[..n], c);
      var e := es[n];
      assert e in es;
      assert EditAll(t, es, c, AddEdit) == EditNode(t, e, c, AddEdit);
      ClassNames.AddClassNameSpec(t[e].className, c);
    }
  }

  /** `removeClassName(c)` on a collection none of whose elements has the class changes nothing. */
  lemma {:induction false} RemoveAllAbsent(t: Tree, es: seq<nat>, c: string)
    requires AllIn(t, es)
    requires forall e :: e in es ==> e < |t| && !HasClassName(t, e, c)
    ensures EditAll(t, es, c, RemoveEdit) == t
    decreases |es|
  {
    if es != [] {
      var n := |es| - 1;
      assert forall y :: y in es[..n] ==> y in es;
      RemoveAllAbsent(t, es[..n], c);
      var e := es[n];
      assert e in es;
      assert EditAll(t, es, c, RemoveEdit) == EditNode(t, e, c, RemoveEdit);
      ClassNames.RemoveClassNameSpec(t[e].className, c);
    }
  }

  /**
   * An element listed twice is toggled twice: on the collection `[e, e]`,
   * `toggleClassName(c)` for a class `e` lacks gives `e` back its trimmed
   * class string.
   */
  lemma ToggleRepeated(t: Tree, e: nat, c: string)
    requires e < |t| && ClassNames.IsClassName(c)
    requires ClassNames.SpaceSeparated(t[e].className) && !HasClassName(t, e, c)
    ensures EditAll(t, [e, e], c, ToggleEdit)[e].className == Trim(t[e].className)
  {
    assert [e, e][..1] == [e];
    assert [e][..0] == [];
    var once := EditNode(t, e, c, ToggleEdit);
    assert EditAll(t, [e], c, ToggleEdit) == once;
    assert EditAll(t, [e, e], c, ToggleEdit) == EditNode(once, e, c, ToggleEdit);
    ClassNames.ToggleTwice(t[e].className, c);
  }
}
