/**
 * The read-only element tree the selector engine runs over, and the host
 * DOM calls it relies on (`getElementsByTagName`, `getElementsByTagName('*')`,
 * `getElementById`, `getAttribute`, `parentNode`).
 *
 * A tree is the sequence of its elements in document order; an element
 * handle is its index. Every element's parent comes before it. A parent of
 * `None` is the document node sitting above the root element.
 */
module Dom {
  import opened Wrappers
  import opened Seqs
  import ClassNames

  datatype Node = Node(
    tag: string,                  // nodeName, lower-cased
    className: string,            // `className`, which reflects the `class` attribute
    attrs: map<string, string>,   // the attributes the element carries
    parent: Option<nat>)          // None: the parent is the document

  type Tree = seq<Node>

  /**
   * A tree a DOM can hold: parents come first in document order, so
   * climbing always ends; node names are stored lower-cased; and each
   * element's `className` reflects its `class` attribute.
   */
  predicate ValidTree(t: Tree) {
    && (forall i :: 0 <= i < |t| && t[i].parent.Some? ==> t[i].parent.value < i)
    && (forall i :: 0 <= i < |t| ==> LowerCase(t[i].tag) && ClassReflected(t[i]))
  }

  /** No upper-case letter: what `nodeName.toLowerCase()` gives back. */
  predicate LowerCase(s: string) {
    forall k :: 0 <= k < |s| ==> !('A' <= s[k] <= 'Z')
  }

  /**
   * `className` is the `class` attribute's value, and the empty string
   * while the element has no `class` attribute.
   */
  predicate ClassReflected(n: Node) {
    if "class" in n.attrs then n.attrs["class"] == n.className else n.className == ""
  }

  /** `root` names an element of `t`, or is the document. */
  predicate ValidRoot(t: Tree, root: Option<nat>) {
    root.Some? ==> root.value < |t|
  }

  /** Host `getAttribute`: the value, or `None` when the element has no such attribute. */
  function GetAttribute(t: Tree, e: nat, name: string): (v: Option<string>)
    requires e < |t|
    ensures v.Some? <==> name in t[e].attrs
    ensures v.Some? ==> v.value == t[e].attrs[name]
  {
    if name in t[e].attrs then Some(t[e].attrs[name]) else None
  }

  /**
   * Host `getAttribute('class')` in a well-formed tree: the element's
   * `className`, or nothing when it has no class and no `class` attribute.
   */
  lemma ClassAttribute(t: Tree, e: nat)
    requires ValidTree(t) && e < |t|
    ensures GetAttribute(t, e, "class").Some? ==> GetAttribute(t, e, "class").value == t[e].className
    ensures GetAttribute(t, e, "class").None? ==> t[e].className == ""
  {
    assert ClassReflected(t[e]);
  }

  /** `hasName`: the element's lower-cased node name is `name`. */
  predicate HasName(t: Tree, e: nat, name: string)
    requires e < |t|
  {
    t[e].tag == name
  }

  /** `hasClassName`: whole-token membership in the element's class string. */
  predicate HasClassName(t: Tree, e: nat, c: string)
    requires e < |t|
  {
    ClassNames.HasClass(t[e].className, c)
  }

  /** `a` is a proper ancestor of `e`. */
  predicate IsAncestor(t: Tree, a: nat, e: nat)
    requires ValidTree(t) && e < |t|
    decreases e
  {
    match t[e].parent
    case None => false
    case Some(p) => p == a || IsAncestor(t, a, p)
  }

  /** `e` lies below `root`; every element lies below the document. */
  predicate InScope(t: Tree, root: Option<nat>, e: nat)
    requires ValidTree(t) && e < |t|
  {
    root.None? || IsAncestor(t, root.value, e)
  }

  /** The handles `0 .. n-1` in increasing order. */
  function Indices(n: nat): (r: seq<nat>)
    ensures |r| == n
    ensures forall k :: 0 <= k < n ==> r[k] == k
    ensures forall k: nat :: k in r <==> k < n
  {
    if n == 0 then [] else Indices(n - 1) + [n - 1]
  }

  /** Strictly increasing: document order without repeats. */
  predicate Increasing(s: seq<nat>) {
    forall i, j :: 0 <= i < j < |s| ==> s[i] < s[j]
  }

  /** A subsequence of an increasing sequence is increasing. */
  lemma FilterIncreasing(s: seq<nat>, keep: nat -> bool)
    requires Increasing(s)
    ensures Increasing(Filter(s, keep))
  {
    var idx := KeptPositions(s, keep);
    var r := Filter(s, keep);
    forall i, j | 0 <= i < j < |r| ensures r[i] < r[j] {
      assert r[i] == s[idx[i]] && r[j] == s[idx[j]];
    }
  }

  /**
   * Host `getElementsByTagName('*')` on `root` (the document when `None`):
   * every element strictly below `root`, in document order.
   */
  function AllElements(t: Tree, root: Option<nat>): (r: seq<nat>)
    requires ValidTree(t) && ValidRoot(t, root)
    ensures forall e: nat :: e in r <==> e < |t| && InScope(t, root, e)
    ensures Increasing(r)
  {
    var all := Indices(|t|);
    FilterMembers(all, ScopeTest(t, root));
    FilterIncreasing(all, ScopeTest(t, root));
    Filter(all, ScopeTest(t, root))
  }

  /** The test `AllElements` filters the handles by. */
  function ScopeTest(t: Tree, root: Option<nat>): (nat -> bool)
    requires ValidTree(t)
  {
    (e: nat) => e < |t| && InScope(t, root, e)
  }

  /** The test `ElementsByTagName` filters by. */
  function TagTest(t: Tree, tag: string): (nat -> bool) {
    (e: nat) => e < |t| && HasName(t, e, tag)
  }

  /**
   * Host `getElementsByTagName(tag)` on `root`: the elements below it with
   * that tag, or every element below it when `tag` is the wildcard `*`.
   */
  function ElementsByTagName(t: Tree, root: Option<nat>, tag: string): (r: seq<nat>)
    requires ValidTree(t) && ValidRoot(t, root)
    ensures forall e: nat :: e in r <==> e < |t| && InScope(t, root, e) && (tag == "*" || HasName(t, e, tag))
    ensures tag == "*" ==> r == AllElements(t, root)
    ensures Increasing(r)
  {
    var all := AllElements(t, root);
    if tag == "*" then all
    else
      FilterMembers(all, TagTest(t, tag));
      FilterIncreasing(all, TagTest(t, tag));
      Filter(all, TagTest(t, tag))
  }

  /** The element's `id` attribute is `id`. */
  predicate HasId(t: Tree, e: nat, id: string)
    requires e < |t|
  {
    GetAttribute(t, e, "id") == Some(id)
  }

  /** The first element at or after `from` whose id is `id`. */
  function FirstWithId(t: Tree, id: string, from: nat): (r: Option<nat>)
    requires from <= |t|
    decreases |t| - from
    ensures r.Some? ==> from <= r.value < |t| && HasId(t, r.value, id)
    ensures r.Some? ==> forall k :: from <= k < r.value ==> !HasId(t, k, id)
    ensures r.None? ==> forall k :: from <= k < |t| ==> !HasId(t, k, id)
  {
    if from == |t| then None
    else if HasId(t, from, id) then Some(from)
    else FirstWithId(t, id, from + 1)
  }

  /**
   * Host `document.getElementById`: with duplicate ids, the first in
   * document order; `None` when no element carries the id.
   */
  function ElementById(t: Tree, id: string): (r: Option<nat>)
    ensures r.Some? ==> r.value < |t| && HasId(t, r.value, id)
    ensures r.Some? ==> forall k :: 0 <= k < r.value ==> !HasId(t, k, id)
    ensures r.None? ==> forall k :: 0 <= k < |t| ==> !HasId(t, k, id)
  {
    FirstWithId(t, id, 0)
  }
}
