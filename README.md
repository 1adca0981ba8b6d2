# jArgon selector engine, modelled in Dafny

jArgon is a small JavaScript DOM library. Its core is a selector engine:

- `querySelectorAll` splits a selector such as `div > div.foo .bar a[href="x"] #id` into tokens.
- It picks candidates for the last token through the host DOM or through its own locators (`getElementsByClassName`, `getElementsByAttribute`).
- It keeps each candidate whose ancestors match the other tokens, read right to left. This is a single bottom-up climb that gives a `>` token exactly one parent hop.

Around the engine sits the jArgon object. It wraps a collection of elements and offers three private helpers:

- `hasAny` runs a check on every element.
- `getElements` concatenates a locator's results below every element.
- `mutate` applies a class-string edit to every element. The edits are `addClassName`, `removeClassName` and `toggleClassName`.

The model works over an abstract, read-only element tree:

- The tree is a sequence of nodes in document order, and an element handle is an index into it.
- Each node has a tag, a `className` string, an attribute map and an optional parent. `None` stands for the document.
- A well-formed tree (`ValidTree`) is one a DOM can hold:
  - every parent precedes its node;
  - every tag is lower-cased, as `nodeName.toLowerCase()` gives it;
  - `className` reflects the `class` attribute: it is the attribute's value, or empty when the element has none.
- The host calls `getElementsByTagName`, `getElementsByTagName('*')`, `getElementById`, `getAttribute` and `parentNode` are modelled as functions over that tree.
- Assigning `className` also sets the `class` attribute, so `getAttribute('class')` and attribute steps such as `[class="x"]` see the edits.
- `getElementsByTagName` reads the tag `*` as every element, as the host does. The library hands it selector text unchanged, so `*`, `*.c` and `*[a]` find every element, every element of class `c`, and every element with attribute `a`. `hasName` compares the tag literally, so a `*` left of the last token matches no element.

Each regular expression the library uses is written out as a position scan. The scan returns what the host's leftmost, greedy match returns. On every well-formed step of the documented grammar the scans are proved to split it as documented:

- the dispatch expressions of `hasSelector` give the step back (`ReadRender`);
- the category expression of the candidate choice picks the step's kind of lookup (`CategoryRender`);
- the expressions of the two locators split the step into its tag or class and its attribute parts (`ClassLocateRender`, `AttrLocateRender`).

The chunker of `querySelectorAll` is proved to cut a selector at its spaces when no word holds `]` before its end (`TokensAreWords`).

Code that works step by step is modelled imperatively. This covers:

- the splice loops of the two locators;
- the candidate loop and the parent climb of `querySelectorAll`;
- the fill loop of `hasAny` and the push loop of `getElements`;
- the edit loop of `mutate`;
- the in-place writes of the class edits on a `Document` object.

Each imperative method is proved equal to a specification function, and the properties are proved about those functions.

Files:

- `wrappers.dfy`: `Option`.
- `text.dfy`: run scans, words, `indexOf`/`replace`, and `trim`.
- `classnames.dfy`: `hasClassName` and the three class-string edits.
- `seqs.dfy`: order-preserving filter, subsequence, map and concatenation.
- `dom.dfy`: the tree and the host calls.
- `steps.dfy`: the step grammar and `hasSelector`.
- `locators.dfy`: `getElementsByClassName` and `getElementsByAttribute`.
- `query.dfy`: the tokenizer, the candidate choice, the walker and `querySelectorAll`.
- `collection.dfy`: the document, the jArgon object, its helpers and the string form of `jArgon(selector)`.

Choices about the model:

- **Source wins.** Where the documentation and the code differ, the model follows the code. Examples:
  - a token is a combinator when it merely contains `>`;
  - `getElementsByAttribute` finds the class base of `.c[a]` by dropping the first character of the text before `[`;
  - `getElements` keeps repeated elements.
- **Thrown errors.** Where the source would throw a `TypeError`, the model gives a defined result:
  - `hasSelector` answers `false` when a token matches no dispatch expression;
  - an `undefined` result of `getElementsByAttribute` reads as `None`, which `getElements` and the candidate choice treat as "nothing".

## Model

| member | source | states |
|---|---|---|
| Text.Trim | jargon.js:91-101 | the result is the input with its leading and trailing white space removed, exactly: a slice whose outside is all white space and whose ends are not |
| Dom.GetAttribute | jargon.js:148-162 | the value is present exactly when the element carries the attribute, and is then the attribute's value |
| Dom.ClassAttribute | jargon.js:148-162 | in a well-formed tree, `getAttribute('class')` gives the element's `className`, and gives nothing only when that is empty |
| Dom.AllElements | jargon.js:268-285 | every element strictly below the root (every element, for the document), each once, in document order |
| Dom.ElementsByTagName | jargon.js:306-313 | the elements below the root whose tag is the given one, in document order; for the wildcard `*`, every element below the root |
| Dom.HasName | jargon.js:173-175 | no contract of its own: the element's lower-cased tag equals the argument exactly, so a step `*` matches no element |
| Dom.ElementById | jargon.js:411 | the first element in document order with that id, `None` when none carries it |
| ClassNames.HasClass | jargon.js:186-191 | no contract of its own: the padded `indexOf` test as written; `HasClassIffTokenAt` and `HasClassIffWord` state what it means |
| ClassNames.AddedClass | jargon.js:471-477 | no contract of its own: `addClassName`'s new class string as written; `AddClassNameSpec` and `AddClassNameIdempotent` state what it does |
| ClassNames.RemovedClass | jargon.js:479-486 | no contract of its own: `removeClassName`'s new class string as written; `RemoveClassNameSpec` and `RemoveAfterAdd` state what it does |
| ClassNames.ToggledClass | jargon.js:488-497 | no contract of its own: `toggleClassName`'s new class string as written; `ToggleClassNameSpec` and `ToggleTwice` state what it does |
| ClassNames.HasClassIffTokenAt | jargon.js:186-191 | `hasClassName` holds exactly when `c` occurs in the class string delimited by spaces or the string's ends |
| ClassNames.HasClassIffWord | jargon.js:186-191 | for a class without spaces, `hasClassName` is membership in the space-separated words of the class string |
| ClassNames.NoPrefixMatch | jargon.js:186-191 | `foo` is not a class of `foobar`, while `bar` is one of `foo bar` |
| ClassNames.AddClassNameSpec | jargon.js:471-477 | adding a class already present changes nothing; afterwards the class is always present |
| ClassNames.AddClassNameIdempotent | jargon.js:471-477 | adding the same class twice is adding it once |
| ClassNames.RemoveClassNameSpec | jargon.js:479-486 | removing an absent class changes nothing; otherwise only the first occurrence of ` c ` in the padded class string is cut out, and the rest trimmed |
| ClassNames.RemoveAfterAdd | jargon.js:471-486 | removing a class just added to a space-separated class string gives back the trimmed original |
| ClassNames.ToggleClassNameSpec | jargon.js:488-497 | toggling is removing when present and adding when absent; an absent class is present afterwards |
| ClassNames.ToggleTwice | jargon.js:488-497 | toggling an absent class twice gives back the trimmed original |
| Steps.ReadStep | jargon.js:204-262 | a text with no `[`, `.` or `#` is read as a tag name whatever else it holds (`*` and `a>b` included); the read fails, where the source indexes a failed match, only for a text holding `[` or `.` |
| Steps.ReadRender | jargon.js:204-262 | the dispatch expressions of `hasSelector` read every well-formed step back from its text: `#id`, `tag`, `.c`, `tag.c`, `tag[a]`, `tag[a="v"]`, `.c[a]`, `.c[a="v"]` |
| Steps.HasSelector | jargon.js:204-262 | no contract of its own: `hasSelector`'s dispatch on the step text as written; `HasSelectorRender` states what it tests on every well-formed step |
| Steps.HasSelectorRender | jargon.js:204-262 | on a rendered step, `hasSelector` is the step's test: the id attribute; the tag; the tag and the class token; the qualifier and the attribute's presence or exact value |
| Steps.RenderInjective | jargon.js:204-262 | different well-formed steps have different texts |
| Locators.ClassChunkLastDot | jargon.js:302 | a split has a space-free tag part and a non-empty, space-free class part; there is no split only when no dot is followed by a non-space character |
| Locators.ClassLocate | jargon.js:299-330 | the result is an order-preserving subsequence of the base set holding exactly the base elements with the wanted class |
| Locators.AttrLocate | jargon.js:344-385 | `None` exactly when the attribute expression does not match; otherwise an order-preserving subsequence of the base set holding exactly the base elements that have the attribute and, when a value is asked, that value |
| Locators.GetElementsByClassName | jargon.js:299-330 | the splice loop returns exactly `ClassLocate` |
| Locators.GetElementsByAttribute | jargon.js:344-385 | splitting the selector, taking the base set by class or tag and splicing, returns exactly `AttrLocate` |
| Locators.SpliceFailedAttrs | jargon.js:366-382 | the splice loop, both splice branches and the length refresh, leaves exactly the base elements passing the attribute test, in order |
| Locators.Matching | jargon.js:204-262 | the elements below the root passing a step's test, in document order |
| Locators.ClassLocateRender | jargon.js:299-330 | on a rendered `.c` or `tag.c`, the locator returns exactly the step's matching elements below the root |
| Locators.ClassLocateName | jargon.js:315-318 | on a bare class name, the locator filters every element below the root |
| Locators.AttrLocateRender | jargon.js:344-385 | on a rendered attribute step, the locator returns exactly the step's matching elements below the root |
| Locators.ClassLocateStar | jargon.js:299-330 | on `*.c`, the locator returns every element of class `c` below the root, in document order |
| Locators.AttrLocateStar | jargon.js:344-385 | on `*[a]` or `*[a="v"]`, the locator filters every element below the root by the attribute test |
| Query.Tokens | jargon.js:400-401 | every token the chunker yields is non-empty and holds no space |
| Query.TokensAreWords | jargon.js:400-401 | when no space-separated word has `]` before its last character, the chunker's tokens are exactly the words |
| Query.TokensEmptyIff | jargon.js:400-403 | the chunker finds no token exactly when the selector has no non-space character |
| Query.CategoryOf | jargon.js:409 | an id category carries a non-empty, space-free id; a token holding a dot never falls through to the tag lookup |
| Query.CategoryRender | jargon.js:409 | on a rendered step the category expression picks the id lookup for `#id`, the attribute lookup for a bracketed step, the class lookup for `.c` and `tag.c`, and the tag lookup for a bare tag |
| Query.Candidates | jargon.js:409-414 | the candidates are elements of the tree in document order, none twice |
| Query.FirstMatching | jargon.js:411 | `getElementById` returns the first, in document order, of the elements the id step matches, and `None` when there is none |
| Query.CandidatesRender | jargon.js:409-414 | on a rendered last token, the candidates are exactly the step's matches in document order; for an id, only the first of them |
| Query.CandidateIff | jargon.js:409-414 | on a rendered last token, an element is a candidate exactly when the step matches it and, for an id, no earlier element carries the id |
| Query.FindCandidates | jargon.js:409-414 | the candidate choice, computed with the locator methods, is `Candidates` |
| Query.Walk | jargon.js:426-451 | a climb the walker accepts has found a proper ancestor matching the first token |
| Query.Climb | jargon.js:426-451 | the inner loop ends with a parent exactly when the greedy walk `Walk` accepts the candidate |
| Query.QueryResult | jargon.js:396-467 | the result lists elements of the tree in document order, none twice |
| Query.QuerySelectorAll | jargon.js:396-467 | the whole method returns `QueryResult` |
| Query.SpliceFailedClimbs | jargon.js:416-459 | the candidate loop splices out exactly the candidates whose climb fails and keeps the rest in order |
| Query.WalkSound | jargon.js:426-451 | every candidate the walker accepts is below a chain of ancestors matching the steps, read with backtracking |
| Query.CssLift | jargon.js:426-451 | without `>`, a node below a match of the first j+1 steps is below a match of the first j |
| Query.WalkComplete | jargon.js:426-451 | without `>`, taking the nearest matching ancestor loses no match |
| Query.WalkExact | jargon.js:426-451 | without `>`, the walker accepts exactly the backtracking matches |
| Query.ChildNoRetry | jargon.js:434-441 | after `>` there is no retry higher up: in `a > b > b > c`, `c` matches `a > b c` with backtracking, yet the walker drops it |
| Query.QueryBlank | jargon.js:400-403 | a selector with no non-space character returns nothing |
| Query.QueryStar | jargon.js:409-414 | the selector `*` returns every element of the document |
| Query.QueryLoneToken | jargon.js:416 | a one-token selector returns its candidates unfiltered |
| Query.QuerySubsequence | jargon.js:426-459 | the result is an order-preserving subsequence of the candidates |
| Query.QueryIdAtMostOne | jargon.js:410-411 | an id as last token yields at most one element, even with repeated ids |
| Query.QueryMembers | jargon.js:424-459 | each candidate is judged on its own: it stays exactly when its climb from the bottom step succeeds |
| Query.QuerySound | jargon.js:394-459 | every returned element matches the chain of the tokens before the last in the backtracking reading, and is selected by the last token when that is a rendered step |
| Query.QueryComplete | jargon.js:394-459 | without `>`, every element that a rendered last step selects (for an id, the first element carrying it) and that matches the chain of the other tokens in the backtracking reading is returned |
| Collection.GatheredMember | jargon.js:514-521 | an element is gathered exactly when the locator finds it below one of the wrapped elements |
| Collection.GatheredClassNames | jargon.js:514-521 | `getElementsByClassName(c)` on a collection gathers exactly the elements of class `c` that lie below one of its elements |
| Collection.GatheredRepeats | jargon.js:514-521 | repeats are kept: around two nested elements, an element of class `c` below both is gathered twice, for any class name `c` |
| Collection.EditNode | jargon.js:471-497 | one edit gives the element the edited class string; when the source assigns `className`, the `class` attribute reads the new string; when it assigns nothing, the tree is unchanged; other elements are unchanged; a well-formed tree stays well-formed |
| Collection.EditAll | jargon.js:523-530 | editing the listed elements one after the other changes only class strings and the `class` attributes that reflect them, and keeps a well-formed tree well-formed |
| Collection.EditAllOutside | jargon.js:523-530 | elements not listed keep their class strings |
| Collection.AddAllHasClass | jargon.js:523-530 | after adding a class to a collection, each of its elements has the class |
| Collection.AddAllPresent | jargon.js:523-530 | adding a class every element already has changes nothing |
| Collection.RemoveAllAbsent | jargon.js:523-530 | removing a class no element has changes nothing |
| Collection.ToggleRepeated | jargon.js:523-530 | an element listed twice is toggled twice and gets its trimmed class string back |
| Collection.Document.AddClassName | jargon.js:471-477 | the document afterwards is `EditNode` of the old one: the added-class string in `className` and, where the source assigns it, in the `class` attribute; a well-formed tree stays well-formed |
| Collection.Document.RemoveClassName | jargon.js:479-486 | the document afterwards is `EditNode` of the old one: the removed-class string in `className` and, where the source assigns it, in the `class` attribute; a well-formed tree stays well-formed |
| Collection.Document.ToggleClassName | jargon.js:488-497 | the document afterwards is `EditNode` of the old one: the toggled-class string in `className` and, where the source assigns it, in the `class` attribute; a well-formed tree stays well-formed |
| Collection.JArgon.constructor | jargon.js:41-54 | the object holds the given elements in order: none, the single one, or all of the array; it is valid when they name elements of a well-formed tree |
| Collection.JArgon.HasAny | jargon.js:501-512 | a bare boolean exactly for a one-element collection; otherwise one boolean per element, the k-th being the check on element k |
| Collection.JArgon.Gather | jargon.js:514-519 | the push loop computes `Gathered` |
| Collection.JArgon.GetElements | jargon.js:514-521 | a new object, on the same document, over the gathered elements |
| Collection.JArgon.Mutate | jargon.js:523-530 | the document afterwards is the old one with each element edited in turn, and the collection stays valid |
| Collection.Select | jargon.js:728-730 | `jArgon(selector)` for a string wraps exactly the query's result |

## Left out

- The browser sniffing `isIE7`/`isIE8` and what depends on it:
  - `getAttribute`'s URL rewriting;
  - `getAllElements`' removal of comment nodes.
  `getAttribute` is a map lookup, and `getAllElements` is every descendant in document order.
- The host DOM (`getElementById`, `getElementsByTagName`, `parentNode`, `nodeType`) is given as functions over the tree. Tags are lower-cased in every well-formed tree, and tag lookup compares exactly. The host's case-insensitive tag matching is not modelled.
- `toArray` and `extend` are object plumbing with no effect on the values modelled.
- The prototype methods `hasName`, `hasClassName`, `hasSelector`, `getElementsByClassName`, `getElementsByAttribute`, `addClassName`, `removeClassName` and `toggleClassName` each pass one fixed function to a helper. Here that function is the `Check`, `Locator` or `Edit` argument.
- `each` calls back into arbitrary user code.
- The non-string branches of the exported `jArgon(...)` wrap host node lists and elements after a `nodeType` test. Only the string branch is modelled. The constructor is given nothing, one element handle, or a sequence of handles.
- Text.Trim: the white-space set is a fixed list: the ASCII blanks and line terminators, no-break space, the two Unicode line and paragraph separators and the byte-order mark. The rest of the Unicode space separators stripped by a native `String.prototype.trim` are not modelled.
- The general regular-expression engine. Each scan follows its expression on every input, but the proofs that a scan recovers the intended parts cover only the documented grammar: names without spaces, dots, `#`, brackets, `=`, `"` or `>`, tag names other than `*`, and values without spaces, `"`, `]` or `>`. The wildcard forms `*`, `*.c` and `*[a]` are covered by lemmas of their own (`QueryStar`, `ClassLocateStar`, `AttrLocateStar`).
- Query.QueryComplete: stated only for chains without `>`. With `>`, the walker is incomplete, as `ChildNoRetry` shows.
- Query.QueryReady: a selector whose first of several tokens is `>` is excluded. The source then reads `steps[-1]`.
- Where the source throws a `TypeError`, the model instead answers `false` (`hasSelector`) or "nothing" (an `undefined` attribute result). The exception itself is not modelled.
