# XPath locator of a DOM node

This project models `getExpression` from `src/utils/xpath.js` and proves properties of the model. The function takes a node of a DOM tree and returns a path string made of XPath 1.0 location steps with positional predicates (section 2 of the XPath 1.0 recommendation).

The function walks up `parentNode` from the starting node. At each element it counts the preceding siblings that have the same `nodeName`, skipping doctype nodes. It then prepends a step `name[k]`, or `*[local-name()='name'][k]` for an SVG element. The walk stops at the first node that is not an element, or at the optional context node. The steps are joined by `/`. A leading `/` is added only when no context was given, and the result is null when no step was collected.

Layout:

- `dom.dfy` (module `Dom`): the tree. Nodes are numbered in document order, so a parent and a previous sibling always have smaller numbers (`ValidTree`). Each node has a node type (element, doctype or other), a `nodeName`, an SVG flag and optional `parent` / `prev` links. The tree is a value, so every operation here only reads it.
- `text.dfy` (module `Text`): ASCII lower-casing, decimal numerals with their parser, and `join`/`split` on one separator, with both round trips.
- `xpath.dfy` (module `XPath`): the specification functions (`CountSameName`, `Position`, `Chain`, `Render`, `Expression`), the imperative `GetExpression` with the two loops of getExpression, and the lemmas about the walk and the positions.
- `syntax.dfy` (module `XPathSyntax`): a reader for the produced expressions. Its round-trip lemma shows that, for names without `/` or `*`, the string keeps whether it is absolute or relative and, for every step, its form, its lower-cased name and its position.
- `examples.dfy` (module `XPathExamples`): worked examples on a small XHTML document.
- `optional.dfy` (module `Optional`): `Option`, which stands for JavaScript's `null`.

The context node's own step is never emitted: the `isNodeContext` closure (xpath.js:14-19) reads the reassigned `element` variable, so the loop stops on the context node. Relative to `body`, the second `div` yields `div[2]` (`XPathExamples.RelativeExample`). If the context is the starting element itself, the result is null.

The count compares `nodeName` as it is (xpath.js:32), but the step shows the lower-cased name (xpath.js:37). So two sibling elements whose names differ only in case, such as `Item` and `item` in an XML document, both get `item[1]` (`XPathExamples.CaseCollision`).

`GetExpression` requires `ReachesStop`: the upward walk must reach a non-element or the context before a node with no parent. Without this, getExpression would read `nodeType` of `null` (xpath.js:21) and throw.

## Model

| member | source | states |
|---|---|---|
| XPath.GetExpression | src/utils/xpath.js:11-52 | The method, with the outer `while` over `parentNode`, the inner sibling-count loop, the `unshift` of `tagName + pathIndex` and the final join, returns exactly `Expression`: null, or the steps of `Chain` joined by `/`, prefixed by `/` only without a context. |
| XPath.Expression | src/utils/xpath.js:21-51 | The result is null exactly when the starting node is not an element or is the context node itself, i.e. exactly when no step is collected. |
| XPath.ChainIsWalk | src/utils/xpath.js:14-46 | The visited nodes are, topmost first, elements other than the context, each the `parentNode` of the next; the last is the start, and the parent of the first is a non-element or the context. |
| XPath.WalkIsChain | src/utils/xpath.js:21-46 | Any sequence with those properties is the walk: the steps are exactly one per element met on the parent chain before the stop, in top-down order. |
| XPath.ContextCutsWalk | src/utils/xpath.js:14-21 | With a context `c`, the walk is the tail of the context-free walk strictly below `c`. `c` never appears; if `c` is on the context-free walk, the walk stops right under it, otherwise it is the whole context-free walk. |
| XPath.CountIsCardinality | src/utils/xpath.js:24-35 | Counting along `previousSibling` gives the number of distinct siblings on the chain that are not doctypes and have the same `nodeName`. |
| XPath.PositionCountsSameName | src/utils/xpath.js:22-38 | A step's bracketed number is 1 plus the number of preceding siblings with the element's `nodeName`, doctypes excluded whatever their name; so it is at least 1. |
| XPath.EarlierSameNameSiblingHasSmallerPosition | src/utils/xpath.js:24-38 | An earlier sibling that is counted (not a doctype, same `nodeName`) has a strictly smaller position, so no two siblings with the same `nodeName` share a position. |
| XPath.RenderAllAt | src/utils/xpath.js:44 | The k-th rendered text is the rendering of the k-th step: the list of `unshift`ed texts follows the steps one for one. |
| XPathSyntax.ParseRender | src/utils/xpath.js:37-44 | A step rendered as `tag[k]`, or `*[local-name()='tag'][k]` when SVG, reads back as the same form, lower-cased name and position. |
| XPathSyntax.RenderHasNoSlash | src/utils/xpath.js:37-44 | A rendered step contains no `/` when the name has none, so the separator of the join is unambiguous. |
| XPathSyntax.RenderStart | src/utils/xpath.js:37-44 | A rendered step is never empty and never starts with `/`. |
| XPathSyntax.ExpressionRoundTrip | src/utils/xpath.js:37-51 | Every non-null result reads back as exactly the walk's steps, in order. It reads as absolute (a leading `/`) precisely when no context was given. |
| Text.Decimal | src/utils/xpath.js:38 | The numeral written into `[...]` is non-empty and made of decimal digits only. |
| Text.ParseDecimalOfDecimal | src/utils/xpath.js:38 | The numeral of `index + 1` reads back as `index + 1`. |
| Text.LowerKeepsPunctuation | src/utils/xpath.js:37 | Lower-casing adds and removes no non-letter character (used for `/` and `*`). |
| Text.SplitJoin | src/utils/xpath.js:51 | Splitting a `/`-join of `/`-free parts gives back the parts. |
| Text.JoinSplit | src/utils/xpath.js:51 | Joining the pieces of a split gives back the string. |
| XPathExamples.DocPositions | src/utils/xpath.js:22-38 | In the example document, the second `div` has position 2 (a text node between the divs does not count), and `html` has position 1 although a doctype named `html` precedes it. |
| XPathExamples.AbsoluteExample | src/utils/xpath.js:11-52 | Without a context the second `div` yields `/html[1]/body[1]/div[2]`. |
| XPathExamples.RelativeExample | src/utils/xpath.js:14-21 | With the context `body` the second `div` yields `div[2]`; the context's own step is absent. |
| XPathExamples.SvgExample | src/utils/xpath.js:40-44 | An SVG element yields `*[local-name()='svg'][1]`. |
| XPathExamples.CaseCollision | src/utils/xpath.js:32-37 | Two distinct sibling elements named `Item` and `item` are each first of their `nodeName`, yet both yield the same expression `/list[1]/item[1]`. |
| XPathExamples.NullExamples | src/utils/xpath.js:21-50 | A context equal to the starting element, or a text node as the start, yields null. |

## Left out

- `getElement` (xpath.js:61-83): it hands the expression to the host's `document.evaluate`, whose XPath engine is not part of this model. What remains is a default context, a try/catch and `console.error` logging, which is I/O. So there is no build-then-resolve round trip. `XPathSyntax.ExpressionRoundTrip` states instead what the text itself encodes.
- `isSVG` and `debug`: they are imported from other files, and those files are not part of this model. SVG membership is a per-node flag.
- `window.Node` constants: a three-way node kind stands in for them (element, doctype, any other node type).
- `toLowerCase`: the model lowercases ASCII letters only. Unicode case mapping is left out.
- The `TypeError` when the walk passes a node without a parent is not modelled. It is excluded by the precondition `ReachesStop`.
- Object identity: node identity (`!==`) is equality of node numbers. Live DOM mutation during the call is left out, because the call is synchronous and only reads.
- XPathSyntax.ExpressionRoundTrip: stated only for trees whose node names contain neither `/` nor `*` (XML names never do). For other names the text can be ambiguous, and the lemma says nothing about them.
