# Footnote and paragraph renumbering, modelled in Dafny

Two batch rewrites of an XML book are modelled here.

`cleanup.js` renumbers the `<footnote>` elements in document order. Its work falls into three passes:

1. **Pass 1.** The k-th footnote (0-based) gets `id="k+1"`. The map `idMap` records old id to new number. Every `<p>` inside the footnote has its leading label rewritten by `updateLeadingNumber`, which handles two shapes:
   - `(12) text` becomes `(k+1) text`;
   - `12- text` / `12. text` / `12 text` becomes `k+1- text` and so on.
2. **Pass 2.** Every `<a>` whose class contains `footnote-ref` and whose `href` is `#f<old>`, with `<old>` known to `idMap`, is remapped: it gets `href="#f<n>"`, `id="ref<n>"` and the text `(n)`.
3. **Pass 3.** When a footnote's first child is a text node, its leading `\s*\d+` is replaced by the footnote's number.

`parse-book.js` gives the i-th `<para>` in document order `id="i+1"`.

The document is a tree, `Tree.Node = Element(name, attrs, children) | Text(data)`. A node is identified by its path of child indices.

- `DocOrder.Select` stands for the XPath selections `//footnote`, `.//p`, `//a[contains(@class,'footnote-ref')]` and `//para`: every matching element, in pre-order.
- `Tree.Document` holds the tree. Its methods are the DOM calls the scripts make: `setAttribute`, the `textContent` setter, and assignment to a text node's `data`.
- Each loop of the scripts is a method on that document, and its `ensures` ties the new tree to a fold function of the old one: `Cleanup.RenumberFootnotes`, `Cleanup.EditEach`, `Cleanup.FixLeadingTexts` and `ParseBook.NumberParas`. The lemmas state what those folds leave.
- The two regular expressions of `updateLeadingNumber`, and the one of pass 3, are written as scanners in `Labels`. Each is proved equal to the decomposition the expression describes.
- JavaScript's `\s` is the exact ECMAScript white-space and line-terminator set. `\d` is ASCII `0-9`.

## How the code behaves
- Footnote ids become bare numbers (`"1"`), while remapped anchors point at `#f1`. The model keeps this mismatch.
- The lookup key is `href.slice(2)`, compared against the raw old id (`Cleanup.LinkTarget`).
- A footnote without an `id` contributes the key `null` to `idMap`. It is modelled as `None`, which is what `getAttribute` returns for a missing attribute in `@xmldom/xmldom` 0.9 and later.
- When two footnotes share an old id, the later one wins (`Cleanup.IdMapLastWins`).
- An anchor whose `href` names an id no footnote had is left alone. After renumbering, such an href can name a new id, so a second run of the script can remap an anchor the first run left alone. `Cleanup.RelinkAgain` proves a second run changes nothing only for anchors the first run did remap.
- Assigning `textContent` replaces an element's children with one text node, or with none when the string is empty.
  - Anything below the element is then detached. The scripts may still write to detached nodes, but those writes do not reach the serialised document, so the model skips any path that no longer leads to an element.
  - The exact per-element results of pass 1 and pass 2 therefore hold when no selected element lies inside another. `Cleanup.FootnotesApart`, `Cleanup.FootnoteParasFlat` and `Cleanup.AnchorsApart` state these conditions.
  - The frame results ("nothing else changes") hold without them.

## Model

| member | source | states |
|---|---|---|
| Decimal.NatToString | cleanup.js:37 | `String(n)`: a nonempty string of ASCII digits that starts with `0` only for 0 (its value is fixed by ValueOfNatToString) |
| Tree.GetAttribute | cleanup.js:38 | `getAttribute`: the attribute's value, or null (None) when the element has no such attribute; also used at cleanup.js:49 |
| Tree.TextContent | cleanup.js:23 | the `textContent` getter: the text of all descendant text nodes in document order |
| Tree.WithAttr | cleanup.js:40 | `setAttribute` on the element at a path: no path appears or disappears, only that element's attribute changes, everything not above it is identical; also used at cleanup.js:54-55 and parse-book.js:18 |
| Tree.WithText | cleanup.js:26 | the `textContent` setter: the element's children become one text node holding the string (none when empty), whatever was below it is detached, nothing apart from it changes, and reading `textContent` back gives the string; also used at cleanup.js:29 and 56 |
| Tree.TextContentOfTextChildren | cleanup.js:26 | after the setter, the getter reads back exactly the string that was set |
| Tree.WithData | cleanup.js:63 | assignment to a text node's `data`: that node becomes the new text, no path appears or disappears, nothing else changes |
| Tree.Document.SetAttribute | cleanup.js:40 | the document's tree becomes WithAttr of the old tree |
| Tree.Document.SetTextContent | cleanup.js:26 | the document's tree becomes WithText of the old tree |
| Tree.Document.SetData | cleanup.js:63 | the document's tree becomes WithData of the old tree |
| Decimal.ValueOfNatToString | cleanup.js:37 | the decimal string `String(n)` reads back as `n` |
| Decimal.NatToStringInjective | cleanup.js:37 | different numbers give different id strings |
| DocOrder.Select | cleanup.js:19 | an XPath `//name` selection holds exactly the matching elements, in document order |
| DocOrder.SelectSame | cleanup.js:19 | a selection depends only on which paths match |
| DocOrder.SelectTagKept | cleanup.js:19 | a rewrite that adds and renames no element, and keeps every selected one, leaves a `//name` selection as it was |
| DocOrder.NumberingDistinct | parse-book.js:18 | no two positions get the same id string |
| Labels.ParenEnd | cleanup.js:25 | the scanner for `/^\s*\(\d+\)/`: the end of the match, within the text (characterised by ParenEndSplit and ParenEndMatches) |
| Labels.NumberEnd | cleanup.js:28 | the scanner for `/^\s*\d+[\s.-]/`: the end of the digits, a separator following (characterised by NumberEndSplit and NumberEndMatches) |
| Labels.Relabel | cleanup.js:22-31 | updateLeadingNumber on the text: the new text, which starts with `(newNum)` or `newNum`, or None when the element is left alone (characterised by RelabelMatches, RelabelParen and RelabelNumber) |
| Labels.ReplaceLeadingDigits | cleanup.js:63 | the replace of `/^\s*\d+/` by `String(newNum)`: the text unchanged or starting with the new number (characterised by ReplaceLeadingDigitsSplit and LeadShapedSplit) |
| Labels.ReplaceLeadingDigitsArabicIndic | cleanup.js:63 | a text whose first non-space character is an Arabic-Indic digit is left unchanged |
| Labels.ParenEndSplit | cleanup.js:25 | on `ws* "(" digits+ ")" rest` the first pattern matches and ends exactly before `rest` |
| Labels.ParenEndMatches | cleanup.js:25 | the first pattern matches iff the text has the shape `ws* "(" digits+ ")" ...` |
| Labels.NumberEndSplit | cleanup.js:28 | on `ws* digits+ sep rest` the second pattern matches and its digits end exactly before `sep` |
| Labels.NumberEndMatches | cleanup.js:28 | the second pattern matches iff the text has the shape `ws* digits+ sep ...` with sep white space, `.` or `-` |
| Labels.ShapesDisjoint | cleanup.js:25-29 | no text has both label shapes |
| Labels.RelabelMatches | cleanup.js:22-31 | updateLeadingNumber rewrites the text iff one of the two shapes is present |
| Labels.RelabelParen | cleanup.js:25-26 | `ws* "(" ds ")" rest` becomes `"(" newNum ")" rest`: leading white space dropped, rest kept |
| Labels.RelabelNumber | cleanup.js:28-29 | `ws* ds sep rest` becomes `newNum sep rest`: separator and rest kept |
| Labels.RelabelNeedsSeparator | cleanup.js:28 | bare digits with nothing after them are left unchanged |
| Labels.RelabelArabicIndic | cleanup.js:25-29 | every text whose first non-space character is an Arabic-Indic digit is not a `\d` label and is left unchanged |
| Labels.RelabelAgain | cleanup.js:22-31 | relabelling a relabelled text gives what relabelling the original would |
| Labels.RelabelIdempotent | cleanup.js:22-31 | relabelling twice with the same number changes nothing more |
| Labels.ReplaceLeadingDigitsSplit | cleanup.js:63 | on `ws* digits+ rest` (all leading digits) the result is `newNum rest` |
| Labels.ReplaceLeadingDigitsNoMatch | cleanup.js:63 | text that does not start with `ws* digit` is unchanged |
| Labels.LeadShapedSplit | cleanup.js:63 | text that the pattern matches splits as `ws* digits+ rest` |
| Labels.ReplaceLeadingDigitsAgain | cleanup.js:63 | replacing twice equals replacing once with the second number |
| Cleanup.LinkTarget | cleanup.js:49-53 | the number an anchor's `href` is remapped to: only a nonzero value of `idMap`, or None on each early return (characterised by LinkTargetIff and LinkResolves) |
| Cleanup.IdMapOf | cleanup.js:34-39 | `idMap` after k calls of `idMap.set(oldId, idx + 1)`: every value lies in 1..k (characterised by IdMapLastWins) |
| Cleanup.EditAt | cleanup.js:43 | one rewrite of the element at a path; a path that no longer leads to an element (detached earlier) leaves the tree as it is (see EditAtEffect) |
| Cleanup.EditAtEffect | cleanup.js:43-56 | one rewrite adds and renames no element, changes nothing not at or below it, nothing apart from it, and leaves the element as the rewrite of itself |
| Cleanup.EditEach | cleanup.js:43-56 | a `forEach` of one rewrite over a list of paths, in order (see EditEachKept and EditEachApartAt) |
| Cleanup.RenumberFootnote | cleanup.js:36-43 | the body of the first pass for the k-th footnote: set the id to String(k+1), then updateLeadingNumber on each of its `.//p` (see RenumberFootnoteKept to RenumberFootnoteParaAt) |
| Cleanup.RenumberFootnotes | cleanup.js:35-44 | the first k iterations of the first pass (see RenumberKept to RenumberRest) |
| Cleanup.FixLeadingText | cleanup.js:61-64 | the body of the third pass: when the footnote's first child is a text node, its leading digits become k+1 |
| Cleanup.FixLeadingTexts | cleanup.js:60-65 | the first k iterations of the third pass (see FixLeadingTextsEffect) |
| Cleanup.Edited | cleanup.js:22-31 | a label rewrite keeps the element's name and attributes and leaves its children or only text; an anchor remap keeps its name |
| Cleanup.UpdateLeadingNumber | cleanup.js:22-31 | the document afterwards is the `<p>` rewrite of the document before (an unchanged tree when no shape matches) |
| Cleanup.NumberFootnotes | cleanup.js:19-44 | returns the footnotes in document order and the map of their old ids; the tree is the fold of the loop body |
| Cleanup.NumberFootnote | cleanup.js:35-44 | one call of the loop body takes `idMap` and the tree from the first k iterations to the first k+1 |
| Cleanup.SetFootnoteNumber | cleanup.js:40-43 | setting the id and relabelling the `<p>` elements is one iteration of the fold |
| Cleanup.RelinkAnchor | cleanup.js:48-57 | the document afterwards is the anchor remap of the document before, or unchanged on each early return |
| Cleanup.RelinkAnchors | cleanup.js:47-57 | the tree is the fold of the remap over the selected anchors |
| Cleanup.FixLeadingTextsIn | cleanup.js:60-65 | the tree is the fold of the first-text rewrite over the footnotes |
| Cleanup.Run | cleanup.js:19-65 | the whole script is the three folds in sequence |
| Cleanup.EditEachKept | cleanup.js:43-56 | a run of rewrites adds and renames no element; only an anchor remap touches attributes, and only the remapped anchors' |
| Cleanup.EditEachApartAt | cleanup.js:43-56 | with no edited path at or below another, each edited element ends as the rewrite of its original |
| Cleanup.RenumberFootnoteKept | cleanup.js:36-43 | one iteration of pass 1 adds and renames no element and changes attributes only on its footnote |
| Cleanup.RenumberFootnoteInfo | cleanup.js:36-43 | one iteration changes nothing that is not at or below its footnote |
| Cleanup.RenumberFootnoteFrame | cleanup.js:36-43 | one iteration leaves every subtree apart from its footnote as it was |
| Cleanup.RenumberFootnoteSelf | cleanup.js:40 | one iteration changes its footnote itself only in the id, which becomes String(k+1) |
| Cleanup.RenumberFootnoteParaAt | cleanup.js:42-43 | with the footnote's `<p>` elements apart (none inside another), one iteration leaves each of them as updateLeadingNumber makes it |
| Cleanup.LeadingNumberEdit | cleanup.js:22-31 | updateLeadingNumber leaves an element unchanged when no label shape matches, else its text is exactly the relabelled text |
| Cleanup.RenumberKept | cleanup.js:35-44 | pass 1 adds and renames no element and changes attributes only on footnotes already visited |
| Cleanup.FootnoteUntouched | cleanup.js:35-44 | with footnotes apart, the iterations before the k-th leave the k-th footnote's subtree as parsed |
| Cleanup.RenumberIdAt | cleanup.js:35-40 | with footnotes apart, after k iterations the j-th footnote (j < k) has only its id changed, to String(j+1) |
| Cleanup.RenumberParaAt | cleanup.js:35-44 | with footnotes apart and the j-th footnote's `<p>` elements apart, after k iterations each such `<p>` (j < k) is as updateLeadingNumber(p, j+1) makes it |
| Cleanup.RenumberRest | cleanup.js:35-44 | with footnotes apart, after k iterations whatever lies inside the j-th footnote outside its `<p>` elements is unchanged |
| Cleanup.FootnotesNumbered | cleanup.js:35-40 | the k-th footnote in document order ends with id String(k+1), name, other attributes and child count unchanged |
| Cleanup.FootnoteIdsAreNumbering | cleanup.js:19-40 | afterwards `//footnote` selects the same elements in the same order, and their ids are exactly "1".."N" |
| Cleanup.FootnoteParasRelabelled | cleanup.js:41-43 | each `<p>` of the k-th footnote is unchanged when no label shape matches, else holds only the relabelled text |
| Cleanup.FootnoteRestUnchanged | cleanup.js:35-44 | inside a footnote, whatever is not at or below one of its `<p>` keeps its name, attributes, child count or text |
| Cleanup.OutsideFootnotesUnchanged | cleanup.js:35-44 | pass 1 changes nothing outside the footnotes |
| Cleanup.OldIdUnwritten | cleanup.js:38-40 | the id the k-th iteration reads is the id the footnote was parsed with |
| Cleanup.OldIdAt | cleanup.js:38-40 | the same, for one footnote |
| Cleanup.IdMapLastWins | cleanup.js:34-39 | `idMap`'s keys are exactly the old ids; each maps to a value in 1..k, the number of the last footnote carrying it |
| Cleanup.IdMapKeys | cleanup.js:34-39 | the keys of `idMap` after k iterations are exactly the first k old ids |
| Cleanup.IdMapValueAt | cleanup.js:34-39 | a key maps to a number m in 1..k whose footnote carries that key, and no later footnote does |
| Cleanup.IdMapOfNumbering | cleanup.js:34-39 | built from ids "1".."N", `idMap` sends String(n) to n |
| Cleanup.NumberingAt | cleanup.js:34-39 | the same, for one n |
| Cleanup.LinkTargetIff | cleanup.js:49-53 | an anchor is remapped to k iff its href is `#f` + an old id with `idMap` value k (nonzero) |
| Cleanup.LinkResolves | cleanup.js:50-53 | an href resolves iff it is `#f` + some footnote's old id; it resolves to the last such footnote's number |
| Cleanup.LinkTargetOf | cleanup.js:49-53 | the href `#f` + x is looked up under the key x, and resolves iff `idMap` gives x a nonzero number |
| Cleanup.RelinkFixed | cleanup.js:54-56 | an anchor already at `#f<k>`, `ref<k>`, `(k)` stays as it is under a map sending String(k) to k |
| Cleanup.RelinkAgain | cleanup.js:48-56 | remapping a remapped anchor with the map a second run builds leaves it as it is |
| Cleanup.AnchorsRelinked | cleanup.js:47-56 | each selected anchor is unchanged (stray link) or has href `#f<n>`, id `ref<n>`, text `(n)` and its other attributes |
| Cleanup.OutsideAnchorsUnchanged | cleanup.js:47-57 | pass 2 adds and renames no element, changes attributes only of selected anchors, and nothing outside them |
| Cleanup.FixLeadingTextsEffect | cleanup.js:60-64 | the first text child of the k-th footnote gets its leading digits replaced by k+1; no other node changes and no node is added or removed |
| ParseBook.NumberParas | parse-book.js:17-19 | the first i iterations of `paras.forEach`: the j-th para gets id String(j+1) (see NumberParasEffect) |
| ParseBook.NumberParasEffect | parse-book.js:17-19 | the loop detaches nothing, and each visited para changes only in its id, which becomes its position + 1 |
| ParseBook.AssignParaIds | parse-book.js:15-19 | returns `//para` in document order; the j-th para ends with id String(j+1); the tree is the fold of the loop |
| ParseBook.SetIdStep | parse-book.js:17-18 | one `setAttribute` keeps the ids set earlier and sets the current para's id to its position + 1 |
| ParseBook.ParasNumbered | parse-book.js:15-19 | the k-th para ends with id String(k+1) and is otherwise the same |
| ParseBook.OnlyParaIdsChange | parse-book.js:17-19 | no node is added, removed, moved or renamed, and nothing but the paras changes |
| ParseBook.ParaIdsAreNumbering | parse-book.js:15-19 | `//para` afterwards selects the same elements, with ids exactly "1".."N" |
| ParseBook.ParaIdsDistinct | parse-book.js:15-19 | no two paras share an id |
| ParseBook.NestedParaLater | parse-book.js:15-18 | a para nested in another para gets the larger number |
| ParseBook.NumberParasNumbered | parse-book.js:17-18 | numbering paras that already carry their numbers changes nothing |
| ParseBook.ParaIdsTwice | parse-book.js:17-18 | running the script on its own output gives back that output |

## Left out
- Reading and writing files, the command line, `process.exit` and the console messages (cleanup.js:9-16, 67-69; parse-book.js:6-13, 21-27) are I/O. The model starts from the parsed tree and ends with the rewritten one.
- XML parsing and serialisation are done by `@xmldom/xmldom`, a library not part of this model. Serialisation is taken as the identity on the tree.
- Comments, processing instructions, CDATA and namespaces are left out. The tree has only elements and text, and the `textContent` getter concatenates all descendant text.
- XPath evaluation is replaced by `DocOrder.Select`. It matches by element name, ancestor, and substring of the `class` attribute.
- The JavaScript regex engine is left out. Only the three fixed patterns are modelled.
- JavaScript strings are UTF-16 code units; the model's are Unicode code points. All characters the patterns and `slice(2)` touch lie in the Basic Multilingual Plane.
- Writes to a node that an earlier `textContent` assignment detached are not modelled. They do not reach the output document.
- review-translation.js is not part of this model. It is a network client for a language model, with file I/O and prompt assembly around it.
- Cleanup.FootnotesNumbered: proved only when no footnote lies inside another (`FootnotesApart`). Otherwise an outer footnote's `<p>` rewrite can detach an inner footnote.
- Cleanup.FootnoteIdsAreNumbering: under the same condition, for the same reason.
- Cleanup.FootnoteParasRelabelled: proved under `FootnotesApart`, and with no `<p>` nested inside a footnote's `<p>` (`FootnoteParasFlat`). A nested `<p>` is detached by its parent's rewrite.
- Cleanup.FootnoteRestUnchanged: proved under `FootnotesApart`.
- Cleanup.AnchorsRelinked: proved only when no selected anchor lies inside another (`AnchorsApart`).
- Cleanup.RelinkAgain: stated for anchors the first run remapped. A stray anchor can name one of the new ids and be remapped by a second run.
- Cleanup.NumberFootnotes: for a footnote detached by an earlier iteration, the method uses the id the footnote was parsed with. The script never writes a footnote's id before reading it; `Cleanup.OldIdUnwritten` proves this only for footnotes still in the document.
- Cleanup.Run: no theorem carries the footnote and paragraph results across all three passes. A pass-2 rewrite can detach a footnote nested in a remapped anchor.
- The `@xmldom/xmldom` version is not pinned by either script. The model follows 0.9 and later, where a missing attribute reads as null. Earlier xmldom releases read it as `""`; under them an id-less footnote would enter `idMap` under the key `""`, and an anchor with `href="#f"` would be remapped to it. `parse-book.js` imports the older `xmldom` package, but only calls `setAttribute`, which that difference does not affect.
