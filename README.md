# website-stalker, modelled in Dafny

website-stalker watches a list of web pages. For every configured site it
fetches the page, runs the site's chain of *editors* (select or remove parts
of the HTML, flatten or rename elements, sort elements, prettify, turn the
page into text or Markdown, make links absolute, select from JSON, build an
RSS feed), and writes the result to a file named after the URL. It then
classifies each write as new, changed or unchanged, commits the changes to
git with a generated commit message, and sends a notification built from a
template.

This project models the deterministic core of that program:

- the editor chain and each editor;
- the arena tree the DOM editors change in place;
- the event-stream serializers and their line post-passes;
- the file-name schemes and the duplicate checks;
- the content store, with the filesystem as a map;
- the configuration and `from` address checks;
- the commit-message, notification and summary builders;
- the bookkeeping of a run.

One Dafny module stands for each source file. Imperative code is
imperative Dafny, with a method proved against a function that specifies
it:

- the editor fold;
- the tree mutations of the CSS editors, on a `Dom.Tree` class;
- the serializers, as classes with their `depth` and output fields;
- the store, as a class over a map of files;
- the JSON cursor walk;
- the configuration loop;
- the grouping and collecting loops of `run`.

Pure code is functions. Parsing HTML, matching selectors, joining URLs,
regular expressions, the template engine, the RSS writer, date parsing,
HTTP, git and time are not modelled. Each is a parameter of the operation
that uses it: a function value, a match list or an event sequence.

Shared modules:

- `Wrappers`: `Option` and `Result`.
- `Text`: the string functions of the Rust standard library that the code
  calls: trim, split, lines, replace.
- `Sorting`: an insertion sort by a comparator, standing for both stable and
  unstable sorts, together with `dedup`.
- `Urls`: a URL as its serialization plus its parsed parts.
- `Dom`: the arena tree, its events and its renderer.
- `LinePass`: the indenting printer shared by the two pretty printers.

## Model

| member | source | states |
|---|---|---|
| Editors.ApplyMany | src/editor/mod.rs:98-109 | the loop that reassigns the content returns `ChainFrom`: each editor applied, in order and with the same URL, to the previous editor's output; the first failure, tagged with its index and log name, ends the chain |
| Editors.NoEditors | src/editor/mod.rs:98-108 | an empty editor list returns the input content unchanged |
| Editors.ChainStep | src/editor/mod.rs:103-107 | editor i+1 works on editor i's output: the chain is the first editor followed by the chain of the rest |
| Editors.ChainSplit | src/editor/mod.rs:103-107 | running the chain is running its first k editors and then the remaining ones on what they produced, unless the first part already failed |
| Editors.FirstFailureStops | src/editor/mod.rs:104-106 | when editor k fails after the earlier ones succeeded, the chain's result is that error wrapped as "in editor[k] <log_name>: …", so no later editor runs |
| Editors.ErrorNamesEditor | src/editor/mod.rs:104-106 | every error of the chain is the wrapped error of some editor of the list |
| Editors.ApplyExtension | src/editor/mod.rs:53-96 | on success the regex replacer keeps the input extension and every other editor sets its fixed one (html, md, txt, json or xml) |
| Editors.NeverFails | src/editor/mod.rs:55-90 | css_remove, html_markdownify, html_sanitize and regex_replace always succeed, and so do the prettifier, textifier and URL canonicalizer of the model |
| Editors.LogNamesDistinct | src/editor/mod.rs:37-51 | two editors with the same log name are of the same kind |
| CssSelector.Outers | src/editor/css_selector.rs:5-8 | one outer HTML per match |
| CssSelector.Apply | src/editor/css_selector.rs:3-11 | the error "selected nothing" exactly when nothing matched; a single match gives exactly its outer HTML |
| CssSelector.ApplySplitsIntoMatches | src/editor/css_selector.rs:5-10 | on matches without line breaks, the result splits at "\n" back into the matches' outer HTML in match order |
| CssRemove.Apply | src/editor/css_remove.rs:3-15 | the serialized tree after detaching every match in turn; no match gives the document unchanged |
| CssRemove.RemoveAll | src/editor/css_remove.rs:9-13 | detaching the matches one by one keeps the arena's size; ids not in the tree are skipped |
| CssRemove.RemoveAllIsPruned | src/editor/css_remove.rs:9-13 | detaching the matches one by one equals the closed form where each matched node is unlinked from its parent and keeps its own subtree |
| CssRemove.PrunedDetached | src/editor/css_remove.rs:10-12 | detaching one more node is the closed form with one more node gone |
| CssRemove.RemoveOrderIrrelevant | src/editor/css_remove.rs:48-59 | the result depends only on the set of matches, so an ancestor and its descendant give the same result in either order |
| CssRemove.RemovedNodeUnlinked | src/editor/css_remove.rs:21-29 | a removed node has no parent and is nobody's child, and it takes its subtree with it |
| CssRemove.UnmatchedNodeKept | src/editor/css_remove.rs:61-72 | a node that was not matched keeps its value and parent and loses only matched children, so a look-alike elsewhere survives |
| CssRemove.Drop | src/editor/css_remove.rs:10-12 | the child list without the detached ids, order kept |
| CssFlatten.Apply | src/editor/css_flatten.rs:3-29 | the HTML of the tree after every selected node has been flattened in match order; nothing selected gives the document unchanged |
| CssFlatten.FlattenStep | src/editor/css_flatten.rs:10-26 | the in-place loop body on the mutable tree leaves exactly the tree of `FlattenOne` and keeps the tree's links consistent |
| CssFlatten.FlattenOne | src/editor/css_flatten.rs:10-26 | flattening one node keeps the arena's size and its parent/child links in range |
| CssFlatten.FlattenAll | src/editor/css_flatten.rs:9-27 | flattening the matches one after the other keeps the arena's size and links in range |
| CssFlatten.InsertEach | src/editor/css_flatten.rs:22-24 | `insert_id_after` on the wrapper for each child keeps the wrapper under its parent and the links in range |
| CssFlatten.MoveStep | src/editor/css_flatten.rs:23 | one `insert_id_after`: the moved child leaves the wrapper, stands right after the anchor under the same parent, and no other node changes |
| CssFlatten.InsertEachReverses | src/editor/css_flatten.rs:22-24 | after k moves the first k children stand right after the wrapper in reverse order and the rest are still inside it |
| CssFlatten.FlattenOneReverses | src/editor/css_flatten.rs:10-26 | as written, the wrapper is unlinked and its children take its place under its parent in REVERSED order; every other node is unchanged |
| CssFlatten.FlattenSwapsTwoChildren | src/editor/css_flatten.rs:21-26 | a wrapper with children x, y is replaced by y, x, not by x, y |
| CssFlatten.InsertInOrder | src/editor/css_flatten.rs:22-24 | the corrected moves, each child inserted after the one moved before it, keep the links in range and the last child under the wrapper's parent |
| CssFlatten.InsertInOrderShape | src/editor/css_flatten.rs:22-24 | after k corrected moves the first k children stand right after the wrapper in their own order |
| CssFlatten.FlattenOneKeepsOrder | src/editor/css_flatten.rs:10-26 | the corrected flattening replaces the wrapper by its children in their own order, each now a child of the wrapper's parent, and unlinks the wrapper; every other node is unchanged |
| CssFlatten.InsertEachNode | src/editor/css_flatten.rs:22-24 | the moves keep every value; a moved child's parent becomes the wrapper's parent and every other parent link stays |
| CssFlatten.InsertEachChildren | src/editor/css_flatten.rs:22-24 | the moves change the child lists of the wrapper and its parent only |
| CssFlatten.InsertEachKeepsConsistent | src/editor/css_flatten.rs:22-24 | after the moves every parent still lists exactly its children, each once |
| CssFlatten.FlattenOneNode | src/editor/css_flatten.rs:10-26 | flattening keeps every value; the wrapper loses its parent, its children get the wrapper's parent, every other parent link stays |
| CssFlatten.FlattenOneChildren | src/editor/css_flatten.rs:10-26 | flattening changes the child lists of the wrapper and its parent only |
| CssFlatten.FlattenOneKeepsConsistent | src/editor/css_flatten.rs:10-26 | after flattening every parent still lists exactly its children, each once |
| CssFlatten.FlattenOneKeepsRanked | src/editor/css_flatten.rs:10-26 | flattening creates no cycle: the same depth witness still ranks every parent below its child |
| CssFlatten.StepOkWhenParented | src/editor/css_flatten.rs:21 | in a consistent tree without cycles any node with a parent can be flattened |
| CssFlatten.FirstStep | src/editor/css_flatten.rs:9-27 | flattening the first match keeps the tree consistent and acyclic, and the remaining matches distinct and still under a parent |
| CssFlatten.FlattenableWhenParented | src/editor/css_flatten.rs:9-27 | distinct matches that all have a parent can be flattened one after the other, each step finding its node under a parent |
| CssFlatten.Nearest | src/editor/css_flatten.rs:9-27 | the nearest ancestor that is not a match, or none; never one of the matches |
| CssFlatten.NearestAfterStep | src/editor/css_flatten.rs:9-27 | flattening the first match does not change the nearest unmatched ancestor that the remaining matches give any other node |
| CssFlatten.NearestOfNode | src/editor/css_flatten.rs:9-27 | an unmatched node's nearest unmatched ancestor is the same before and after flattening the first match |
| CssFlatten.FlattenAllParents | src/editor/css_flatten.rs:9-27 | after all matches are flattened the tree is consistent, every value is kept, every match is unlinked, and every other node hangs under its nearest unmatched ancestor |
| CssFlatten.FlattenAllUnlinksMatches | src/editor/css_flatten.rs:21-25 | after all matches are flattened each match has neither parent nor children |
| CssFlatten.FlattenNested | src/editor/css_flatten.rs:64-69 | an outer match whose only child is an inner match: the grandchildren take the outer element's place under its parent (in the reversed order of the code as written), and both matches are unlinked |
| CssSort.ComputeKey | src/editor/css_sort.rs:28-41 | the cached-key closure's loop gives the key `SortKey`: the `sort_by` editors run in turn on the element's HTML starting as html, and the first failure gives the empty key |
| CssSort.Apply | src/editor/css_sort.rs:20-52 | nothing matched gives "selected nothing"; otherwise the matches' outer HTML, stably ordered by key, reversed when configured, joined by "\n" (`ApplySpec`) |
| CssSort.KeyedAll | src/editor/css_sort.rs:28-41 | every selected element is paired with its own key, in match order |
| CssSort.KeyWithoutEditors | src/editor/css_sort.rs:33-40 | with no editors left the key is the content's text |
| CssSort.KeyStep | src/editor/css_sort.rs:33-39 | a failing first editor gives the empty key; a succeeding one hands its output to the rest |
| CssSort.KeyIsOuterHtml | src/editor/css_sort.rs:29-40 | with an empty `sort_by` an element's key is its outer HTML |
| CssSort.FailingChainGivesEmptyKey | src/editor/css_sort.rs:34-38 | when editor k fails after the earlier ones succeeded the key is the empty string |
| CssSort.KeyLeIsTotalPreorder | src/editor/css_sort.rs:28 | comparing keys as strings is a total preorder, so the sort is well defined |
| CssSort.ErrorOnlyWhenNothingSelected | src/editor/css_sort.rs:24-26 | the result is an error exactly when nothing is selected, and the error says "selected nothing" |
| CssSort.ArrangedIsPermutation | src/editor/css_sort.rs:28-45 | sorting and reversing neither lose nor duplicate an element |
| CssSort.ArrangedIsOrdered | src/editor/css_sort.rs:28-45 | the keys ascend, or descend with `reverse` |
| CssSort.SameKeyKeepsOrder | src/editor/css_sort.rs:28 | the sort is stable: elements with equal keys keep their match order (turned around under `reverse`) |
| CssSort.ReverseTurnsAround | src/editor/css_sort.rs:43-45 | `reverse` turns the whole sorted sequence around |
| CssSort.ApplyJoinsArranged | src/editor/css_sort.rs:47-51 | with a match the result succeeds and is the arranged elements' HTML joined by newlines, a permutation of the matches' HTML |
| CssTagReplace.Apply | src/editor/css_tag_replace.rs:17-50 | the HTML of the tree after every match was replaced in turn; no match gives the document unchanged |
| CssTagReplace.ReplaceStep | src/editor/css_tag_replace.rs:33-47 | the in-place loop body on the mutable tree leaves exactly the tree of `ReplaceOne`, links consistent |
| CssTagReplace.Captures | src/editor/css_tag_replace.rs:19-31 | one capture of id, element copy and child list per match |
| CssTagReplace.Renamed | src/editor/css_tag_replace.rs:34 | an element copy gets the new local name in the HTML namespace and keeps its attributes |
| CssTagReplace.ReplaceOne | src/editor/css_tag_replace.rs:33-47 | one replacement adds exactly one node and keeps the links in range |
| CssTagReplace.ReplaceAll | src/editor/css_tag_replace.rs:33-47 | the replacements add one node per match and keep the links in range |
| CssTagReplace.AppendStep | src/editor/css_tag_replace.rs:43 | one `append_id`: the child leaves the old element, becomes the new node's last child, and no other node changes |
| CssTagReplace.AppendEachShape | src/editor/css_tag_replace.rs:42-44 | after k appends the new node holds the first k old children in order and the old element the rest |
| CssTagReplace.ReplaceOneShape | src/editor/css_tag_replace.rs:33-47 | the renamed copy takes the old element's place under its parent with all its children in order, the old element is unlinked and childless, and no other node changes |
| CssTagReplace.AppendAll | src/editor/css_tag_replace.rs:42-44 | the loop of `append_id` calls on the mutable tree leaves exactly the tree of `AppendEach` |
| CssTagReplace.AppendEachNode | src/editor/css_tag_replace.rs:42-44 | the appends keep every value; each appended child's parent becomes the new node and every other parent link stays |
| CssTagReplace.AppendEachChildren | src/editor/css_tag_replace.rs:42-44 | the appends change the child lists of the old and the new element only |
| CssTagReplace.AppendEachKeepsConsistent | src/editor/css_tag_replace.rs:42-44 | after the appends every parent still lists exactly its children, each once |
| CssTagReplace.ReplaceOneNode | src/editor/css_tag_replace.rs:33-47 | one replacement keeps every value; the old element loses its parent, its children get the new node as parent, and the new node is the renamed copy under the old parent |
| CssTagReplace.ReplaceOneChildren | src/editor/css_tag_replace.rs:33-47 | one replacement changes the child lists of the old element and its parent only |
| CssTagReplace.ReplaceOneKeepsConsistent | src/editor/css_tag_replace.rs:33-47 | after one replacement every parent still lists exactly its children, each once |
| CssTagReplace.ReplaceableWhenReady | src/editor/css_tag_replace.rs:33-47 | distinct captures whose elements all have a parent can be replaced one after the other, each step finding its element under a parent |
| CssTagReplace.CapturesReady | src/editor/css_tag_replace.rs:19-31 | the captures of distinct matches that have a parent are ready to be replaced and have distinct ids |
| CssTagReplace.Image | src/editor/css_tag_replace.rs:41 | where a node ends up: a match is represented by its renamed copy, a fresh id past the old arena, and any other node by itself |
| CssTagReplace.ImageAt | src/editor/css_tag_replace.rs:41 | the i-th match's copy gets the i-th fresh id |
| CssTagReplace.ReplaceOneStep | src/editor/css_tag_replace.rs:33-47 | one replacement on a consistent tree whose capture is current stays consistent and changes exactly the old element, its parent, its children and the new node |
| CssTagReplace.ReplaceNext | src/editor/css_tag_replace.rs:33-47 | the closed form after k replacements, followed by one more replacement, is the closed form after k + 1 |
| CssTagReplace.ReplaceStart | src/editor/css_tag_replace.rs:19-31 | before any replacement the document is the closed form after zero steps |
| CssTagReplace.ReplaceTail | src/editor/css_tag_replace.rs:33-47 | from the closed form after k steps the remaining replacements run, keep the tree consistent and reach the closed form after all steps |
| CssTagReplace.ReplaceAllShape | src/editor/css_tag_replace.rs:17-49 | after all replacements the tree is consistent with one new node per match; each match is unlinked and childless; its copy is renamed and has the match's parent and children, each mapped to its copy when it is a match; every other node keeps its value, with its links mapped the same way |
| CssTagReplace.ReplaceAllCapture | src/editor/css_tag_replace.rs:33-47 | a match none of whose children is a match ends as its renamed copy holding exactly the captured children, under the (mapped) parent |
| Dom.Tree.Detach | src/editor/css_remove.rs:11 | `detach` on the mutable tree leaves exactly the value `Detached` and keeps the links in range |
| Dom.Detached | src/editor/css_remove.rs:11 | `detach` keeps the arena's size and every value; only the detached node's parent link changes |
| Dom.Tree.InsertIdAfter | src/editor/css_flatten.rs:23 | `insert_id_after` on the mutable tree leaves exactly the value `WithSiblingAfter` |
| Dom.Tree.InsertAfter | src/editor/css_tag_replace.rs:41 | `insert_after` returns the next free id and leaves exactly the value `WithNewSiblingAfter` |
| Dom.Tree.AppendId | src/editor/css_tag_replace.rs:43 | `append_id` on the mutable tree leaves exactly the value `WithChildAppended` |
| Dom.DetachedShape | src/editor/css_remove.rs:11 | `detach` changes two nodes: the parent's child list loses the node and the node loses its parent; values and the node's own children stay |
| Dom.DetachedKeepsConsistent | src/editor/css_remove.rs:11 | after `detach` every parent still lists exactly its children |
| Dom.DetachedLeavesParentless | src/editor/css_remove.rs:11 | after `detach` the node has no parent |
| Dom.SiblingAfterKeepsConsistent | src/editor/css_flatten.rs:23 | after `insert_id_after` every parent still lists exactly its children, each once |
| Dom.SiblingAfterChildren | src/editor/css_flatten.rs:23 | `insert_id_after` changes the child lists of the anchor's parent and the moved node's old parent only |
| Dom.NewSiblingKeepsConsistent | src/editor/css_tag_replace.rs:41 | after `insert_after` every parent still lists exactly its children, each once |
| Dom.NewSiblingChildren | src/editor/css_tag_replace.rs:41 | `insert_after` changes the child list of the anchor's parent only, and the new node has no children |
| Dom.AppendedKeepsConsistent | src/editor/css_tag_replace.rs:43 | after `append_id` every parent still lists exactly its children, each once |
| Dom.AppendedChildren | src/editor/css_tag_replace.rs:43 | `append_id` changes the child lists of the new parent and the child's old parent only |
| Dom.ParentNotChild | src/editor/css_tag_replace.rs:33-47 | in a tree without cycles a node's parent is never also its child |
| Dom.NoChildWithoutParentLink | src/editor/css_remove.rs:11 | in a consistent tree a node that no node names as its parent has no children |
| Dom.RenderAppend | src/editor/css_remove.rs:14 | serializing two event streams one after the other is serializing their concatenation |
| Dom.DocumentIsBalanced | src/editor/css_remove.rs:14 | the serialized document closes every element it opens |
| HtmlMarkdown.TrimLineEndsIsTidy | src/editor/html_markdown.rs:7-11 | after trimming line ends no line of the text ends in whitespace |
| HtmlMarkdown.CollapseSpaces | src/editor/html_markdown.rs:14 | the collapsed text starts with the same character, whitespace turned into a single space |
| HtmlMarkdown.CollapseSpacesIsSingleSpaced | src/editor/html_markdown.rs:14 | after collapsing, whitespace appears only as single spaces |
| HtmlMarkdown.CollapseSpacesKeepsText | src/editor/html_markdown.rs:14 | collapsing changes only whitespace: every other character stays, in order |
| HtmlMarkdown.LinkAtExactly | src/editor/html_markdown.rs:4 | the link pattern matches at the start of a text exactly when the text starts with a link, label up to the first ']' and url up to the first ')' |
| HtmlMarkdown.CaptionIsTidy | src/editor/html_markdown.rs:14 | a rewritten label is trimmed, single-spaced and keeps every non-whitespace character of the original label in order |
| HtmlMarkdown.RewriteKeepsPlainText | src/editor/html_markdown.rs:13-21 | text without '[' is left untouched by the rewrite, and so is everything before a link |
| HtmlMarkdown.RewriteOfPlainText | src/editor/html_markdown.rs:13-21 | text without '[' is returned unchanged |
| HtmlMarkdown.RewriteLink | src/editor/html_markdown.rs:13-21 | a link at the start is replaced by its replacement and the rest is rewritten after it |
| HtmlMarkdown.AutolinkWhenLabelIsUrl | src/editor/html_markdown.rs:16-17 | a link whose trimmed label equals its trimmed url becomes `<url>` |
| HtmlMarkdown.BracketsWhenLabelDiffers | src/editor/html_markdown.rs:18-19 | any link whose label differs from its url in more than whitespace keeps the `[label](url)` form with the tidied label and trimmed url |
| HtmlMarkdown.MarkdownifyWithoutLinks | src/editor/html_markdown.rs:3-24 | markdown without a '[' only has its line ends trimmed |
| HtmlMarkdown.Markdownify | src/editor/html_markdown.rs:3-24 | no line of the result ends in whitespace, whether links were rewritten or not |
| HtmlMarkdown.RewriteKeepsLineEndsTidy | src/editor/html_markdown.rs:13-21 | rewriting links keeps every line free of trailing whitespace |
| HtmlPretty.FirstColon | src/editor/html_pretty.rs:133 | the position of the first ':' of the text, or its length when there is none |
| HtmlPretty.FormatCssStatement | src/editor/html_pretty.rs:131-138 | a formatted declaration always ends with ';'; without a ':' it is the trimmed text followed by ';' |
| HtmlPretty.FormatCssStatementSplitsAtColon | src/editor/html_pretty.rs:133-134 | with a ':' the declaration is split at its FIRST ':' into key and value, written as "key: value;" |
| HtmlPretty.NormalizeClass | src/editor/html_pretty.rs:38-46 | a `class` value is dropped exactly when it holds no class name |
| HtmlPretty.NormalizeClassTokens | src/editor/html_pretty.rs:39-44 | the written class names are the original ones, sorted: same multiset, ascending |
| HtmlPretty.NormalizeClassIdempotent | src/editor/html_pretty.rs:38-46 | normalising an already normalised class value changes nothing |
| HtmlPretty.SplitWhitespaceJoin | src/editor/html_pretty.rs:39-44 | splitting words joined by single spaces gives the words back |
| HtmlPretty.StyleStatements | src/editor/html_pretty.rs:48-53 | every kept `style` declaration ends with ';' |
| HtmlPretty.NormalizeStyle | src/editor/html_pretty.rs:47-60 | a `style` value is dropped exactly when it has no non-blank declaration |
| HtmlPretty.NormalizeStyleEndsStatement | src/editor/html_pretty.rs:54-59 | a normalised style ends with the ';' of its last declaration |
| HtmlPretty.NormalizeAttr | src/editor/html_pretty.rs:37-62 | an attribute keeps its name; attributes other than `class` and `style` are kept as they are; `class` and `style` are dropped exactly when empty after normalising |
| HtmlPretty.KeptAttrs | src/editor/html_pretty.rs:36-63 | the kept attributes are exactly the normalised ones of the element |
| HtmlPretty.AttrLeIsTotalOrder | src/editor/html_pretty.rs:64 | the order attributes are sorted by is total and antisymmetric |
| HtmlPretty.NormalizeAttrsSorted | src/editor/html_pretty.rs:36-65 | the written attributes are sorted and a permutation of the kept ones |
| HtmlPretty.LineShape | src/editor/html_pretty.rs:29-105 | a blank text writes no line, any other text its trimmed text indented by the depth; every other event writes one line; a start tag is indented by the depth before it, an end tag by the (saturating) depth after it |
| HtmlPretty.StartLine | src/editor/html_pretty.rs:29-69 | a start tag writes the depth's tabs, the tag with normalised attributes, and a newline |
| HtmlPretty.EndLine | src/editor/html_pretty.rs:71-77 | an end tag writes the tabs of the depth decreased with saturation, the tag and a newline |
| HtmlPretty.TextLine | src/editor/html_pretty.rs:79-87 | text writes nothing when blank, else its tabs, the trimmed text and a newline |
| HtmlPretty.OtherLine | src/editor/html_pretty.rs:89-105 | comments, doctypes and processing instructions write one indented line each |
| HtmlPretty.PrettySerializer.Indent | src/editor/html_pretty.rs:20-25 | the loop writes exactly `depth` tabs and leaves the depth alone |
| HtmlPretty.PrettySerializer.Start | src/editor/html_pretty.rs:29-69 | the serializer's state after a start tag is one printer step |
| HtmlPretty.PrettySerializer.End | src/editor/html_pretty.rs:71-77 | the serializer's state after an end tag is one printer step |
| HtmlPretty.PrettySerializer.Text | src/editor/html_pretty.rs:79-87 | the serializer's state after a text is one printer step |
| HtmlPretty.PrettySerializer.Other | src/editor/html_pretty.rs:89-105 | the serializer's state after any other event is one printer step |
| HtmlPretty.PrettySerializer.Serialize | src/editor/html_pretty.rs:124 | driving the serializer over the events leaves the printer run over them |
| HtmlPretty.Reserialize | src/editor/html_pretty.rs:118-128 | the output is the printer run over the document's events from depth 0 |
| HtmlPretty.Prettify | src/editor/html_pretty.rs:108-116 | prettifying is the blank-line post-pass over the lines the document's events write |
| HtmlPretty.PrettifyIsTidy | src/editor/html_pretty.rs:108-116 | no line of the prettified document is empty or ends in whitespace |
| HtmlPretty.ElementLines | src/editor/html_pretty.rs:29-77 | an element writes its start tag at its depth, its children one level deeper, and its end tag back at its depth |
| HtmlPretty.TextLines | src/editor/html_pretty.rs:79-87 | a text node writes its trimmed text at its depth, or nothing when blank |
| HtmlText.TextSerializer.Write | src/editor/html_text.rs:20-47 | one event appends its text and a newline when it is text, and nothing otherwise |
| HtmlText.TextSerializer.Serialize | src/editor/html_text.rs:67 | driving the serializer over the events appends every text node, each followed by a newline, in order |
| HtmlText.TextsAppend | src/editor/html_text.rs:32-34 | the texts of two event streams are the texts of the first followed by those of the second |
| HtmlText.Reserialize | src/editor/html_text.rs:61-71 | the output is the document's text nodes, one per line |
| HtmlText.Textify | src/editor/html_text.rs:49-59 | the result is the document's texts, one per line, each line trimmed, the whole trimmed, with runs of line breaks collapsed (`TextifyText`) |
| HtmlText.NewlineRun | src/editor/html_text.rs:55 | the length of the run of line breaks a text starts with: all breaks, followed by a non-break or the end |
| HtmlText.DropNewlines | src/editor/html_text.rs:55-56 | the text's characters other than line breaks |
| HtmlText.CollapseKeepsText | src/editor/html_text.rs:55-56 | collapsing removes only line breaks: every other character stays, in order |
| HtmlText.CollapseNoTriple | src/editor/html_text.rs:55-56 | after collapsing no three line breaks in a row remain |
| HtmlText.CollapseOfNoTriple | src/editor/html_text.rs:55-56 | a text without three line breaks in a row is left as it is |
| HtmlText.CollapseIdempotent | src/editor/html_text.rs:55-56 | collapsing twice is collapsing once |
| HtmlText.CollapseLongRun | src/editor/html_text.rs:84-87 | any run of three or more line breaks between two texts without breaks becomes exactly two |
| HtmlText.TextifyText | src/editor/html_text.rs:49-59 | the result has no leading or trailing whitespace and no three line breaks in a row |
| Text.Lines | src/editor/html_text.rs:51 | `str::lines` splits at line breaks: no piece holds a line break |
| HtmlText.TextifyLinesAreTrimmed | src/editor/html_text.rs:49-59 | every line of the result is trimmed |
| HtmlText.TextifyOfTexts | src/editor/html_text.rs:73-81 | texts that are not blank and have no line break come out as their trimmed selves, one per line |
| HtmlUrl.AbsoluteAttrs | src/editor/html_url.rs:29-46 | the loop pushing one attribute per attribute builds exactly the rewritten attribute list, in order |
| HtmlUrl.AbsAttrs | src/editor/html_url.rs:29-46 | one rewritten attribute per attribute |
| HtmlUrl.AbsEvents | src/editor/html_url.rs:24-74 | one rewritten event per event |
| HtmlUrl.AbsLinkSerializer.Start | src/editor/html_url.rs:25-53 | a start tag is written with the rewritten attributes |
| HtmlUrl.AbsLinkSerializer.Other | src/editor/html_url.rs:55-73 | every other event is written as the plain serializer writes it |
| HtmlUrl.AbsLinkSerializer.Write | src/editor/html_url.rs:24-74 | one event appends the rendering of its rewritten form |
| HtmlUrl.AbsLinkSerializer.Serialize | src/editor/html_url.rs:86 | driving the serializer over the events appends the rendering of the rewritten events |
| HtmlUrl.Canonicalize | src/editor/html_url.rs:76-90 | the output is the document rendered with every start tag's attributes rewritten |
| HtmlUrl.AbsAttrsPointwise | src/editor/html_url.rs:30-45 | every attribute keeps its name; an `href` or `src` the resolver joins gets the joined URL; any other attribute, or a link the resolver rejects, is kept as it is |
| HtmlUrl.AbsEventsPointwise | src/editor/html_url.rs:24-74 | only start tags are rewritten; every other event passes unchanged |
| HtmlUrl.CanonicalWithoutLinks | src/editor/html_url.rs:76-90 | a document without `href` or `src` is written exactly as the plain serializer writes it |
| HtmlUrl.CanonicalizeIdempotent | src/editor/html_url.rs:76-90 | when joining leaves an absolute URL alone, canonicalizing the canonical events again changes nothing |
| LinePass.PrinterRunIsLines | src/editor/html_pretty.rs:28-106 | the pretty serializer writes, after what it had written, exactly the events' lines each ended by a newline, and its depth follows the nesting of the events |
| LinePass.LinesOfAppend | src/editor/html_pretty.rs:28-106 | the lines of two event runs are those of the first followed by those of the second, started at the depth the first ends at |
| LinePass.DocumentEndsAtDepthZero | src/editor/html_pretty.rs:29-77 | a whole document leaves the pretty serializer back at depth zero |
| LinePass.Tabs | src/editor/html_pretty.rs:20-25 | exactly n tab characters |
| LinePass.DropBlankLinesIsTidy | src/editor/html_pretty.rs:109-114 | no line of the post-pass's result is empty or ends in whitespace |
| LinePass.DropBlankLinesOfTerminated | src/editor/html_pretty.rs:109-114 | lines written one per line come out with their ends trimmed, the empty ones dropped, joined by newlines |
| LinePass.DropBlankLinesOfTidy | src/editor/html_pretty.rs:109-114 | tidy lines pass the post-pass unchanged |
| LinePass.DropBlankLinesIdempotent | src/editor/html_pretty.rs:109-114 | running the post-pass twice is the same as running it once |
| JsonSimpleSelect.Apply | src/editor/json_simple_select.rs:3-32 | the cursor moved part by part gives the parser's error, the first failing step's error, or the selected value written out (`SelectJson`) |
| JsonSimpleSelect.Parts | src/editor/json_simple_select.rs:4-6 | every part is non-empty and holds no '.', '[' or ']' |
| JsonSimpleSelect.PartsOfDotPath | src/editor/json_simple_select.rs:4-6 | writing keys as a dotted path and splitting it again gives the keys back |
| JsonSimpleSelect.SeparatorsOnly | src/editor/json_simple_select.rs:4-6 | a selector made only of separators, such as `.`, has no parts |
| JsonSimpleSelect.PartsOfIndex | src/editor/json_simple_select.rs:4-6 | `.[i]` is one part, the index |
| JsonSimpleSelect.ParseUsize | src/editor/json_simple_select.rs:16-18 | a parsed index is at most the largest 64-bit `usize` |
| JsonSimpleSelect.ParseUsizeOfNat | src/editor/json_simple_select.rs:16-18 | every `usize` written in decimal, with or without a leading '+', parses back to itself |
| JsonSimpleSelect.ParseUsizeOverflow | src/editor/json_simple_select.rs:16-18 | a number too large for `usize` is rejected |
| JsonSimpleSelect.ParseUsizeRejects | src/editor/json_simple_select.rs:16-18 | a text with a character other than a digit, apart from one leading '+', is rejected |
| JsonSimpleSelect.ParseUsizeRejectsEmpty | src/editor/json_simple_select.rs:16-18 | the empty text is rejected |
| JsonSimpleSelect.SelectPathAppend | src/editor/json_simple_select.rs:9-29 | selecting along two part lists is selecting along the first, then along the second from what it selected |
| JsonSimpleSelect.NoPartsSelectWhole | src/editor/json_simple_select.rs:8-9 | without parts the whole value is selected |
| JsonSimpleSelect.ScalarStops | src/editor/json_simple_select.rs:11-14 | null, booleans, numbers and strings cannot be descended into, each with its own error |
| JsonSimpleSelect.ArrayStep | src/editor/json_simple_select.rs:15-22 | in an array the step succeeds exactly for an index in bounds, selecting that element; otherwise the "index an array" or "out of bounds" error |
| JsonSimpleSelect.ObjectStep | src/editor/json_simple_select.rs:23-27 | in an object the step succeeds exactly for an existing key, selecting its value; otherwise the "non existing key" error |
| JsonSimpleSelect.FailureStops | src/editor/json_simple_select.rs:9-29 | a failing step ends the walk with its error; later parts are never looked at |
| JsonSimpleSelect.SelectMember | src/editor/json_simple_select.rs:66-69 | `.k` on an object with that key selects its value |
| JsonSimpleSelect.SelectIndex | src/editor/json_simple_select.rs:71-74 | `.[i]` on a long enough array selects its i-th element |
| Rss.ParseSelectors | src/editor/rss.rs:48-62 | succeeds exactly when the item, title and link selectors all parse, and then returns them (defaults filled in) |
| Rss.DefaultSelectors | src/editor/rss.rs:37-45 | unset selectors are `article`, `h2` and `a` |
| Rss.EditorsValidIff | src/editor/rss.rs:66-68 | the content editors are valid exactly when each of them is |
| Rss.IsValid | src/editor/rss.rs:64-70 | a configuration is valid exactly when its three selectors parse and every content editor is valid |
| Rss.FirstAttr | src/editor/rss.rs:91-93 | a found value is the attribute of one of the elements |
| Rss.Generate | src/editor/rss.rs:72-149 | a selector error, the first failing item, or the written channel of the configured or page title, the page's URL and one item per match (`GenerateSpec`) |
| Rss.CollectItems | src/editor/rss.rs:98-133 | the loop pushing one item per match gives exactly the assembled items, or the first item's error |
| Rss.FeedOfItems | src/editor/rss.rs:78-149 | once the selectors parse, the result is the first item error, else "selected nothing" for no items, else the written channel with the page's URL, generator, title, description and items |
| Rss.ItemsLoopStep | src/editor/rss.rs:99-133 | one turn of the item loop: a failing item is the outcome of the whole loop, otherwise it joins the items so far |
| Rss.ItemsPerMatch | src/editor/rss.rs:99-133 | successful items are one per match, in match order, each assembled on its own |
| Rss.ItemsFailAtFirst | src/editor/rss.rs:108-128 | the items fail with the error of the first failing item |
| Rss.NoItemsIsError | src/editor/rss.rs:134-139 | an item selector that matches nothing is an error naming the selector, never an empty feed |
| Rss.FeedShape | src/editor/rss.rs:81-140 | a built feed links to the page's URL, carries the generator and the configured title when there is one, and holds one item per match, at least one |
| Rss.TitleFromPage | src/editor/rss.rs:85-89 | without a configured title, the page's first `title` element's trimmed inner HTML is the title |
| Rss.LinkSelectorWins | src/editor/rss.rs:107-113 | an `href` found by the link selector overrides the item's own |
| Rss.OwnLinkOtherwise | src/editor/rss.rs:106-109 | without a link match the item's own `href`, joined to the page URL, is its link |
| Rss.ContentIsChained | src/editor/rss.rs:123-130 | an item's content is its outer HTML through the content editors |
| Rss.ItemTitleIsTrimmed | src/editor/rss.rs:102-104 | an item's title has no surrounding whitespace |
| SiteStore.Normalize | src/site_store.rs:38 | the stored text ends with one newline and is trimmed before it |
| SiteStore.NormalizeIdempotent | src/site_store.rs:38 | normalizing stored text again gives the same text |
| SiteStore.KindFor | src/site_store.rs:46-52 | `Init` exactly when the file read as empty, `ContentSame` exactly when it was non-empty and equal to the new text, `Changed` otherwise |
| SiteStore.Classify | src/site_store.rs:41-52 | the final `if` gives `Init` exactly for an empty file, `Changed` exactly for a non-empty file whose content differs, `ContentSame` exactly for a non-empty file that already holds the text |
| SiteStore.Store.WriteOnlyChanged | src/site_store.rs:36-53 | returns the kind for what the file read as (missing or non-UTF-8 reads as empty); afterwards the file holds the normalized text and no other file changes; `ContentSame` leaves the store as it was |
| SiteStore.SecondWriteIsContentSame | src/site_store.rs:36-53 | writing the same page twice: the second write finds its own content |
| SiteStore.StoredPageIsStable | src/site_store.rs:36-53 | storing the normalized page once more changes nothing |
| SiteStore.FreshFileIsInit | src/site_store.rs:40-47 | a missing, unreadable or empty file classifies as `Init` |
| SiteStore.BasenameIsWanted | src/site_store.rs:56-63 | the loop with its early return answers whether some basename followed by '.' starts the name |
| SiteStore.Store.IsKept | src/site_store.rs:22-25 | a directory entry is kept exactly when its name decodes and is wanted |
| SiteStore.Store.RemoveFile | src/site_store.rs:27 | the named file is gone and every other file stays |
| SiteStore.Store.RemoveGone | src/site_store.rs:17-34 | exactly the unwanted files are removed and listed, each once, in sorted order; wanted files stay unchanged |
| SiteStore.SortNames | src/site_store.rs:32 | sorting different names gives them in ascending order, each once |
| SiteStore.BasenameKeepsItsFiles | src/site_store.rs:56-63 | every expected basename keeps the files named after it, whatever their extension |
| SiteStore.NameWithoutDotIsUnwanted | src/site_store.rs:56-63 | a name without a '.' is never wanted |
| SiteStore.NothingExpectedRemovesAll | src/site_store.rs:17-34 | with no expected basenames every file is removed |
| Filename.Basename | src/filename.rs:4-26 | the name has only ASCII letters, digits and inner single '-', and keeps every letter and digit of host, port, path and query in order |
| Filename.SchemeAndFragmentIgnored | src/filename.rs:50-61 | scheme and fragment do not change the name |
| Filename.WwwIgnored | src/filename.rs:81-84 | a leading "www." of the domain does not change the name |
| Filename.LabelsReversed | src/filename.rs:10-15 | the domain's labels come out in reverse order, joined by '-' |
| Filename.TrailingSlashIgnored | src/filename.rs:63-70 | a slash at the end of the path does not change the name |
| UrlFilename.Format | src/site/url_filename.rs:4-19 | the name ends with '.' and the extension, and its stem has only ASCII letters, digits and inner single '-' |
| UrlFilename.SchemeAndFragmentIgnored | src/site/url_filename.rs:39-52 | scheme and fragment do not change the name |
| UrlFilename.WwwIgnored | src/site/url_filename.rs:80-86 | a leading "www." of the domain does not change the name |
| UrlFilename.ExtensionNotDuplicated | src/site/url_filename.rs:67-73 | the extension at the end of the path is not repeated in the name |
| UrlFilename.DottedExtensionDropped | src/site/url_filename.rs:67-73 | a path ending in '.' and the extension is named like the path without them |
| UrlFilename.TrailingSlashIgnored | src/site/url_filename.rs:54-65 | a slash at the end of the path does not change the name |
| General.FormatUrlAsFilename | src/site/general.rs:14-19 | the name ends with '.' and the extension, its stem has only ASCII letters, digits and inner single '-', and keeps every letter and digit of the URL in order |
| Site.GetFilename | src/site.rs:26-28 | the file name ends with '.' and the site's own extension |
| Site.GetAllFilenames | src/site.rs:34-36 | one file name per site, in order |
| Site.ValidateNoDuplicate | src/site.rs:38-49 | sorting, counting and deduplicating accepts exactly when no two sites share a file name; otherwise the "duplicates" error |
| Site.SharedNameRejected | src/site.rs:38-49 | two sites with the same file name make the check fail |
| Site.TrailingSlashSameFile | src/site.rs:67-97 | two sites at "/post/" and "/post" with the same extension share a file |
| Site.TrailingSlashSitesCollide | src/site.rs:67-97 | so any site list holding both, at any two positions, is rejected as having duplicates |
| Site.OptionsIsValid | src/site.rs:53-64 | the short-ASCII extension check, then the first invalid editor's error, else success (`OptionsCheck`) |
| Site.IsValid | src/site.rs:30-32 | a site is valid exactly when its options are |
| Site.FirstEditorErrorIff | src/site.rs:60-62 | the editors pass exactly when each is valid, and a failure is the error of one of them |
| Site.OptionsCheckIff | src/site.rs:53-64 | options are valid exactly when the extension is non-empty ASCII of at most 12 characters and every editor is valid |
| SiteVariants.GetFilename | src/site/mod.rs:22-27 | an HTML site is stored as ".html" and a text site as ".txt" of its URL's name |
| SiteVariants.Filenames | src/site/mod.rs:51 | one file name per site, in order |
| SiteVariants.ValidateNoDuplicate | src/site/mod.rs:49-60 | accepts exactly when no two sites share a file name; otherwise the "duplicates" error |
| SiteVariants.TrailingSlashSameFile | src/site/mod.rs:70-87 | two HTML sites whose paths differ only by a final slash share a file |
| SiteVariants.TrailingSlashSitesCollide | src/site/mod.rs:70-87 | so any site list holding both HTML sites, at any two positions, is rejected as having duplicates |
| SiteVariants.SharedNameRejected | src/site/mod.rs:49-60 | two sites with the same file name make the check fail |
| SiteVariants.VariantsNeverCollide | src/site/mod.rs:22-27 | an HTML page and a text are never the same file |
| SiteCssSelector.PlainOf | src/site/html/css_selector.rs:11 | the compiled text is trimmed and no longer than the selector |
| SiteCssSelector.Parse | src/site/html/css_selector.rs:9-21 | succeeds exactly when the plain text compiles; removal exactly when the selector starts with '!'; an error names the selector and the engine's message |
| SiteCssSelector.Deserialize | src/site/html/css_selector.rs:61-87 | succeeds exactly when parsing does, with the same selector; an error is the "expected a CSS selector" message |
| SiteCssSelector.PlainOfMarked | src/site/html/css_selector.rs:10-11 | the removal mark does not reach the plain text |
| SiteCssSelector.ParseSerialized | src/site/html/css_selector.rs:48-59 | a selector whose plain text compiles and has no leading '!' serializes to a text that parses back to it |
| SiteCssSelector.SerializeParses | src/site/html/css_selector.rs:48-59 | a parsed selector serializes to a text that parses back to it, unless its plain text itself begins with '!' |
| SiteCssSelector.DisplayParsesAsSelection | src/site/html/css_selector.rs:89-93 | the displayed text parses to the same selector in keeping mode |
| SiteCssSelector.Apply | src/site/html/css_selector.rs:23-45 | the "selected nothing" error exactly when keeping and nothing matched; removal with no match gives the root element unchanged; keeping one match gives its outer HTML |
| SiteCssSelector.RemoveAsWritten | src/site/html/css_selector.rs:30-35 | the removal loop deletes every match's outer HTML as text from the root element's outer HTML |
| SiteCssSelector.TextRemovalShortens | src/site/html/css_selector.rs:32-34 | deleting text never lengthens the page |
| SiteCssSelector.NothingSelectedKeepsPage | src/site/html/css_selector.rs:30-35 | without matches both the textual and the tree removal give the root element unchanged |
| SiteCssSelector.TwinsDeleted | src/site/html/css_selector.rs:33 | deleting one of two identical children as text deletes both |
| SiteCssSelector.LookAlikeAlsoRemoved | src/site/html/css_selector.rs:30-35 | with `<a><b></b><b></b></a>` and only the first `b` matched, the code as written leaves `<a></a>`, while detaching the match leaves `<a><b></b></a>` |
| SitePrettify.PrettySerializer.Indent | src/site/html/prettify.rs:20-25 | the loop writes exactly `depth` tabs and leaves the depth alone |
| SitePrettify.PrettySerializer.Start | src/site/html/prettify.rs:29-38 | the state after a start tag is one printer step: indent, one level deeper, the tag, a newline |
| SitePrettify.PrettySerializer.End | src/site/html/prettify.rs:40-46 | the state after an end tag is one printer step: one level up (not below zero), indent, the tag, a newline |
| SitePrettify.PrettySerializer.Leaf | src/site/html/prettify.rs:48-70 | text, comments, doctypes and processing instructions: one printer step each |
| SitePrettify.PrettySerializer.Serialize | src/site/html/prettify.rs:90 | driving the serializer over the events leaves the printer run over them |
| SitePrettify.Serialize | src/site/html/prettify.rs:84-94 | the output is the printer run over the document's events from depth 0 |
| SitePrettify.Prettify | src/site/html/prettify.rs:73-82 | prettifying is the blank-line post-pass over the lines the document's events write |
| SitePrettify.PrettifyDoc | src/site/html/prettify.rs:73-82 | serializing then the line post-pass is prettifying, and prettifying is the post-pass over the events' lines |
| SitePrettify.PrettifyIsTidy | src/site/html/prettify.rs:73-82 | no line of the result is empty or ends in whitespace |
| SitePrettify.SerializeEndsAtDepthZero | src/site/html/prettify.rs:34-41 | a whole document leaves the serializer at depth zero |
| SitePrettify.LinePerEvent | src/site/html/prettify.rs:28-71 | one line per event, in order: the event as the plain serializer writes it, after as many tabs as elements are open around it |
| SitePrettify.ElementLines | src/site/html/prettify.rs:29-46 | an element writes its start tag at its depth, its children one level deeper, and its end tag aligned with its start tag |
| SitePrettify.TextLines | src/site/html/prettify.rs:48-52 | a text node writes its text, untrimmed, at its depth |
| Sorting.Reverse | src/editor/css_sort.rs:43-45 | the reversed list has the same length, and its element at `i` is the input's element at `len - 1 - i` |
| Sorting.ReverseReverse | src/editor/css_sort.rs:43-45 | reversing twice gives the list back |
| Sorting.Sort | src/commit_message.rs:7 | the sorted list is a permutation of the input |
| Sorting.SortSorted | src/commit_message.rs:7 | under a total preorder the sorted list is ordered |
| Sorting.SortedUnique | src/commit_message.rs:7 | under a total order only one ordered arrangement of a multiset exists, so an unstable sort gives the same list as a stable one |
| Sorting.SortStable | src/editor/css_sort.rs:28-41 | elements that compare equal keep their relative input order |
| Sorting.Dedup | src/commit_message.rs:8 | `dedup` keeps the first element and every member, never leaves two equal neighbours, and does not lengthen the list |
| Sorting.DedupKeepsAll | src/site.rs:44 | `dedup` removes nothing exactly when no two neighbours are equal |
| Sorting.SortedDedupDistinct | src/commit_message.rs:6-8 | after sorting under a total order, `dedup` leaves no duplicate anywhere in the list |
| Sorting.SortDedupDetectsDuplicates | src/site.rs:38-50 | sorting and then deduplicating shortens the list exactly when the list holds a duplicate |
| Sorting.SortedDistinctUnique | src/commit_message.rs:6-8 | an ordered list without duplicates is determined by its members |
| Sorting.DedupSingle | src/commit_message.rs:14-18 | `dedup` leaves exactly `[x]` when the list is non-empty and every element is `x` |
| Sorting.SortDedupStrings | src/commit_message.rs:6-8 | sort then dedup on strings: ordered, free of duplicates, with exactly the input's members |
| CommitMessage.Sites | src/commit_message.rs:6-8 | the changed URLs, ordered, with exactly the input's members |
| CommitMessage.HostsOf | src/commit_message.rs:10-13 | at most one host per site, and exactly the hosts of the sites that have one |
| CommitMessage.Message | src/commit_message.rs:5-25 | the loop builds the header followed by one `- <url>` line per deduplicated site, in order |
| CommitMessage.NoChangeIsBackground | src/commit_message.rs:27-33 | no changed URL gives the "just background magic" message |
| CommitMessage.SingleHostHeader | src/commit_message.rs:16-20 | the header names a single host `h` exactly when some changed URL has a host and every URL with a host has `h` |
| CommitMessage.OnlyHostListed | src/commit_message.rs:10-18 | when the listed hosts are all `h`, some changed URL has a host and every one with a host has `h` |
| CommitMessage.HeaderAsIfFullyDeduplicated | src/commit_message.rs:10-20 | deduplicating only neighbouring hosts chooses the same header as sorting and deduplicating them all, since the sites are sorted |
| CommitMessage.LineOfEverySite | src/commit_message.rs:21-23 | the `- <site>` line of every site occurs in the body |
| CommitMessage.EveryChangeListed | src/commit_message.rs:21-23 | every changed URL appears in the message on a `- <url>` line |
| CommitMessage.OneSite | src/commit_message.rs:35-45 | one changed site gives its host as header and one line |
| CommitMessage.TwoSitesSameHost | src/commit_message.rs:47-61 | two sites of one host give that host as header and two lines |
| CommitMessage.TwoSitesOtherHosts | src/commit_message.rs:63-77 | two sites of different hosts give the "stalked 2 website changes" header |
| FinalMessage.New | src/final_message.rs:46-67 | hosts and sites are sorted, free of duplicates, and hold exactly the hosts and the serializations of the changed URLs; `domains` mirrors `hosts` |
| FinalMessage.NewIsDetermined | src/final_message.rs:46-67 | the message is the only one with sorted, duplicate-free lists of those hosts and sites |
| FinalMessage.ToCommit | src/final_message.rs:69-79 | the commit text is the header for the hosts followed by one line per site |
| FinalMessage.ToCommitIsCommitMessage | src/final_message.rs:69-79 | for coherent URLs the commit text equals the one `commit_message` builds from the same changes |
| FinalMessage.IntoMustacheData | src/final_message.rs:81-95 | the single host is set exactly when there is one host, it is that host, the deprecated field mirrors it and the amount is the number of sites |
| FinalMessage.SingleHostOfNew | src/final_message.rs:81-95 | the template sees a single host `h` exactly when some changed URL has a host and all of them have `h` |
| FinalMessage.IntoNotification | src/final_message.rs:97-106 | the rendering of the given or default template fails exactly when the renderer fails, with its error; otherwise the result is the trimmed rendering, empty exactly when it was all whitespace |
| FinalMessage.ValidateRenders | src/final_message.rs:126-144 | the first failed rendering is reported; when all render, an empty text gives the empty-notification error; otherwise the template is accepted |
| FinalMessage.ValidateOn | src/final_message.rs:126-144 | a template is accepted exactly when every example message renders to non-empty text with and without a commit |
| FinalMessage.RendersOfNotBlank | src/final_message.rs:126-144 | all renderings of the examples, with the commit and without, are non-empty texts exactly when every example notifies |
| FinalMessage.ValidateTemplate | src/final_message.rs:126-144 | a template is accepted exactly when each of the three sample messages renders to a non-empty text, with the commit "666" and without one |
| FinalMessage.SitesAreNewSites | src/final_message.rs:46-67 | for coherent URLs the sites of the older commit message serialize to the sites of the new message, in order |
| FinalMessage.SitesDistinct | src/commit_message.rs:7-8 | for coherent URLs the sorted, deduplicated sites hold no URL twice |
| FinalMessage.SameHosts | src/final_message.rs:46-67 | sorting and deduplicating the older message's hosts gives the new message's hosts |
| Notification.New | src/notification.rs:43-71 | sites ordered with exactly the changed URLs as members; hosts are exactly their hosts; the single host is set exactly when there is one host; deprecated fields mirror the new ones |
| Notification.SingleHostOfNew | src/notification.rs:55-59 | the single host is `h` exactly when some changed URL has a host and all of them have `h` |
| Notification.AgreesWithFinalMessage | src/notification.rs:43-71 | for coherent URLs the older data has the same sites, amount and single host as the newer message |
| Notification.ApplyToTemplate | src/notification.rs:73-79 | fails exactly when rendering fails, with its error; otherwise the trimmed rendering, empty exactly when it was all whitespace |
| Notification.ValidateWith | src/notification.rs:109-163 | a template is accepted exactly when both deprecation probes render and every example renders to non-empty text with and without a commit; a failing probe's error is returned |
| Notification.ValidateTemplate | src/notification.rs:109-163 | a template is accepted exactly when both deprecation probes render and each of the three sample changes renders to a non-empty text, with the commit "666" and without one |
| Summary.New | src/summary.rs:21-46 | sites ordered with exactly the changed URLs as members, hosts exactly their hosts, amount the number of sites, single host set exactly when there is one host |
| Summary.SingleHostOfSummary | src/summary.rs:33-37 | the summary's single host is `h` exactly when some changed URL has a host and all of them have `h` |
| Http.ValidateFrom | src/http.rs:84-94 | accepted exactly when every character is visible ASCII and there is an '@' and a '.'; each failure gives the message of its stage |
| Http.PlainAddressAccepted | src/http.rs:96-99 | `foo@bar.de` is accepted |
| Http.DomainAloneRejected | src/http.rs:101-105 | `bla.de` is not an email address |
| Http.UmlautRejected | src/http.rs:107-111 | `föo@bär.de` is rejected for its non-ASCII characters |
| Http.IpVersionOf | src/http.rs:68-72 | the version is `None` without a remote address and otherwise the address family |
| Http.Display | src/http.rs:34-38 | the variant's name: four characters, "IPv" and the family's digit for an address, "None" without one |
| Http.DisplayTellsFamily | src/http.rs:34-38 | two displayed versions are equal exactly when both or neither have an address and the families agree |
| Settings.Validate | src/settings.rs:32-42 | accepted exactly when the address has an '@' and a '.', otherwise the "doesnt look like an email address" error |
| Settings.Load | src/settings.rs:18-30 | the parsed settings are returned exactly when they parsed and are valid; a parse error is passed on |
| Settings.AgreesWithHttpOnAscii | src/settings.rs:32-42 | on ASCII addresses the older check and `validate_from` accept the same addresses |
| Settings.AcceptsWhatHttpRefuses | src/settings.rs:32-42 | `föo@bär.de` passes the older check but not the one of the HTTP client |
| Config.IsEmpty | src/config.rs:30-36 | an entry is empty exactly when it lists no URL; a single URL never is |
| Config.SitesOf | src/config.rs:62-81 | one site per URL, in order, each with the entry's options |
| Config.GetSites | src/config.rs:62-81 | the loop yields the sites of all entries, entry after entry |
| Config.AllSitesAppend | src/config.rs:62-81 | the sites of two lists of entries are the sites of the first followed by those of the second |
| Config.SiteCountIsUrlCount | src/config.rs:62-81 | there are as many sites as URLs in the entries |
| Config.EntryPlaced | src/config.rs:62-81 | the `k`-th URL of entry `e` becomes the site after the sites of the earlier entries and its `k` predecessors, with the entry's options |
| Config.EntrySize | src/config.rs:62-81 | a single URL adds one site and a list one site per URL |
| Config.ValidateSites | src/config.rs:123-132 | valid exactly when there is an entry, none is empty and no two sites share a file name; each failure has its message |
| Config.Validate | src/config.rs:83-121 | valid exactly when `from` passes the HTTP check and the sites are valid; a bad `from` gives its error first |
| Config.Load | src/config.rs:50-60 | a parse error is passed on; the command-line `from` replaces the file's; the config is returned exactly when it is then valid |
| Stalker.Filter | src/main.rs:97-100 | keeps, in order, exactly the elements that satisfy the predicate, each as often as in the input |
| Stalker.Selected | src/main.rs:97-100 | without a filter every site; with one, exactly the sites whose URL it matches |
| Stalker.CleanupOnlyWithAllSites | src/main.rs:128-135 | the cleanup of superfluous files runs exactly when the filter keeps every site |
| Stalker.RepoCheck | src/main.rs:108-126 | with `--commit` a missing or unclean repository stops the run with its message; otherwise it is only a warning; a clean repository gives none |
| Stalker.GroupByHost | src/main.rs:141-145 | there is one group per host of the selected sites, holding that host's sites in configuration order |
| Stalker.GroupsPartition | src/main.rs:141-145 | every site is in the group of its host as often as it is configured, and in no other |
| Stalker.FewerGroupsIffSharedHost | src/main.rs:147-151 | there are never more hosts than sites, and fewer exactly when two sites share a host |
| Stalker.Prepare | src/main.rs:95-145 | a filter that keeps nothing or a failed repository check stops the run with its message; otherwise the plan holds the selected sites, the cleanup decision and their groups by host |
| Stalker.RunGroup | src/main.rs:159-167 | a host's task yields the schedule of its group |
| Stalker.ScheduleFetchesGroup | src/main.rs:159-167 | a host's task fetches each of its sites once, in configuration order |
| Stalker.ScheduleWaits | src/main.rs:159-162 | a host's task waits five seconds once fewer times than it has sites |
| Stalker.FirstRequestAtOnce | src/main.rs:159-162 | the first site of a host is fetched without waiting |
| Stalker.WithFrom | src/main.rs:241-244 | the `from` header is added unless the site sets it; every other header stays as configured |
| Stalker.OwnFromKept | src/main.rs:241-244 | a site's own `from` header leaves the headers unchanged |
| Stalker.FileName | src/main.rs:266-270 | the file name ends with the editors' extension, or `txt` when they leave none |
| Stalker.NoExtensionIsTxt | src/main.rs:266 | content without an extension is stored as a `.txt` file |
| Stalker.StalkAndSave | src/main.rs:237-273 | a failing fetch or editor leaves the store as it was and returns the error; otherwise the file of the configured URL holds the normalized text and the kind of change and IP version are returned |
| Stalker.Collect | src/main.rs:173-201 | counts every report, keeps the URLs of new or changed content in order, and fails exactly when some report failed without ignoring errors |
| Stalker.InterestingMembers | src/main.rs:184-189 | a URL is kept exactly when a report of it had new or changed content |
| Stalker.InterestingNonEmpty | src/main.rs:218 | some URL is kept exactly when some report had new or changed content |
| Stalker.Finish | src/main.rs:203-234 | a commit is made exactly when the repository was modified and `--commit` was given, with the commit message of the kept URLs; a notification is sent exactly when there are notifiers and a kept URL; the run fails exactly when some report failed without ignoring errors |
| Stalker.QuietRun | src/main.rs:191-234 | ignored errors never fail the run, and a run where no content changed sends no notification |

## Left out

- HTML parsing, CSS selector matching, html2md, ammonia, serde_json's parser and pretty printer, the regex engines, URL parsing and joining, mustache compiling and rendering, the rss crate's writer and validation, and chrono's date conversion are foreign libraries. Each is a function-valued parameter (`Editors.Libs`, `Rss.Page`, `Notification.Renderer`, `FinalMessage.Renderer`), or its result is an input: a parsed `Dom.Doc`, a list of matched node ids, or a `Url` record.
- `src/editor/json_prettify.rs`, `src/editor/html_sanitize.rs`, `src/editor/regex_replacer.rs` and `src/regex_replacer.rs` are thin wrappers over libraries. The editor chain calls them through `Editors.Libs`, and their own code is not modelled.
- The HTTP request in `src/http.rs` (`get`, redirects, timings, response text decoding), `src/git.rs`, `src/editor/debug_files.rs` and the `hunt` fetch wrappers of `src/site/html.rs` and `src/site/utf8.rs` perform I/O. A fetch is a function-valued parameter of `Stalker.StalkAndSave`. The repository state and the commit id are inputs of `Stalker.Prepare` and `Stalker.Finish`.
- The file system is a map from file names to contents (`SiteStore.Store.files`). I/O errors other than a missing or non-UTF-8 file are not modelled, and neither is the directory layout.
- `run` in `src/main.rs` spawns one task per host, connects them by a channel and sleeps between requests. The model has no composed `run`. It has the steps in order: `Stalker.Prepare`, `Stalker.RunGroup` with its schedule of fetches and waits, `Stalker.StalkAndSave`, `Stalker.Collect` over the reports in whatever order they arrive, and `Stalker.Finish`. Interleaving and real time are not modelled.
- `Stalker.Prepare` does not model the path list `run` passes to `remove_gone`. It only decides whether the cleanup runs; `SiteStore.Store.RemoveGone` models the cleanup itself.
- Logging, printed progress lines, the redirect warning, the "configuration contains n sites" and "same host" info lines, and the deprecated-field warnings of `validate_template` are not modelled. Only their conditions appear: `Stalker.FewerGroupsIffSharedHost`, and the probes of `Notification.ValidateWith`, which must render but whose output is not inspected.
- The command line (`src/cli.rs`), the `check`, `init` and `example-config` commands, serde/schemars deserialisation, and reading the configuration file and the environment (`src/settings.rs` `load`, `Config::load`'s file access) are left out. `Config.Load` and `Settings.Load` receive the parsed value.
- `Config.Validate` does not model the `anyhow` context chain. An error carries the innermost message, prefixed only where the code formats one itself.
- `src/site.rs` calls `filename::format`, but that file is not part of this model. `Site.GetFilename` uses `format` of `src/site/url_filename.rs`, which has the same signature: a URL and an extension, with the domain required.
- Config.ValidateSites, Config.Validate, Config.Load, Site.GetFilename, Site.ValidateNoDuplicate, SiteVariants.GetFilename, Stalker.FileName and Stalker.StalkAndSave require every site URL to have a domain. The code unwraps the domain and panics otherwise, and a panic is not modelled.
- Stalker.GroupByHost and Stalker.Prepare require every selected site to have a host, because `run` unwraps `host_str` and panics otherwise.
- FinalMessage.ToCommitIsCommitMessage, FinalMessage.SitesAreNewSites, FinalMessage.SitesDistinct and Notification.AgreesWithFinalMessage assume coherent URLs, i.e. no two different `Url` records with the same serialization. The url crate parses every field from the serialization, so such records cannot arise there.
- CommitMessage.Sites, CommitMessage.HostsOf, Summary.New and Notification.New remove duplicate URLs by comparing whole `Url` records, where the code compares `Url` values, which the url crate compares by their serialization. The two agree for coherent URLs.
- Sorting.Sort is a stable insertion sort. For `sort_unstable` this is faithful only up to the order of elements that compare equal. `Sorting.SortedUnique` shows the results agree for total orders, as used on URLs and strings. `CssSort` relies on the stability that `sort_by_cached_key` guarantees.
- Dom.NodeEvents walks the tree with a `fuel` bound so that termination does not depend on the tree being acyclic. Documents deeper than the fuel would be cut off. The serializers pass the arena size plus one, which is enough for every tree in the arena.
- Dom's renderer does not escape text or attribute values, and it keeps attribute names without namespace or prefix. Like html5ever, it writes no end tag for void elements.
- HtmlPretty.AttrLe orders attributes by local name, then value. The code sorts by the whole qualified name (prefix, namespace, local name), then value. The two agree on HTML attributes, which have no prefix and no namespace.
- CssFlatten.FlattenAllParents states, for any number of matches, each node's parent, value and the tree's consistency, but not the order of siblings. The order is stated for one step (`CssFlatten.FlattenOneReverses`, `CssFlatten.FlattenOneKeepsOrder`) and for one match nested in another (`CssFlatten.FlattenNested`).
- Text.IsWhitespace lists Unicode's White_Space characters as Rust's `char::is_whitespace` does. The `\d` of the file-name regexes is taken as ASCII digits, since URL serializations are ASCII.
- Integers are unbounded. The `usize` counters of `run` and `siteamount` cannot overflow in practice. `JsonSimpleSelect` models the `usize` limit of index parsing explicitly.
- Concrete HTML samples from the unit tests of the serializers (for example the `textify` and `prettify` example documents) are not restated on literal strings. Lemmas state the same layout for every element and text node instead: `HtmlPretty.ElementLines`, `SitePrettify.ElementLines`, `HtmlText.TextifyOfTexts`.
- The rejection of the selector "." in `src/site/html/css_selector.rs` comes from the selector parser. That parser is the `compile` parameter of `SiteCssSelector.Parse`, so the rejection is not derived.

## Findings

| source | as written | input that shows it | evidently intended | confidence | as-written member | corrected member |
|---|---|---|---|---|---|---|
| src/editor/css_flatten.rs:21-26 | every child is moved with `insert_id_after` on the wrapper, so each child lands directly after the wrapper, in front of the children moved before it | a selected wrapper with children x, y under parent p: afterwards p's children read y, x | the children take the wrapper's place in their own order, x, y | medium, not executed | CssFlatten.FlattenSwapsTwoChildren | CssFlatten.FlattenOneKeepsOrder |
| src/site/html/css_selector.rs:30-35 | removal deletes every textual occurrence of a match's outer HTML from the page's HTML | `<a><b></b><b></b></a>` with only the first `b` matched: the result is `<a></a>` | only the matched element is removed, leaving `<a><b></b></a>`, as the detaching editor `css_remove` does | medium, not executed | SiteCssSelector.LookAlikeAlsoRemoved | SiteCssSelector.Apply |
