# BetterDOMDocument: selector compiler, namespace table and snapshot lists

BetterDOMDocument is a thin PHP wrapper around libxml's `DOMDocument`. It has two
generations: the single-file `BetterDOMDocument` class and the namespaced `DOMDoc` and
`DOMList` classes. This project models the three pieces of the wrapper that do not need a
document tree, and proves properties of them.

- **The CSS-selector compiler.** `transformCSS` and `transformCSSTokenize` turn a CSS selector
  into an XPath 1.0 query:
  - `>` between spaces is collapsed, and the selector is split on whitespace.
  - Each segment is rewritten by a fixed chain of textual steps. The steps cover the child
    combinator, `#id`, `[a="v"]`, `[a~="v"]`, `[a*="v"]`, `.class` and the `**` clean-up.
  - The segment tokens are stitched into one or more `//`-rooted alternatives joined with `|`.
  - A segment after the first whose token opens with `[contains(` (a class, `~=` or `*=` test)
    doubles the alternatives.

  Two rewrites that `query` applies to every XPath belong with the compiler:
  - the `.` class extension, where `div.a.b` becomes
    `div[contains(@class, 'a') or contains(@class, 'b')]`;
  - the namespace-prefix repair of a context node's path.
- **The namespace table.** The ordered prefix → URI array of a document is modelled with its
  operations:
  - `registerNamespace`, `getNamespaces`, `lookupPrefix` and `lookupURL`;
  - the table part of `removeNamespace`;
  - the automatic registration from the document element's namespace nodes and attributes;
  - the prefix merge of `createContext`.

  `setErrorChecking` and `xpathSingle` sit in the same `DOMDoc` class.
- **The snapshot result list.** `DOMList` and its twin `BetterDOMNodeList` copy a query result
  into an array once. They then iterate with a position cursor.

Modules:

- `Text` (text.dfy) holds the PHP string helpers the other modules share: `explode`, `implode`,
  `trim`, `empty()` on strings, and the `[a-z0-9_-]` word characters.
- `CssTokenizer` (css_tokenizer.dfy) models `transformCSSTokenize`. Each regular-expression
  step is a scanning function with the step's own match rule: case-insensitive letters, the
  look-behind before `[@id=`, and the non-empty quoted value.
- `CssCompiler` (css_compiler.dfy) models `transformCSS`:
  - whitespace handling;
  - the stitching of alternatives, as a specification function and as the imperative loop
    `CompileSelector`;
  - the comma branch.
- `XPathQuery` (xpath_query.dfy) models the string building in `query` and `select`. `QueryStringAsWritten` and `SelectQueryAsWritten` build the strings as the source does. `QueryString` and `SelectQuery` build them with both findings below corrected, and the lemmas about selecting use the corrected forms.
- `Namespaces` (namespaces.dfy) models the prefix table as a sequence of pairs, plus the two
  auto-registration passes as folds.
- `DomDoc` (dom_doc.dfy) models the `Document` class, whose methods update the table, the
  default namespace and the error-checking level in place.
- `DomList` (dom_list.dfy) models the `DOMList` class.

`BetterDOMDocument::registerNamespace`, `getNamespaces` and `lookupPrefix`
(BetterDOMDocument.php:109-128) are the same code as the `DOMDoc` methods. Likewise
`BetterDOMNodeList` (BetterDOMDocument.php:811-872) is the same code as `DOMList`, and
`querySingle` (BetterDOMDocument.php:235-244) is the same code as `xpathSingle`. The model
covers each of them once.

## Model

| member | source | states |
|---|---|---|
| Text.ImplodeExplode | BetterDOMDocument.php:710-721 | imploding the pieces of `explode` with the same one-character separator gives back the original string |
| Text.ExplodeImplode | BetterDOMDocument.php:207-208 | exploding an imploded list whose pieces avoid the separator gives back the list |
| Text.TrimSpec | BetterDOMDocument.php:713 | `trim` removes exactly the leading and trailing run of PHP's trim characters and keeps the middle as a contiguous slice |
| Text.TrimTrimmed | BetterDOMDocument.php:713 | a string without trim characters at its ends is returned unchanged by `trim` |
| CssTokenizer.ChildToSlash | BetterDOMDocument.php:760 | every `>` becomes `/`, every other character is kept, the length is kept, and no `>` is left |
| CssTokenizer.NameLengthSpec | BetterDOMDocument.php:763 | the name after `#` or `.` is the longest match of `[a-z][a-z0-9_-]*`, compared case-insensitively |
| CssTokenizer.SigilStepName | BetterDOMDocument.php:763 | `#name` and `.name` followed by a non-word character are replaced by the ID predicate and the class predicate respectively, and scanning continues after the name |
| CssTokenizer.SigilStepBare | BetterDOMDocument.php:763 | a `#` or `.` not followed by a letter is left as it is |
| CssTokenizer.SigilStepPlain | BetterDOMDocument.php:763 | text without the sigil passes through the ID step and the class step unchanged |
| CssTokenizer.StarStepIdOpen | BetterDOMDocument.php:764 | `*` is inserted before `[@id=` exactly when the preceding character is not in `[a-z0-9_-]` or there is none |
| CssTokenizer.StarStepPlain | BetterDOMDocument.php:764 | text without `[@id=` is copied and only updates the look-behind state |
| CssTokenizer.AttrAtSound | BetterDOMDocument.php:767-791 | a match of an attribute pattern consists of a word name, the operator, a non-empty quote-free value between quote characters, and `]` |
| CssTokenizer.AttrAtSource | BetterDOMDocument.php:767-791 | every text of that shape is matched, with its full length |
| CssTokenizer.AttrStepSource | BetterDOMDocument.php:767-791 | a matched `[a="v"]`, `[a~="v"]` or `[a*="v"]` becomes its predicate with the name lower-cased, and the rest is rewritten after it |
| CssTokenizer.AttrStepEmptyValue | BetterDOMDocument.php:767-791 | an attribute test with an empty quoted value is left unchanged |
| CssTokenizer.AttrStepPlain | BetterDOMDocument.php:767-791 | text without `[` passes through the attribute steps unchanged |
| CssTokenizer.CollapseStarRun | BetterDOMDocument.php:801 | a run of k asterisks becomes ⌈k/2⌉ asterisks, as one left-to-right non-overlapping pass of `**` → `*` does |
| CssTokenizer.TokenizeNoChildMarker | BetterDOMDocument.php:758-804 | the tokenizer's output never contains `>` |
| CssTokenizer.TokenizePlain | BetterDOMDocument.php:758-804 | a segment without `#`, `.`, `[` or `*` only has its `>` turned into `/` |
| CssTokenizer.TokenizeClass | BetterDOMDocument.php:794-798 | `tag.name` becomes the tag followed by the space-padded whole-word class predicate |
| CssTokenizer.ClassesStep | BetterDOMDocument.php:794-798 | the class rule turns `.a.b…` into one whole-word class predicate per name, in order |
| CssTokenizer.TokenizeClasses | BetterDOMDocument.php:794-798 | `tag.a.b…` becomes the tag followed by one class predicate per name, so the element must carry every class |
| CssTokenizer.TokenizeId | BetterDOMDocument.php:763-764 | `tag#name` becomes the tag, a `*` when the tag does not end in a word character, then `[@id='name']` |
| CssTokenizer.TokenizeAttr | BetterDOMDocument.php:767-791 | `tag[a="v"]`, `tag[a~="v"]` and `tag[a*="v"]` become the tag followed by the matching predicate |
| CssCompiler.CollapseChildGt | BetterDOMDocument.php:725 | `>` with whitespace on both sides collapses to a bare `>` |
| CssCompiler.CollapseChildSpace | BetterDOMDocument.php:725 | whitespace that is not followed by `>` is kept |
| CssCompiler.SplitSpaceImplode | BetterDOMDocument.php:726 | splitting space-joined non-empty words on whitespace gives back the words |
| CssCompiler.SplitSpaceNoSpace | BetterDOMDocument.php:726 | no segment of the split contains whitespace |
| CssCompiler.TokensAt | BetterDOMDocument.php:727-728 | token i is the tokenizer applied to segment i |
| CssCompiler.CompileSelector | BetterDOMDocument.php:724-755 | the segment loop, which grows the list of alternatives in place, yields the compiled selector |
| CssCompiler.AddSegment | BetterDOMDocument.php:727-749 | the first segment gives the first path; a later segment extends every alternative |
| CssCompiler.Fanout | BetterDOMDocument.php:738-743 | a token that opens with `[contains(` (a class, `~=` or `*=` test) turns each alternative p into p + `//*` + token, with the leading asterisks of the token trimmed, and appends p + token after all the originals in the same order |
| CssCompiler.Descend | BetterDOMDocument.php:745-748 | any other token appends `//` + token to every alternative |
| CssCompiler.FirstPathStar | BetterDOMDocument.php:729-731 | a first token that opens with `[contains(` (a class, `~=` or `*=` test) gets a `*`, giving `//*` + token |
| CssCompiler.StitchStartsWith | BetterDOMDocument.php:724-749 | every alternative starts with `//` |
| CssCompiler.StitchCount | BetterDOMDocument.php:738-743 | k fan-out segments after the first give 2^k alternatives |
| CssCompiler.StitchPlain | BetterDOMDocument.php:745-755 | without fan-out the result is a single path: `//` + the first token, then `//` + each later token |
| CssCompiler.CompileCompound | BetterDOMDocument.php:724-755 | a single plain segment compiles to `//` + the segment with `>` turned into `/` |
| CssCompiler.CompileChild | BetterDOMDocument.php:725-760 | `a > b` compiles to `//a/b` |
| CssCompiler.CompileClass | BetterDOMDocument.php:729-731 | `.name` compiles to `//*` + the class predicate |
| CssCompiler.CompileDescendants | BetterDOMDocument.php:745-755 | space-separated plain words compile to `//w0//w1…` |
| CssCompiler.CompileDescendantClass | BetterDOMDocument.php:738-755 | `tag .name` compiles to the two alternatives `//tag//*[…]` and `//tag[…]`, joined by `|` |
| CssCompiler.TransformCss | BetterDOMDocument.php:706-756 | with the comma branch corrected, a selector list compiles each trimmed piece on its own and joins the results with `|`; without a comma it is the single compile |
| CssCompiler.CompileEach | BetterDOMDocument.php:711-720 | the loop over the comma pieces collects one compiled expression per piece, in order |
| CssCompiler.PiecesAt | BetterDOMDocument.php:711-720 | expression i is piece i, trimmed and compiled |
| CssCompiler.CompileListRooted | BetterDOMDocument.php:706-756 | every compiled selector, list or not, starts with `//` |
| CssCompiler.CompileListSplit | BetterDOMDocument.php:709-722 | splitting a compiled list on `|` gives back the per-piece compiles |
| CssCompiler.TransformAsWritten | BetterDOMDocument.php:709-722 | as the source has it, a selector with a comma is a fatal error and any other selector is compiled |
| CssCompiler.CommaListExample | BetterDOMDocument.php:709-722 | `a, b` is fatal as written, while the corrected compile gives `//a|//b` |
| XPathQuery.ClassSelectorTransform | BetterDOMDocument.php:206-220 | the callback's loop writes the element, `[`, one `contains(@class, 'p')` per later piece separated by ` or `, then `]` |
| XPathQuery.ClassSelectorOf | BetterDOMDocument.php:206-220 | `e.p1…pn` becomes `e[contains(@class, 'p1') or … or contains(@class, 'pn')]` |
| XPathQuery.ClassSelectorDotFree | BetterDOMDocument.php:206-220 | the replacement contains no `.` |
| XPathQuery.ExtendRunsNoDot | BetterDOMDocument.php:146-147 | an XPath without `.` is unchanged by the class extension |
| XPathQuery.ClassExtensionIdempotent | BetterDOMDocument.php:146-147 | the extension leaves no `.`, so applying it twice is the same as applying it once |
| XPathQuery.ExtendRunsSplit | BetterDOMDocument.php:147 | `/`, `[` and `]` separate independent matches: the extension distributes over them |
| XPathQuery.WholeRun | BetterDOMDocument.php:147 | a maximal run free of `/`, `[` and `]` is replaced by the callback's output when it holds a dot, and is kept otherwise |
| XPathQuery.RunLengthWhole | BetterDOMDocument.php:147 | the pattern's match extends over the whole run without separators |
| XPathQuery.FirstColonAt | BetterDOMDocument.php:171 | `strpos($path, ':')` is falsy for a path opening with a colon, whatever follows, and truthy for a colon after a non-empty colon-free opening |
| XPathQuery.ContextQuery | BetterDOMDocument.php:171-187 | the context-path loop, with the separator restored, computes the corrected context path |
| XPathQuery.QualifiedPath | BetterDOMDocument.php:179-184 | each non-empty step becomes prefix + `:` + step, preceded by `/` |
| XPathQuery.ContextPathQualifies | BetterDOMDocument.php:171-184 | for a namespaced node whose path has no colon, the corrected path is `/` followed by the qualified steps joined by `/`, so it splits back into exactly those steps |
| XPathQuery.ContextPathAsWrittenFlat | BetterDOMDocument.php:179-184 | the path as the source builds it contains no `/` at all |
| XPathQuery.TwoStepContext | BetterDOMDocument.php:179-184 | `/a/b` gives `p:ap:b` as written and `/p:a/p:b` when corrected |
| XPathQuery.QueryStringAgrees | BetterDOMDocument.php:167-191 | the expression `query` builds and the corrected one agree without a context node and for a context path that is kept; they differ only where the path is rewritten |
| XPathQuery.SelectAgrees | BetterDOMDocument.php:266-267 | `select` as written is fatal exactly on a comma in the selector; otherwise it queries what the corrected `select` queries, up to the context-path rewrite |
| XPathQuery.QueryVerbatim | BetterDOMDocument.php:146-189 | without a context node and without dots, the query reaches XPath unchanged |
| XPathQuery.SelectDescendants | BetterDOMDocument.php:266-267 | `select` on space-separated words queries `//w0//w1…` |
| XPathQuery.SelectClass | BetterDOMDocument.php:266-267 | `select('.name')` queries `//*` + the class predicate, which the class extension leaves alone |
| Namespaces.LookupUrl | src/DOMDoc.php:113-120 | FALSE exactly for an unregistered prefix; otherwise the table holds the prefix with the returned URI |
| Namespaces.LookupPrefix | src/DOMDoc.php:100-102 | FALSE exactly when no entry has the URI; otherwise the prefix of the first entry, in table order, that has it |
| Namespaces.LookupPrefixUrl | src/DOMDoc.php:100-120 | the prefix found for a URI looks up to that URI |
| Namespaces.LookupPrefixFirst | src/DOMDoc.php:100-102 | a registered URI is always found, at or before any prefix that maps to it |
| Namespaces.Put | src/DOMDoc.php:80-82 | after registering, the prefix looks up to the URI, every other prefix looks up as before, and the key order is kept, with a new prefix appended at the end |
| Namespaces.PutInPlace | src/DOMDoc.php:80-82 | an existing prefix keeps its position and only its URI changes |
| Namespaces.PutAppends | src/DOMDoc.php:80-82 | a new prefix is appended after every existing entry |
| Namespaces.PutDistinct | src/DOMDoc.php:80-82 | registering keeps the prefixes distinct |
| Namespaces.Remove | src/DOMDoc.php:800 | `unset` of a registered prefix drops exactly its entry and keeps the other prefixes in their order; of an unregistered one it changes nothing |
| Namespaces.RemoveLookups | src/DOMDoc.php:800 | after `unset` the prefix is unregistered, every other prefix looks up as before, and the prefixes stay distinct |
| Namespaces.MergeLookup | src/DOMDoc.php:880-882 | after the merge a prefix of the other table has that table's URI, and every other prefix keeps its own |
| Namespaces.MergeDistinct | src/DOMDoc.php:880-882 | the merge keeps the prefixes distinct |
| Namespaces.RegisterDefault | src/DOMDoc.php:815-825 | a default declaration registers exactly the alias, or without one the root tag name |
| Namespaces.RegisterDefaultLookups | src/DOMDoc.php:816-825 | the alias looks up the declared URI; without an alias the tag name looks up the given URI when its entry was empty, and the table is unchanged when it was not; every other prefix looks up as before |
| Namespaces.NamespaceStepDefault | src/DOMDoc.php:814-825 | a default namespace node sets `default_ns` to its URI and registers it under the alias, or the `xmlns` attribute under an empty tag-name entry, or leaves the table alone |
| Namespaces.NamespaceStepDeclared | src/DOMDoc.php:809-813 | a prefixed namespace node keeps `default_ns`, registers its URI under its prefix unless it is `xml` or the XML namespace, and otherwise changes nothing |
| Namespaces.AttributeStepDefault | src/DOMDoc.php:832-845 | an `xmlns` attribute sets `default_ns` to its value and registers that value under the alias, or under an empty tag-name entry, or leaves the table alone |
| Namespaces.AttributeStepDeclared | src/DOMDoc.php:846-849 | an `xmlns:p` attribute registers its value under `p`; any other attribute changes nothing; neither touches `default_ns` |
| Namespaces.NamespacePassKeepsDefault | src/DOMDoc.php:808-827 | with no default namespace node, `default_ns` keeps its value through the pass |
| Namespaces.NamespacePassLastDefault | src/DOMDoc.php:808-827 | after the pass `default_ns` is the URI of the last default namespace node |
| Namespaces.NamespacePassIgnoresAttributes | src/DOMDoc.php:808-827 | the namespace-axis pass does not depend on the document element's attributes |
| Namespaces.AutoRegisterGate | src/DOMDoc.php:830 | when the namespace pass registered something the result is that pass, whatever the attributes; when it registered nothing the attribute pass runs on its result |
| Namespaces.NamespacePassKeys | src/DOMDoc.php:808-827 | after the namespace-axis pass a prefix is registered exactly when it was before or some node registers it: a prefixed declaration other than `xml` and the XML namespace, or a default declaration under the alias or tag name |
| Namespaces.XmlPrefixSkipped | src/DOMDoc.php:811-814 | the `xml` prefix is never registered from a prefixed declaration |
| Namespaces.NamespacePassMerges | src/DOMDoc.php:808-827 | without default declarations the pass merges the admitted declarations in order and leaves the default namespace alone |
| Namespaces.AttributePassKeys | src/DOMDoc.php:830-851 | after the attribute fallback a prefix is registered exactly when it was before, or an `xmlns:p` attribute declares it, or an `xmlns` attribute puts it under the alias or tag name |
| Namespaces.DefaultUnderTagName | tests/NamespaceTest.php:9-10 | a root `note` in a default namespace registers that namespace under `note`, and `lookupPrefix` and `lookupURL` find each other |
| DomDoc.StoredLevel | src/DOMDoc.php:750-755 | a falsy level is stored as `'none'`, any other level as given, and the stored level is never falsy |
| DomDoc.Document.constructor | src/DOMDoc.php:13-16 | the field defaults, i.e. the state `new DOMDoc(FALSE, FALSE)` yields: no auto-registration, an empty table, no default namespace, level `'strict'` |
| DomDoc.Document.RegisterNamespace | src/DOMDoc.php:80-82 | the table becomes `Put(table, prefix, url)`, keeps distinct prefixes, and no other field changes |
| DomDoc.Document.GetNamespaces | src/DOMDoc.php:87-89 | returns the table, whose prefixes are distinct |
| DomDoc.Document.LookupPrefix | src/DOMDoc.php:100-102 | returns the first prefix for the URL, which looks up to the URL again |
| DomDoc.Document.LookupURL | src/DOMDoc.php:113-120 | returns the URI of the prefix, or FALSE |
| DomDoc.Document.RemoveNamespace | src/DOMDoc.php:791-801 | throws, changing nothing, exactly when the prefix is unregistered or has an empty URI; otherwise it removes that prefix and no other |
| DomDoc.Document.SetErrorChecking | src/DOMDoc.php:748-759 | stores the level, clears strict checking unless the level loosely equals `'strict'`, and never sets strict checking again |
| DomDoc.Document.ImportNamespaces | src/DOMDoc.php:880-882 | every entry of the other document's table is registered, in that table's order |
| DomDoc.Document.AutoRegisterNamespace | src/DOMDoc.php:803-852 | the two loops leave the table and default namespace that the fold `AutoRegister` specifies |
| DomDoc.Document.NamespaceAxis | src/DOMDoc.php:808-827 | the namespace-node loop computes `NamespacePass` |
| DomDoc.Document.NamespaceNodeStep | src/DOMDoc.php:809-826 | one namespace node updates the table and default namespace as `NamespaceStep` says |
| DomDoc.Document.AttributeFallback | src/DOMDoc.php:830-851 | the attribute loop computes `AttributePass` |
| DomDoc.Document.AttributeNodeStep | src/DOMDoc.php:831-850 | one attribute updates the table and default namespace as `AttributeStep` says |
| DomDoc.XPathSingle | src/DOMDoc.php:178-187 | FALSE for a failed query or an empty list, otherwise item 0 |
| DomList.DOMList.constructor | src/DOMList.php:13-21 | the nodes are copied in source order, the length is their number, the owner is stored, and the position is 0 |
| DomList.DOMList.Get | src/DOMList.php:24-34 | `length` gives the count fixed at construction, `dom` gives the owner, and any other name gives null |
| DomList.DOMList.Rewind | src/DOMList.php:36-38 | the position becomes 0 |
| DomList.DOMList.Next | src/DOMList.php:48-50 | the position grows by exactly one |
| DomList.DOMList.Current | src/DOMList.php:40-42 | the stored node at the position exactly when the position is valid |
| DomList.DOMList.Valid | src/DOMList.php:52-54 | holds exactly when the position indexes a stored node |
| DomList.DOMList.Item | src/DOMList.php:56-61 | the i-th stored node for 0 ≤ i < count, otherwise FALSE |
| DomList.DOMList.Walk | src/DOMList.php:3-4 | rewind, then current/key/next while valid, visits every stored node once, in order and under its own index, and ends invalid |

## Left out

- Loading and parsing (`loadXML`, `loadHTML`, `loadFile`, the constructors' import branches) are left out: they are libxml calls.
- The legacy regular-expression scan for `xmlns:` in raw XML (BetterDOMDocument.php:83-95) is left out: it only approximates the parser.
- Evaluation of XPath by `DOMXPath` is left out. The model builds the query strings, not the node sets they select.
- Tree edits, XSLT (`tranform`, `asHTML`, `changeNamespace`) and serialisation are left out: they are libxml and `XSLTProcessor` calls.
- The node-attribute stripping loop in `removeNamespace` (src/DOMDoc.php:796-799) is left out; only the table update and the exception are modelled.
- `createContext`'s dispatch on the run-time type of its argument, and its node import, are left out. Only the prefix merge is table logic, and `ImportNamespaces` models it.
- `DOMDoc::select` and `DOMDoc::selectSingle` are left out: they wrap Symfony's `CssSelectorConverter`, which is not part of this model.
- `BetterDOMDocument::selectSingle` (BetterDOMDocument.php:283-285) is left out: it passes a variable `$context` that the method never defines.
- In `query`, the context node is reduced to the two values the rewrite reads: its `getNodePath()` and its namespace URI. The URI becomes "" when null.
- `AutoRegisterNamespace`: the namespace nodes and the attributes of the document element are abstract input lists. A missing document element is `None`, and the alias is `None` when a non-string was passed.
- `DomDoc.Document.LookupPrefix`: `array_search` uses PHP's loose `==`, which the model replaces with string equality. The coercion of numeric-string prefixes to integer keys is not modelled either.
- `DomDoc.Setting`: a level is null, a boolean or a string. Integers and other PHP values are not modelled.
- `DomDoc.Document.constructor` covers only the field defaults, which is the state `new DOMDoc(FALSE, FALSE)` yields; with the default arguments the constructor also runs `AutoRegisterNamespace(TRUE)` (src/DOMDoc.php:66-68), which `DomDoc.Document.AutoRegisterNamespace` models. The loading that real constructors do is left out, as above.
- `DomList.DOMList.Valid`: `isset` is false for a stored null as well. Nodes are never null, so validity is modelled as the position being in range.
- `DomList.DOMList.Item` takes an integer index; PHP's coercion of other index types is not modelled.
- `CssTokenizer.TokenizeAttr` requires a value without the markers `#`, `.`, `[`, `*`, `>` and quotes. The later rewrite steps also act inside attribute values, which the tokenizer functions model, but this lemma does not state.
- `CssCompiler.CompileListSplit` requires that no piece compiles to an expression containing `|`.
- `XPathQuery.SelectDescendants` and `XPathQuery.SelectClass` require word and name inputs. The class extension rewrites any dot that a compiled selector carries inside an attribute value, which the general functions model but these lemmas do not state.

## Findings

| source | as written | input that shows it | evidently intended | confidence | as-written member | corrected member |
|---|---|---|---|---|---|---|
| BetterDOMDocument.php:709-722 | the comma branch calls `self::transform`, which the class does not define (only `tranform` and `transformCSS` exist), so every selector list is a fatal error | `a, b` | each trimmed piece compiled as a single selector, the results joined with `|` (`//a|//b`) | high, not executed | CssCompiler.CommaListExample | CssCompiler.TransformCss |
| BetterDOMDocument.php:179-184 | the qualified steps of the context path are concatenated with nothing between them | a node at `/note/body` in a default namespace registered under `note` gives `note:notenote:body` | `/note:note/note:body` | high, not executed | XPathQuery.TwoStepContext | XPathQuery.ContextQuery |
