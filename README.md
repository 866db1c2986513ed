# AMP_DOM_Utils text transcoding, in Dafny

The AMP WordPress plugin's `AMP_DOM_Utils` class parses HTML content into a
DOM with libxml and serialises it back to text. libxml mangles three things
on the way, so the class rewrites the text around the parse and serialise
steps:

- **amp-bind attributes** such as `[text]="x"` are not legal attribute names.
  Before parsing, each start tag whose attribute span holds `]=` is rescanned
  attribute by attribute, and every `[name]` becomes `amp-binding-<md5>-name`.
  After serialising, `\s<prefix>NAME` becomes ` [NAME]`.
- **amp-mustache delimiters** (`{{{`, `}}}`, `{{#`, `{{^`, `{{/`, `{{`, `}}`)
  would be URL-encoded inside attributes. Before parsing they are replaced by
  salted `_amp_mustache_<md5>` placeholders. After serialising they are
  replaced back.
- **Void elements** (`br`, `img`, `meta`, …) are given explicit end tags
  before parsing. After serialising, their end tags are deleted again.

The project also models:

- the post-processing of each serialised node;
- the concatenation of the body's children;
- the wrapper document built for a content fragment;
- the older tree pass `recursive_force_closing_tags`, which forces elements to
  serialise with explicit end tags.

Modules:

| file | module | what it holds |
|---|---|---|
| `text.dfy` | `Text` | PHP string primitives: `str_replace`, `rtrim`, `trim`, `strtolower`, PCRE `\s` |
| `mustache.dfy` | `Placeholders`, `Mustache` | the token table, the placeholder shape, `Encode`/`Decode` and their round trip |
| `bind.dfy` | `Bind` | the attribute pattern, the attribute scan and the replacement callback with its `while` loop (`ReplaceTag`) |
| `bind_tags.dfy` | `BindTags` | the start-tag pattern and the document-wide `preg_replace_callback` (`Convert`) |
| `bind_restore.dfy` | `BindRestore` | the restore substitution (`Restore`) and the conditions under which it undoes `Convert` |
| `voidtags.dfy` | `VoidTags` | the void-element list, the start-tag rewrite (`CloseVoidTags`), the end-tag strip (`StripVoidEndTags`) |
| `domutils.dfy` | `DomUtils` | the `get_dom` pipeline, node post-processing, the body loop (`ContentFromDom`), the wrapper |
| `tree.dfy` | `Tree` | `is_node_empty`, the value-level pass `ForceClosing`, and the in-place pass on a `Document` class |

Each regular expression is modelled as a hand-written scanner. It makes the
choices PCRE's backtracking makes:

- the void start-tag alternation has no word boundary, so `<basefont>` is
  matched as `base`;
- a failed lookahead falls through to the next name in the alternation;
- the greedy name group of the restore pattern takes the whole run of name
  characters.

## Model

All source paths are in `includes/utils/class-amp-dom-utils.php`.

| member | source | states |
|---|---|---|
| Placeholders.TokenTableHasSevenEntries | includes/utils/class-amp-dom-utils.php:163-177 | Building the placeholder array by assigning each of the eight listed tokens in turn gives seven keys, in listing order: the second `{{/` adds nothing. The seven keys are pairwise distinct. |
| Placeholders.KeysDistinct | includes/utils/class-amp-dom-utils.php:172-174 | The keys of an array built by assigning `$array[$token]` for each token are pairwise distinct, and a string is a key exactly when it is one of the tokens. |
| Mustache.DecodeEncode | includes/utils/class-amp-dom-utils.php:379-384 | Decoding the encoded text gives the original back. This holds for seven pairwise-distinct placeholders of the form `_amp_mustache_` followed by 32 hex digits, when the text contains none of them. |
| Mustache.Encode | includes/utils/class-amp-dom-utils.php:79-84 | The encoded text holds no `{{` and no `}}`. Text with no `{` and no `}` is not changed. |
| Mustache.Decode | includes/utils/class-amp-dom-utils.php:379-384 | Text holding none of the placeholders is not changed by decoding. |
| Mustache.EncodeKeepsAbsent | includes/utils/class-amp-dom-utils.php:79-84 | Encoding brings in no occurrence of a text that starts with a character outside the placeholder alphabet and holds no `_`, such as `<` or a whitespace character followed by the amp-bind prefix. Every placeholder starts with `_`. |
| Mustache.EncodeKeepsNonBlank | includes/utils/class-amp-dom-utils.php:79-84 | Encoding a text without placeholders never makes it whitespace-only. |
| Bind.AttrMatch | includes/utils/class-amp-dom-utils.php:201 | A match of the attribute pattern is a prefix of the text, at least two characters long (one whitespace, one name character), and its leading whitespace run is maximal. |
| Bind.AttrMatchComplete | includes/utils/class-amp-dom-utils.php:201 | The pattern fails exactly when the text does not start with whitespace followed by a name start (a name character, or `[` and a name character). Otherwise the match takes the whole whitespace run, the name group as `NameLen` takes it, and the value group as `ValueLen` takes it. |
| Bind.NameGroup | includes/utils/class-amp-dom-utils.php:201 | The name group `\[?[a-zA-Z0-9_\-]+\]?` matches exactly when the text starts with a name character or with `[` and a name character. The match ends at `]`, at the end of the text, or before a character that is neither a name character nor `]`. |
| Bind.ValueGroup | includes/utils/class-amp-dom-utils.php:201 | The value group matches exactly when `=` is followed by a closed double-quoted value, a closed single-quoted value, or a non-whitespace unquoted character. A quoted value ends at the first matching quote. An unquoted value is a maximal run of characters other than quotes and whitespace. |
| Bind.Scan | includes/utils/class-amp-dom-utils.php:213-224 | The successive matches, followed by the unconsumed rest, spell the scanned span exactly. Each match is well formed. The pattern does not match the rest, so the loop stops there. When the pattern matches the span, the first match is that match. |
| Bind.ScanOne | includes/utils/class-amp-dom-utils.php:214-223 | One iteration of the loop strictly increases `$offset`, so the loop ends. It keeps the loop invariant relating `$new_attrs` to the converted matches so far. |
| Bind.ReplaceTag | includes/utils/class-amp-dom-utils.php:210-230 | The callback's `while` loop computes `TagReplacement`. When the scan does not consume the whole right-trimmed span, the original tag text is returned unchanged. |
| Bind.TagReplacement | includes/utils/class-amp-dom-utils.php:227-230 | The callback's result is a tag: it starts with `<` and the original tag name, and it ends with `>`. |
| BindTags.TagMatchSound | includes/utils/class-amp-dom-utils.php:234-238 | The tag pattern's match is a start tag at the front of the text. Its name is name characters. Its span starts with whitespace, holds no `>` and contains `]=`. |
| BindTags.TagMatchComplete | includes/utils/class-amp-dom-utils.php:234-238 | Every start tag of that description is matched, with exactly its own name and span. |
| BindTags.TagMatch | includes/utils/class-amp-dom-utils.php:236 | No match unless the text starts with `<`. What it matches and that it matches every such tag are stated by `BindTags.TagMatchSound` and `BindTags.TagMatchComplete`. |
| BindTags.Convert | includes/utils/class-amp-dom-utils.php:234-242 | A document that holds no `]=` comes out of the conversion unchanged. |
| BindTags.ConvertCopiesPlainText | includes/utils/class-amp-dom-utils.php:234-241 | Text before the first `<` is copied verbatim, and the rest is converted on its own. |
| BindRestore.BindMatch | includes/utils/class-amp-dom-utils.php:258 | A restore match is one whitespace character, the prefix, and a maximal non-empty run of name characters. |
| BindRestore.BindMatchComplete | includes/utils/class-amp-dom-utils.php:258-259 | There is a match exactly when a whitespace character, the prefix and at least one name character follow each other at the front of the text. |
| BindRestore.Restore | includes/utils/class-amp-dom-utils.php:257-264 | Text in which the prefix never occurs is not changed by the restore. |
| BindRestore.RestoreWithoutSite | includes/utils/class-amp-dom-utils.php:257-264 | Text in which no `\s` character is followed by the prefix is not changed by the restore. |
| BindRestore.RestoreTag | includes/utils/class-amp-dom-utils.php:216-264 | Restoring the callback's result for a safe tag gives back the original tag text. A tag is safe when each bracketed name is name characters preceded by exactly one space and there is no trailing whitespace. The prefix must not occur in the tag. |
| BindRestore.RestoreConvert | includes/utils/class-amp-dom-utils.php:197-264 | Restore undoes Convert on a whole document, provided that: the prefix is name characters; it does not occur in the document; every tag the conversion rewrites is safe. |
| BindRestore.RestoreConvertShaped | includes/utils/class-amp-dom-utils.php:142-148 | The same round trip holds for the prefix as generated: `amp-binding-`, 32 hex digits, `-`. |
| VoidTags.MatchSound | includes/utils/class-amp-dom-utils.php:87-91 | A hit of the start-tag alternation names a listed element and gives the length of its start tag. Its end tag does not follow immediately. |
| VoidTags.CloseAddsEndTag | includes/utils/class-amp-dom-utils.php:87-91 | Suppose a listed start tag `<n attrs>` is not immediately followed by `</n>`. Then `</n>` is inserted right after its `>`, and the rest of the text is rewritten on its own. |
| VoidTags.CloseKeepsClosed | includes/utils/class-amp-dom-utils.php:87-91 | A listed start tag already followed by its end tag is left alone. |
| VoidTags.CloseCopiesPlainText | includes/utils/class-amp-dom-utils.php:87-91 | Text before the first `<` is copied by the start-tag rewrite. |
| VoidTags.BasefontClosedAsBase | includes/utils/class-amp-dom-utils.php:87-91 | `<basefont>` is matched as `base`, so it gains `</base>`, because the alternation has no word boundary. |
| VoidTags.CloseNotIdempotent | includes/utils/class-amp-dom-utils.php:87-91 | Rewriting `<basefont>` twice gives `<basefont></basefont></base>`. The rewrite is not idempotent. |
| VoidTags.StripDeletesEndTag | includes/utils/class-amp-dom-utils.php:355-357 | An end tag whose lower-cased name is listed is deleted, in any letter case, and the text after it is processed on its own. |
| VoidTags.StripCopiesPlainText | includes/utils/class-amp-dom-utils.php:392 | Text before the first `<` is copied by the end-tag strip. |
| VoidTags.StripSinglePass | includes/utils/class-amp-dom-utils.php:392 | The strip is a single pass. `<</n>/n>` loses the inner end tag and keeps the `</n>` that the deletion forms. |
| VoidTags.CloseVoidTags | includes/utils/class-amp-dom-utils.php:87-91 | Stripping after the start-tag rewrite gives what stripping alone gives: every end tag the rewrite adds is removed again. Text without `<` is not changed. |
| VoidTags.CloseVoidKeepsBraces | includes/utils/class-amp-dom-utils.php:79-91 | The start-tag rewrite brings no `{{` and no `}}` into a text that had none. |
| VoidTags.StripVoidEndTags | includes/utils/class-amp-dom-utils.php:392 | The result is never longer. Text in which no listed end tag starts at any position is not changed, markup such as `<p class="a">x</p>` included; text without `<` in particular. A listed end tag is deleted (`VoidTags.StripDeletesEndTag`). |
| VoidTags.PairStripped | includes/utils/class-amp-dom-utils.php:392 | For a listed name, the start tag `<n>` is kept and the end tag `</n>` after it is deleted. |
| VoidTags.IsSelfClosingTag | includes/utils/class-amp-dom-utils.php:518-520 | A tag name is self-closing exactly when its end tag `</tag>`, in the name's own letter case, is one the end-tag strip deletes. |
| DomUtils.PrepareDocument | includes/utils/class-amp-dom-utils.php:62-91 | No `{{` or `}}` reaches the parser. A document without `<`, `{` or `}` reaches the parser unchanged by the three rewrites. |
| DomUtils.NodeContent | includes/utils/class-amp-dom-utils.php:343-394 | Whitespace-only text becomes `''`. Other text without `<` that holds neither the prefix nor any placeholder comes back unchanged. |
| DomUtils.NodeContentDropsVoidEndTag | includes/utils/class-amp-dom-utils.php:376-392 | A listed end tag, in any case, is deleted from serialised text. The text before it is kept and the text after it is post-processed. |
| DomUtils.PlainTextRoundTrip | includes/utils/class-amp-dom-utils.php:62-394 | Text without `<`, template delimiters such as `a {{x}} b` included, comes out of the rewrites before parsing and the post-processing after serialising exactly as it went in. It must not be whitespace-only, must hold no placeholder, and must have no `\s` character followed by the prefix; the prefix has the source's shape, `amp-binding-` followed by 32 hex digits and `-`. |
| DomUtils.ExplicitVoidEndTagLost | includes/utils/class-amp-dom-utils.php:62-394 | Markup does not survive in general: for every listed name but `basefont`, `<n></n>` reaches the parser as written and comes back as `<n>`. So `<br></br>` becomes `<br>`. |
| DomUtils.ContentFromDom | includes/utils/class-amp-dom-utils.php:305-328 | Without a body the result is `''`. Otherwise the loop's result is the children's post-processed texts, concatenated in document order. |
| DomUtils.BodyContentAppend | includes/utils/class-amp-dom-utils.php:321-325 | The content of two runs of children is the content of the first followed by the content of the second. |
| DomUtils.BodyContentOfBlankChildren | includes/utils/class-amp-dom-utils.php:363-365 | Children that serialise to whitespace alone contribute nothing to the body's content. |
| DomUtils.WrapContent | includes/utils/class-amp-dom-utils.php:285-289 | The wrapper document is the head (declaring the charset), the content, and `</body></html>`. The content can be cut back out from between them. |
| DomUtils.DocumentFromContent | includes/utils/class-amp-dom-utils.php:277-292 | Whatever the content and the charset, the document handed to the parser holds no `{{` and no `}}`. |
| Tree.ForceClosing | includes/utils/class-amp-dom-utils.php:476-508 | Nodes other than elements come back unchanged. Elements keep their names. |
| Tree.ForceClosingCloses | includes/utils/class-amp-dom-utils.php:476-508 | After the pass, every void-named element in the tree is empty and every other element has a child. |
| Tree.ForceClosingKeepsClosed | includes/utils/class-amp-dom-utils.php:476-508 | A tree already in that shape is left exactly as it is. |
| Tree.ForceClosingFixedPoints | includes/utils/class-amp-dom-utils.php:476-508 | The trees the pass leaves unchanged are exactly those in that shape. |
| Tree.ForceClosingIdempotent | includes/utils/class-amp-dom-utils.php:476-508 | Running the pass twice gives what running it once gives. |
| Tree.IsNodeEmpty | includes/utils/class-amp-dom-utils.php:462-464 | An element is empty exactly when it has no children. A text node is empty exactly when its data is `''` or `"0"`. Any other node is empty. |
| Tree.DetachChildren | includes/utils/class-amp-dom-utils.php:487-493 | Setting a void element's `textContent` detaches all its children. The element's view becomes empty, and nothing outside its subtree changes. |
| Tree.AppendEmptyText | includes/utils/class-amp-dom-utils.php:495-500 | Appending an empty text node to an empty element makes that node its only child, and nothing outside its subtree changes. |
| Tree.ViewFrame | includes/utils/class-amp-dom-utils.php:502-506 | The pass over one child leaves unchanged the subtree of every node that neither contains that child nor lies below it, such as the child's siblings. |
| Tree.Document.ForceClosingTags | includes/utils/class-amp-dom-utils.php:476-508 | The in-place pass turns the subtree of the node into `ForceClosing` of what it was. It changes nothing outside that subtree: existing nodes keep their kinds, and only nodes inside the subtree are detached or gain children. |
| Tree.Document.ForceChildren | includes/utils/class-amp-dom-utils.php:502-506 | The loop from the last child to the first leaves each child processed and the list of children unchanged. |

## Left out

- The libxml parse and serialise (`loadHTML`, `saveHTML`) are a foreign library. So are the libxml error-state calls. A serialised node enters the model as the text `saveHTML` produced for it. A document leaves the model as the text handed to `loadHTML`. Each rewrite's own round trip is proved separately.
- The amp-bind prefix and the placeholder table are parameters. They are normally built from `wp_rand`/`md5` salts and cached in function-level `static` variables, and they are given here with the shape those constructions guarantee.
- `get_bloginfo( 'charset' )` is a parameter of the wrapper. `_deprecated_function` is dropped.
- The libxml < 2.8 `noscript` placeholder path in both directions is not modelled. It is version-gated, uses random keys and fills a global static array.
- `convert_amp_bind_attributes` falls back to the original HTML when `preg_replace_callback` returns null. That is a PCRE engine failure (such as a backtrack limit), which the scanners do not have.
- `create_node`, `get_node_attributes_as_assoc_array` and `add_attributes_to_node` are not modelled. They are thin wrappers around DOM `createElement`, attribute iteration and `setAttribute`. The document model carries no attributes.
- `recursive_force_closing_tags` with no node looks up the body element with `getElementsByTagName`. That lookup is not modelled: the pass takes the node to start from.
- Tree.Document.ForceClosingTags: the document model has elements, text nodes and one kind for all other nodes. The `textContent` of other nodes (comments, for example) is taken to be empty. This only matters for a comment node handed to the pass directly, which the pass leaves alone in either case.
- DomUtils.PlainTextRoundTrip: the composed round trip is stated for text without `<` only. For markup, what comes back is what `saveHTML` prints, which is not modelled. Even with the serialiser taken as the identity, markup does not come back in general: an explicit end tag of a listed element is deleted (`DomUtils.ExplicitVoidEndTagLost`), and a bound attribute comes back byte for byte only under the safe-tag conditions of `BindRestore.RestoreConvert`.
- DomUtils.DocumentFromContent: the contract states that no delimiter reaches the parser. Where the content sits is stated before the rewrites, by `DomUtils.WrapContent`, and not after them, because the rewrites can reach across the wrapper: an unterminated listed start tag such as `<br` at the end of the content extends to the `>` of `</body>`.
- Tree.IsNodeEmpty: a node that is neither an element nor a text node is taken to be empty, because the model gives such nodes no text. In PHP a comment with text is not empty.
- Decoding: the same ordered `str_replace` is applied to the swapped arrays, following the code. The first placeholder is replaced first, not the last.
- VoidTags.CloseAddsEndTag: stated for a start tag whose name is not extended by another listed name and whose attribute span has no `>`. The match ends at the first `>`, so a `>` in the span would end the tag early. Other tags (`<basefont>`) are matched by a shorter name, and those cases are covered by `VoidTags.BasefontClosedAsBase` and `VoidTags.CloseNotIdempotent`.
- VoidTags.CloseKeepsClosed: stated under the same conditions as `VoidTags.CloseAddsEndTag`, and for a span without `<`. An unmatched tag is copied one character at a time, so a `<` in its span is tried as the start of another tag: in `<br <hr></br>` the inner `<hr>` gains `</hr>`.
- BindRestore.RestoreConvert: proved under the safe-tag conditions above. A tag with trailing whitespace before `>` loses it, and a bracketed attribute not preceded by exactly one space has its whitespace normalised. Restoring such a tag does not give it back byte for byte.
- DomUtils.NodeContentDropsVoidEndTag: stated for text before the end tag that holds no `<`, and for text without the prefix or placeholders. Deletion after arbitrary markup is stated on `VoidTags.StripVoidEndTags` by `VoidTags.StripDeletesEndTag`.
- The Validator Spec tag files and the site-validation test file are not part of this model. They are generated constant data and WordPress fixtures with no text-transcoding logic.
