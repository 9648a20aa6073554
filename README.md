# Quill HTML to ReportLab flowables, modelled in Dafny

This project models the converter that turns the teacher-guide HTML of the
editor into ReportLab Platypus flowables (`html_to_platypus` in `main.py`),
together with its inline normaliser `clean_inner`, the placeholder and
download name of the `/export-pdf` route, and the markdown-fence clean-up of
the model's answer.

The model is organised in modules:

- `Text` (`text.dfy`): characters, literal matching and searches.
  - The character classes are those of Python's `re`: `\s`, and `\w`, `\d` and `\b` in their ASCII meaning (see "## Left out").
  - Case-insensitive matching includes Python's extra case foldings for `i`, `s` and `k`.
  - `Trim` is `str.strip()`.
- `Patterns` (`patterns.dfy`): the element patterns.
  - `MatchOpenTag` is `<name\b[^>]*>`.
  - `MatchElement` is `<name\b[^>]*>(.*?)</name>`, matched up to the first closing tag.
- `Normalizer` (`normalizer.dfy`): `clean_inner`.
  - It is modelled as the rule-driven substitution `Sub`, which is `re.sub` and `str.replace` scanning left to right.
  - The seven tag rewrites, the fold over the twelve-entry entity table, the ampersand escaping and the trim follow in the order of the source.
  - `CleanInner` is the method form, with the `for` loop over the table.
- `Vocabulary` (`vocabulary.dfy`): what the seven tag rewrites do to each kind of tag standing between two pieces of plain text.
- `Scanner` (`scanner.dfy`): `html_to_platypus`.
  - The matchers look at the rest of the input, `html[pos:]`.
  - `Step` is one turn of the loop and `Convert` is the whole scan.
  - `HtmlToPlatypus` is the imperative `while` loop over the cursor, proved equal to `Convert`.
  - ReportLab's constructors, base64 decoding and the URL fetch are parameters (`Oracles`): `false` or `None` stands for the exception the source catches.
- `ScannerFacts` (`scanner_facts.dfy`): document-level theorems about the scan:
  - order;
  - blocks, lists and images consumed whole;
  - text skipped;
  - ampersand safety of every emitted text;
  - termination bound;
  - how a result ends.
- `Emission` (`emission.dfy`): the pattern each block kind and each image appends.
- `Fences` (`fences.dfy`): the two fence-stripping substitutions of `generate_teacher_guide`.
- `PdfExport` (`pdf_export.dfy`): the route's defaults, placeholder and `safe_name`.

Some behaviours of the code are easy to miss, and the model has them as written:

- An unknown named entity's `&` in text is escaped: `&foo;` becomes `&amp;foo;` (main.py:247, see `CleanEscapesBareAmp`).
- `ol` becomes the same bullet list as `ul` (main.py:288-307).
- A list is followed by a 0.2 cm spacer (main.py:309).

Sizes are integers in hundredths of a centimetre: `Spacer(30)` is `Spacer(1, 0.3 * cm)`, and an image 1400 wide is `width=14 * cm`.

## Model

| member | source | states |
|---|---|---|
| Scanner.HtmlToPlatypus | main.py:250-345 | The cursor loop returns exactly `Convert(html, o)`. The invariant is that what has been appended, followed by the scan of the rest, is the scan of the whole input. The loop's own turn count is `Turns(html, o)` and at most `len(html)`. |
| Scanner.ScanAt | main.py:253-343 | One turn moves the cursor forward by at least one character without passing the end. It keeps the loop invariant and counts one turn more. |
| Scanner.TurnCount | main.py:253-343 | Helper for the loop's turn count: one turn of the loop is one unfolding of `Turns`. |
| Scanner.ScanRest | main.py:254-343 | One turn, dispatched in the order whitespace, block, image, one character: it appends `Step(rest).out` and advances by `Step(rest).len`. |
| Scanner.Step | main.py:254-343 | Every turn consumes at least one character and at most the rest of the input. |
| Scanner.AppendBlock | main.py:264-311 | The appends of the block branch, with `except: pass`, are exactly `BlockOut(tag, inner)`. |
| Scanner.AppendImage | main.py:322-339 | The appends of the image branch are exactly `ImageOut(src)`. |
| Scanner.ListItems | main.py:288-309 | The list comprehension over the raw items with the `if list_items` test is exactly `ListOut(items)`. A refused item abandons the whole list. |
| Scanner.RefusedItem | main.py:292-299 | One refused item paragraph makes the whole list refused. |
| Scanner.MatchBlock | main.py:259-263 | A block match spans a non-empty prefix of the rest, with its inner span inside it. |
| Scanner.MatchImg | main.py:317-321 | An image match has `src="`, in any case, at an index of at least 4. The source after it is non-empty and has no quote, a quote closes it, and the match ends just after a `>` inside the rest. |
| Scanner.ImgAt | main.py:318 | The tail `src="([^"]+)"[^>]*/?>` tried at one index: the same shape as `MatchImg`, with `src="` at that index. |
| Scanner.ImgSearch | main.py:318 | The greedy `[^>]*` backs off from the first `>` down to index 4. A match has the same shape, with `src="` at or below the start index. |
| Patterns.MatchOpenTagSpec | main.py:260 | `<name\b[^>]*>` matches exactly when `<`, the name in any case, a word boundary and some later `>` are present. It ends at the first `>` after the name. |
| Patterns.MatchElementSpec | main.py:260 | The inner span ends at a closing tag of the same name, and no such tag lies inside it. An element fails exactly when the opening tag fails or no closing tag follows it. |
| Patterns.ElementAt | main.py:260 | A literal `<name attrs>inner</name>` without a closing tag inside is matched with exactly these bounds. |
| ScannerFacts.BlockAt | main.py:259-266 | A literal block at the cursor is matched as a block of that tag, whose inner span is exactly its inner HTML. |
| ScannerFacts.EarlierMisses | main.py:260 | No alternative tried before a tag's own in the block pattern matches that tag's name. |
| ScannerFacts.ScanBlock | main.py:259-314 | A well-formed block appends its pattern, and the scan resumes right after its closing tag. |
| ScannerFacts.ImgTagAt | main.py:317-323 | The image pattern at a well-formed image tag covers the whole tag, and its group is the source. |
| ScannerFacts.ImgNotBlock | main.py:259-317 | An image tag, with `img` in any case, is never taken for a block. |
| ScannerFacts.ScanImage | main.py:317-341 | An image tag appends its pattern, and the scan resumes right after the tag. |
| ScannerFacts.SkipText | main.py:253-257 | Text without `<` produces nothing. The scan goes on after it as if it were not there. |
| ScannerFacts.ConvertDocument | main.py:250-345 | A document of well-formed text, block and image pieces converts to the patterns of its blocks and images, in document order. |
| ScannerFacts.FindItemsOf | main.py:289-291 | The `<li>` items found in a rendered list are exactly the items it was rendered from, in order. |
| ScannerFacts.ScanList | main.py:288-309 | A `ul` or `ol` written item by item becomes one bullet list of its cleaned items, or nothing, followed by the rest of the scan. |
| ScannerFacts.ListBlockOut | main.py:288-290 | `ul` and `ol` emit the same list of items found in the raw inner HTML. |
| ScannerFacts.ScanPlainParagraph | main.py:283-286 | A plain-text paragraph emits its trimmed text and a spacer, or nothing when that text is blank or refused. |
| ScannerFacts.BlankParagraph | main.py:283-286 | A paragraph of whitespace and `&nbsp;` emits nothing, because the entity is decoded before the emptiness test. |
| ScannerFacts.ConvertSafe | main.py:266-299 | Every paragraph and list item the converter emits is ampersand-safe and trimmed, whatever the input. |
| ScannerFacts.TurnsBound | main.py:253-343 | The turns counted by `Turns` are at most as many as the input has characters. |
| ScannerFacts.ConvertEndsWithSpacer | main.py:268-341 | Every non-empty result ends with a spacer. |
| Emission.CleanAllItems | main.py:292-299 | The cleaned items are the raw items, each through `clean_inner`, in order and with none lost. |
| Emission.ListOutShape | main.py:288-309 | A list emits something exactly when it has items and every cleaned item is accepted; zero items emit neither list nor spacer. What it emits is the bullet list of all cleaned items, then a 0.2 cm spacer. |
| Emission.HeadingOne | main.py:269-271 | `h1` emits its paragraph and a 0.3 cm spacer, or nothing when the paragraph is refused. |
| Emission.HeadingSpacerStays | main.py:273-281 | `h2` and `h3` always start with their 0.4 cm or 0.2 cm spacer. The output is that spacer alone exactly when the paragraph is refused; otherwise the paragraph and a 0.15 cm or 0.1 cm spacer follow. |
| Emission.HeadingBlockKeepsSpacer | main.py:273-281 | In a whole document, an `h2` or `h3` block emits its spacer first. When its paragraph is refused, that spacer is all it leaves before the scan of what follows. |
| Emission.HeadingOneBlock | main.py:269-271 | In a whole document, an `h1` block emits its paragraph and a 0.3 cm spacer, or nothing when refused. The scan then resumes after its closing tag. |
| Emission.ParagraphBlock | main.py:283-286 | In a whole document, a `p` block emits its cleaned text and a 0.15 cm spacer, or nothing when that text is empty or refused. The scan then resumes after its closing tag. |
| Emission.ImageTag | main.py:317-341 | In a whole document, an image tag emits a spacer, the image 14 cm wide and a spacer when its bytes are obtained and accepted, and nothing otherwise. The scan then resumes after the tag. |
| Emission.ParagraphPattern | main.py:283-286 | A `p` with an empty cleaned text emits nothing. A `p` emits something exactly when its text is non-empty and accepted, and then it emits the paragraph and a 0.15 cm spacer. |
| Emission.ImageOutCases | main.py:324-339 | An image emits something exactly when its bytes are obtained and accepted, and then it emits spacer, 14 cm image, spacer. A source not starting with `data:image` is fetched. |
| Emission.DataImageAfterFirstComma | main.py:325-327 | A `data:image` source is decoded from the text after its first comma. |
| Emission.DataImageWithoutComma | main.py:325-339 | A `data:image` source without a comma appends nothing. |
| Normalizer.CleanInner | main.py:224-248 | The reassignments and the entity loop compute `Clean(text)`. The loop invariant is that after `k` entries, the first `k` entities have been decoded. |
| Normalizer.MatchRule | main.py:227-247 | A match of any rewrite consumes at least one character and starts with the rule's lead character, `<` or `&`. |
| Normalizer.SubSkipsLeadFree | main.py:227-247 | A substitution leaves text without its lead character alone and carries on after it. |
| Normalizer.CleanIsAmpSafe | main.py:247-248 | After `clean_inner`, every `&` begins `&amp;`, `&lt;`, `&gt;` or `&#digits;`. |
| Normalizer.EscapeMakesAmpSafe | main.py:247 | The escaping step leaves every `&` beginning a safe reference. |
| Normalizer.EscapeFixedPoints | main.py:247 | The escaping step leaves a text unchanged exactly when the text is already ampersand-safe. |
| Normalizer.EscapeIdempotent | main.py:247 | Escaping twice is escaping once. |
| Normalizer.EscapeLength | main.py:247 | Escaping never shortens a text, and it lengthens every text that is not ampersand-safe. |
| Normalizer.TrimKeepsAmpSafe | main.py:248 | Stripping whitespace keeps a text ampersand-safe. |
| Normalizer.EntityTableFacts | main.py:238-243 | The twelve entity names are distinct lower-case words, and none decodes to `&`. |
| Normalizer.DecodeEntity | main.py:244-245 | Each table entity between entity-free text decodes to its character, whatever its place in the table. |
| Normalizer.CleanDecodesEntity | main.py:238-248 | `clean_inner` decodes each of the twelve entities in plain text to its character. |
| Normalizer.CleanEscapesBareAmp | main.py:238-248 | In text with no tag and no other `&`, an `&` that begins neither a table entity nor a safe reference is escaped to `&amp;`. This includes an unknown named entity. |
| Normalizer.CleanPlainText | main.py:224-248 | Text without tags and entities is only trimmed. |
| Normalizer.TagStepsTagFree | main.py:227-236 | The tag rewrites leave text without `<` unchanged. |
| Vocabulary.CleanStrong | main.py:229 | `<strong ...>` between plain text becomes `<b>`. |
| Vocabulary.CleanCloseStrong | main.py:230 | `</strong>` becomes `</b>`. |
| Vocabulary.CleanEm | main.py:231 | `<em ...>` becomes `<i>`. |
| Vocabulary.CleanCloseEm | main.py:232 | `</em>` becomes `</i>`. |
| Vocabulary.CleanBreak | main.py:234 | `<br>`, `<br/>` and `<br />`, with any whitespace, become `<br/>`. |
| Vocabulary.CleanUnwrapsSpan | main.py:227 | `<span ...>x</span>` is replaced by `x`. |
| Vocabulary.CleanDropsOpenTag | main.py:236 | Any other opening tag is deleted and the text around it kept. This includes an unclosed `<span>`. |
| Vocabulary.CleanDropsCloseTag | main.py:236 | Any other closing tag is deleted and the text around it kept. |
| Vocabulary.KeptTagStays | main.py:227-236 | The kept tags `<b>`, `</b>`, `<i>`, `</i>` and `<br/>` pass every tag rewrite unchanged. |
| Vocabulary.OtherOpenDropped | main.py:236 | The tag stripper deletes exactly the whole of an opening tag whose name is not `b`, `i` or `br`. |
| Vocabulary.CloseRuleMatches | main.py:230-232 | `</strong>` and `</em>` match a closing tag exactly when it has that name. |
| Fences.StripOpeningFence | main.py:146 | Text not starting with three backticks is unchanged. Otherwise the result is a suffix at least three characters shorter. |
| Fences.StripClosingFence | main.py:147 | Text ending with a fence becomes a prefix at least three characters shorter. Text ending with neither a fence nor a fence and a newline is unchanged. |
| Fences.FenceRoundTrip | main.py:146-147 | A fenced body comes back as the body. The fence can carry the `html` tag in any case or none, and whitespace can sit inside the fences. A bare fence can touch the body, unless the body itself starts with `html`. |
| Fences.ResponseRoundTrip | main.py:144-147 | The same holds with surrounding whitespace, after the strip. |
| Fences.UnfencedUnchanged | main.py:144-147 | A stripped answer without fences is returned as it is. |
| PdfExport.ExportPdf | main.py:433-461 | The document is never empty. It is the converter's output whenever that is non-empty, and the placeholder alone when `html` is missing. The header is built from the sanitised name or from `teacher_guide`. |
| PdfExport.PlaceholderExactlyWhenEmpty | main.py:449-452 | The exported document is the placeholder alone exactly when the converter produced nothing, so real content is never mistaken for the placeholder. |
| PdfExport.SafeNameAt | main.py:457 | `safe_name` keeps the length. Each character in `[\w-]` is kept and any other becomes `_`. |
| PdfExport.SafeNameIsSafe | main.py:457 | Every character of the result is a word character or `-`. |
| PdfExport.SafeNameFixed | main.py:457 | A name is unchanged exactly when all its characters are safe. |
| PdfExport.SafeNameIdempotent | main.py:457 | Sanitising twice is sanitising once. |
| PdfExport.DispositionQuoted | main.py:457-461 | The quoted file name in the header is the sanitised name plus `.pdf`. It holds no quote, line break or path separator. |
| Text.Trim | main.py:248 | `strip()` returns a slice of its input that neither starts nor ends with whitespace. |
| Text.TrimIdempotent | main.py:248 | Stripping twice is stripping once. |
| Scanner.Convert | main.py:250-345 | The definition of the whole scan: the output of one `Step` on the rest, then the scan after it. |
| Scanner.Turns | main.py:253-343 | The definition of the number of loop turns on the rest of the input. |
| Scanner.MatchBlockFrom | main.py:259-263 | The definition of the alternation `h1\|h2\|h3\|p\|ul\|ol`: the first tag in this order whose element matches. |
| Scanner.BlockOut | main.py:265-311 | The definition of a block's appends. It cleans the inner HTML, builds the pattern of the tag, and stops at a refused paragraph. An `h2` or `h3` spacer appended before the refusal is kept. |
| Scanner.FindItems | main.py:289-291 | The definition of `re.findall` for `<li\b[^>]*>(.*?)</li>`: the inner spans, left to right, resuming after each match and one character on otherwise. |
| Scanner.CleanAll | main.py:292-299 | The definition of the items mapped through `clean_inner`. |
| Scanner.ListOut | main.py:292-309 | The definition of a list's appends: one bullet list of the cleaned items and a spacer. It is nothing when there are no items or any item paragraph is refused. |
| Scanner.ImageData | main.py:325-332 | The definition of the image bytes. A `data:image` source is base64-decoded after its first comma; without a comma unpacking fails. Any other source is fetched. |
| Scanner.ImageOut | main.py:334-339 | The definition of an image's appends: spacer, 14 cm image, spacer, or nothing when the bytes or the image fail. |
| Patterns.MatchOpenTag | main.py:260 | The definition of `<name\b[^>]*>` with IGNORECASE: the index just past the first `>` after the name. |
| Patterns.MatchElement | main.py:260 | The definition of `<name\b[^>]*>(.*?)</name>` with IGNORECASE and DOTALL: the opening tag, then the first closing tag of that name. |
| Normalizer.Sub | main.py:227-247 | The definition of `re.sub` or `str.replace` for one rule: left to right, each match replaced and scanning resumed after it, other characters copied. |
| Normalizer.MatchBreak | main.py:234 | The definition of `<br\s*/?>` with IGNORECASE at the start of the text. |
| Normalizer.KeptTagAhead | main.py:236 | The definition of the lookahead `/?(?:b\|i\|br/?)\b` after `<`. |
| Normalizer.SafeRef | main.py:247 | The definition of the lookahead `(?:amp\|lt\|gt\|#\d+);` after `&`. |
| Normalizer.TagSteps | main.py:227-236 | The definition of the seven tag rewrites in the source's order. |
| Normalizer.DecodeEntities | main.py:238-245 | The definition of the `str.replace` loop over the twelve table entries, in order. |
| Normalizer.Clean | main.py:224-248 | The definition of `clean_inner`: the tag rewrites, the entity decoding, the escaping of bare `&`, then `strip()`. |
| Fences.StripFences | main.py:146-147 | The definition of the two fence substitutions, in the order of the source. |
| Fences.CleanResponse | main.py:144-147 | The definition of `strip()` followed by the two fence substitutions. |
| PdfExport.WithPlaceholder | main.py:451-452 | The definition of the flowables that are built: the placeholder paragraph alone when there are none. |
| PdfExport.SafeName | main.py:457 | The definition of `re.sub(r"[^\w\-]", "_", name)`, one character at a time. |
| PdfExport.Disposition | main.py:461 | The definition of the `Content-Disposition` value built from the sanitised name. |
| Text.IsSpace | main.py:254 | The definition of `\s`, and of what `strip()` removes: the characters of `str.isspace()`. |
| Text.CiChar | main.py:260 | The definition of IGNORECASE matching of one pattern letter, Python's extra foldings for `i`, `s` and `k` included. |

## Left out

- Python's `\w`, `\b` and `\d` on `str` patterns are Unicode-aware. The model uses their ASCII meaning, because Python's Unicode category tables are not modelled.
  - This affects Patterns.MatchOpenTag, Patterns.MatchElement, Scanner.MatchBlockFrom, Scanner.MatchImg, Normalizer.KeptTagAhead, Normalizer.SafeRef and PdfExport.SafeName.
  - For example, for `<pé>x</p>` Python finds no `\b` after `p`, but the model matches a `p` block.
- Normalizer.CleanEscapesBareAmp: it is stated for one `&` in text with no `<` and no other `&`. An `&` inside a tag is not escaped but removed with the tag, by the span rule (main.py:227) or the tag stripper (main.py:236); `<x &>y` becomes `y`.
- PdfExport.SafeNameAt: `[^\w\-]` keeps non-ASCII letters and digits, which the model replaces by `_`.
- Case-insensitive matching is modelled on the lower-case pattern texts the source uses. It covers ASCII case and Python's extra foldings for `i`, `s` and `k`, and no other Unicode case folding.
- ReportLab, base64 and the network are parameters of `Oracles`:
  - ReportLab's `Paragraph` markup parser becomes `paragraphOk`;
  - `RLImage` becomes `imageOk`;
  - `base64.b64decode` becomes `b64decode`;
  - `urllib.request.urlopen` becomes `fetch`.

  A failure is `false` or `None`. `ListFlowable` and `ListItem` are assumed never to raise once every item paragraph was built.
- Scanner.Oracles: `fetch` is a function of the URL. Two image tags with the same URL are modelled as getting the same bytes, which `urlopen` does not promise. No proved property depends on this.
- Styles (`build_pdf_styles`) are four constants. Page set-up, `doc.build`, pagination and the PDF bytes are not modelled.
- Spacer heights and the image width are integers in hundredths of a centimetre, not floats.
- The other routes, the upload handling, the PowerPoint extraction, the model client and its retry loop are not part of this model.
  - Of `generate_teacher_guide`, only the strip and the two fence substitutions are modelled.
- ExportPdf: a JSON `html` or `file_name` field that is present but not a string is not modelled. A missing field is `None`.
- The `Vocabulary` theorems are stated for a single lower-case tag between two pieces of plain text. The attributes hold no `<`, `>` or `&` and begin with whitespace or `/`. Mixed tags are covered by `Sub` itself, not by a theorem.
  - The reason is that no all-inputs theorem of the form "only `b`, `i` and `br` tags remain" holds of the source.
  - For example, the tag stripper turns `<b<x>x>` into `<bx>`. The first `<` is kept because `b` is followed by a word boundary, and `<x>` is deleted.
  - Likewise `<x <b>` deletes the `<b>` with the tag it sits in.
- The document theorems assume well-formed pieces:
  - ConvertDocument, ScanBlock: no closing tag of the same name inside a block;
  - ScanImage, ImgTagAt: an image source without quotes, and no second `src="` after it.

  Malformed input is covered by the loop's own contract (`HtmlToPlatypus` equals `Convert` for every input) and by ConvertSafe and TurnsBound.
