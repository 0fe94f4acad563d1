# EPUB to PDF conversion, modelled in Dafny

This project models the EPUB pipeline of the converter's
`FileConverter.convert_epub_to_pdf`. The pipeline runs as follows:

- It builds an index from each image path to its image item.
- It decides the order in which chapters are processed: the spine first,
  then every document missing from the spine.
- It concatenates the style sheets.
- It inlines images as `data:` URIs. This happens in `src`, `href` and
  `xlink:href` attributes and in CSS `url(...)` references. The nested
  resolver `_data_uri_for_src` turns each reference into a URI, or into
  nothing.
- It wraps each chapter in an HTML page together with the shared styles.
- It renders each chapter and merges the pages of all chapters into one
  document.

The renderer is a function parameter `render(html, baseUrl)` that yields a
sequence of pages of any type `P`. The book is a value made of manifest
items (identifier, path, media type, kind and bytes) and the spine's item
identifiers.

The modules are:

- `Text`: strings, Python's `str.strip` and `posixpath.basename`, and
  case-insensitive matching as Python's `re.IGNORECASE` does it.
- `Percent`: `urllib.parse.unquote` (section 2.1 of RFC 3986) and a
  percent-encoder that is its partner.
- `Utf8`: UTF-8 decoding with the "replace" and "ignore" error handlers,
  and encoding.
- `Base64`: encoding as in section 4 of RFC 4648, and a decoder that is its
  partner.
- `Epub`: the book as the EPUB reader hands it over.
- `ImageIndex`: the image dictionary. Each path keeps the position where it
  was first inserted and the value assigned last.
- `ImageResolver`: `_data_uri_for_src`.
- `AssetInliner`: the two regular-expression substitutions. Each is modelled
  as a scanner that splits the text into plain characters and matched
  references.
- `Converter`: the reading order, the style loop, the chapter loop, the page
  merge and the whole conversion.

The filename fallback takes the first index entry, in dictionary order,
whose basename matches. This follows the code: the loop over
`images_by_path.items()` returns at the first hit. It is not a rule that
the last image seen wins.

## Model

| member | source | states |
|---|---|---|
| `Epub.ItemsOfKind` | converter.py:150 | the items of a kind are exactly the manifest items of that kind, a sub-multiset kept in manifest order |
| `Epub.ItemsOfKindAppend` | converter.py:150 | selecting from two item lists one after the other gives the selection from the first, then the selection from the second |
| `Epub.ItemsOfKindSingle` | converter.py:150 | a single item is selected exactly when it has the kind |
| `Epub.ItemWithId` | converter.py:148 | finds the first item with the identifier; it yields nothing exactly when no item has it |
| `ImageIndex.Get` | converter.py:163 | a lookup fails exactly when the path is not a key; on success it returns that key's entry |
| `ImageIndex.Put` | converter.py:142 | assigning a key keeps the order of the existing keys, appends a new key at the end, leaves the other entries alone and keeps the keys unique |
| `ImageIndex.GetAfterPut` | converter.py:142 | after an assignment, the key maps to the new item and every other key to what it mapped to before |
| `ImageIndex.GetUnique` | converter.py:163 | with unique keys, a lookup returns the item of the one entry that has the key |
| `ImageIndex.Build` | converter.py:142 | the comprehension over the image items yields a dictionary with unique keys |
| `ImageIndex.LastNamed` | converter.py:142 | reference value for a path: the last image whose backslash-normalised name is that path |
| `ImageIndex.BuildGet` | converter.py:142 | looking a path up in the built index gives the last image with that normalised name |
| `ImageIndex.BuildPaths` | converter.py:142 | the keys of the index are exactly the normalised image names |
| `ImageIndex.FirstPosition` | converter.py:142 | reference position of a key: the first image whose normalised name is that key |
| `ImageIndex.BuildOrderStep` | converter.py:142 | adding one image keeps the existing keys in place and puts a new key after them |
| `ImageIndex.BuildOrder` | converter.py:142 | the index iterates its keys in the order in which they first occur among the images |
| `Text.ReplaceChar` | converter.py:157 | `replace` keeps the length and leaves no occurrence of the replaced character |
| `Text.ReplaceBackslashesAgree` | converter.py:157 | two strings that differ only in `\` against `/` are the same after the replacement |
| `Text.Strip` | converter.py:182 | `strip(' "\'')` never lengthens the value, and what it returns neither starts nor ends with a space or a quote |
| `Text.Basename` | converter.py:169-171 | `os.path.basename` returns no `/` and nothing longer than the path |
| `Text.StripIsMiddle` | converter.py:182 | `strip(' "\'')` returns the middle slice: everything cut off is a stripped character, and the result neither starts nor ends with one |
| `Text.LeadEndCorrect` | converter.py:182 | the leading part that strip removes consists of stripped characters only and stops at the first other character |
| `Text.TrailStartCorrect` | converter.py:182 | the trailing part that strip removes consists of stripped characters only and stops at the last other character |
| `Text.BasenameIsLastSegment` | converter.py:169 | `basename` is the suffix after the last `/`, and it contains no `/` |
| `Percent.UnquoteOfPercentEncode` | converter.py:157 | `unquote` inverts percent-encoding of the UTF-8 bytes, for every string |
| `Percent.Unquote` | converter.py:157 | `unquote` never returns more characters than it was given |
| `Percent.UnquoteOfSelected` | converter.py:157 | `unquote` gives the text back from any spelling of it that percent-encodes a chosen set of its characters, as long as every `%` is among them |
| `Percent.SelectedPrefix` | converter.py:155-157 | a spelling that begins with a prefix without `%` spells a text that begins with that prefix: an escape never stands for the character it starts with |
| `Percent.UnquoteAsciiPrefix` | converter.py:157-159 | an ASCII prefix without `%`, such as `file:///`, comes out of `unquote` as it is and changes nothing after it |
| `Percent.UnquoteSlashes` | converter.py:157 | strings that differ only in `\` against `/` still differ only in that way after `unquote`, escapes included |
| `Percent.UnquoteWithoutPercent` | converter.py:157 | a string without `%` is returned unchanged by `unquote` |
| `Percent.DecodeStepWithoutPercent` | converter.py:157 | without `%`, each step of `unquote` yields exactly the characters it consumes |
| `Percent.AsciiWithoutPercent` | converter.py:157 | an ASCII run without `%` decodes to itself |
| `Percent.PercentBytesOfEncoding` | converter.py:157 | turning `%XX` escapes back into bytes inverts writing bytes as escapes |
| `Percent.UnquoteOfAsciiRun` | converter.py:157 | an all-ASCII string is one run, decoded as the UTF-8 text of its bytes |
| `Percent.PercentEncodeStart` | converter.py:157 | the percent-encoding of a non-empty string is non-empty and starts with `%` |
| `Utf8.RoundTrip` | converter.py:196 | decoding the UTF-8 encoding of any string gives the string back, under either error handler |
| `Utf8.DecodeAscii` | converter.py:196 | bytes below 0x80 decode one character per byte |
| `Utf8.DecodeWellFormedFront` | converter.py:196 | a well-formed leading sequence decodes to its scalar value, followed by the decoding of the rest |
| `Utf8.ScalarOfEncoding` | converter.py:196 | the scalar value of a character's encoding is that character |
| `Utf8.Decode` | converter.py:179 | decoding never yields more characters than there are bytes |
| `Utf8.DecodeSlashes` | converter.py:157 | byte strings that differ only in the bytes of `/` and `\` decode to strings that differ only in those characters |
| `Base64.Encode` | converter.py:165 | the encoding has four characters per group of three bytes, the last group padded |
| `Base64.RoundTrip` | converter.py:165 | decoding the Base64 encoding of any byte string gives those bytes back |
| `Base64.QuadRoundTrip` | converter.py:165 | a full group of three bytes decodes back from its four characters |
| `Base64.OneByteRoundTrip` | converter.py:165 | a final single byte decodes back from its `==`-padded quad |
| `Base64.TwoByteRoundTrip` | converter.py:165 | two final bytes decode back from their `=`-padded quad |
| `Base64.DigitRoundTrip` | converter.py:165 | each of the 64 values is read back from its alphabet character |
| `ImageResolver.Resolve` | converter.py:154-174 | an empty value or a `data:` URI gives no result; any result is the data URI of an index entry |
| `ImageResolver.ResolveEmptyIndex` | converter.py:154-174 | with no images nothing resolves |
| `ImageResolver.ImageKey` | converter.py:161-162 | no key exactly when no case-insensitive `images/` is followed by a character other than `?` and `#`; a key starts with `images/` in any case, has at least one more character and contains neither `?` nor `#` |
| `ImageResolver.RunEnd` | converter.py:161 | the key runs to the first `?` or `#` or to the end |
| `ImageResolver.FirstKeyStart` | converter.py:161 | a position found lies at or after the start and leaves room for `images/` and a key character |
| `ImageResolver.FirstKeyStartCorrect` | converter.py:161 | the search finds the first position where `images/` (any case) is followed by a key character, and finds nothing exactly when there is no such position |
| `ImageResolver.RunEndToEnd` | converter.py:161 | a key run without `?` or `#` reaches the end of the text |
| `ImageResolver.ImageKeyShift` | converter.py:161-162 | text in front in which no key starts does not change the key found |
| `ImageResolver.ResolveNeedsImagesSegment` | converter.py:161-174 | a reference whose normalised form has no such `images/` segment resolves to nothing |
| `ImageResolver.ResolveExact` | converter.py:163-166 | a key present in the index resolves to the data URI of its entry |
| `ImageResolver.ResolvedPayload` | converter.py:165-166 | a resolved URI is `data:<media type>;base64,` followed by text that Base64-decodes to the entry's bytes |
| `ImageResolver.Normalize` | converter.py:157-159 | the normalised reference is no longer than the reference and holds no `\` |
| `ImageResolver.DataUri` | converter.py:155-173 | a returned URI starts with `data:`, so the resolver declines it when it meets it as a reference |
| `ImageResolver.FirstWithBasename` | converter.py:170-173 | finds the first entry in dictionary order with the basename; it finds none exactly when no entry has it |
| `ImageResolver.ResolveFallback` | converter.py:167-174 | a key missing from the index resolves to the first entry with the same basename, and to nothing exactly when no entry has that basename |
| `ImageResolver.ResolveByBasename` | converter.py:167-173 | a missing key whose basename matches an entry resolves to that entry's data URI |
| `ImageResolver.ResolveOfKey` | converter.py:154-174 | two references the resolver considers, whose normalised forms yield the same key, resolve alike |
| `ImageResolver.ResolvePercentEncoded` | converter.py:155-159 | percent-encoding any choice of the characters of a reference without `%` does not change what it resolves to |
| `ImageResolver.ResolveSpellings` | converter.py:155-159 | any two spellings of one text that escape at least its `%` characters resolve alike when the resolver considers both |
| `ImageResolver.ResolveFileScheme` | converter.py:155-159 | a `file:///` prefix in front of any reference the resolver considers does not change what it resolves to |
| `ImageResolver.FileSchemeKey` | converter.py:157-162 | a reference with a `file:///` prefix is considered, and yields the same key as the reference without it, even when the rest begins with a second `file:///` |
| `ImageResolver.ResolveSlashDirection` | converter.py:155-159 | a reference the resolver considers resolves like any reference that differs from it only in `\` against `/`, also inside escapes such as `%5C` |
| `ImageResolver.CaseMismatchFallsBackToFilename` | converter.py:167-173 | `Images/<file>` resolves to the image stored as `images/<file>` through the filename fallback |
| `ImageResolver.CaseMismatchMissesExact` | converter.py:163 | `Images/<file>` is not an exact key of an index holding `images/<file>` |
| `ImageResolver.CaseMismatchSameBasename` | converter.py:169-171 | the first entry with the basename of `Images/<file>` is `images/<file>` |
| `ImageResolver.CapitalisedKey` | converter.py:161-162 | the key extracted from `Images/<file>` is the whole reference, with its case kept |
| `ImageResolver.PlainPathNormal` | converter.py:157-159 | `Images/<file>` with a plain file name is left as it is by the normalisation |
| `ImageResolver.WholeKey` | converter.py:161-162 | a reference that starts with `images/` in any case and has no `?` or `#` is its own key |
| `ImageResolver.BasenameOfPlain` | converter.py:169 | the basename of `<dir>/<file>` is `<file>` |
| `ImageResolver.SingleImageIndex` | converter.py:142 | an index of one image holds exactly that image under its name |
| `AssetInliner.CloseParen` | converter.py:188 | `[^)]+` runs to the first `)` or to the end |
| `AssetInliner.UrlMatchUnique` | converter.py:188 | at a given position the CSS pattern matches with at most one end |
| `AssetInliner.UrlMatchEnd` | converter.py:188 | returns the end of the CSS match at a position when there is one, and nothing when no end matches |
| `AssetInliner.ScanCssOriginal` | converter.py:188 | the pieces of the CSS scan spell out the scanned text exactly |
| `AssetInliner.ScanCssPieces` | converter.py:188 | every `url(...)` piece of the scan is a genuine match whose value is the group between the parentheses |
| `AssetInliner.ScanCssWithoutUrl` | converter.py:188 | a text without a case-insensitive `url(` is scanned as plain characters only |
| `AssetInliner.ScanCssExact` | converter.py:188 | the CSS scan finds every match, leftmost first and without overlap: where the pattern matches, the piece is the whole match with its stripped group and the scan resumes after it; elsewhere the piece is one character |
| `AssetInliner.CssExactUnique` | converter.py:188 | no other cutting of the text meets that description: the matches the CSS substitution replaces are exactly those of the scan |
| `AssetInliner.RewrittenUnresolved` | converter.py:181-187 | when no reference resolves, writing the pieces back gives the original text |
| `AssetInliner.RewritePiece` | converter.py:181-221 | a plain character, and a match the resolver declines, are written back exactly as they were matched (`match.group(0)`) |
| `AssetInliner.SubCssUrlsEmptyIndex` | converter.py:181-188 | with no images the CSS substitution changes nothing |
| `AssetInliner.SubCssUrlsWithoutUrl` | converter.py:181-188 | a text without `url(` is left unchanged |
| `AssetInliner.SubCssUrlsSingle` | converter.py:181-188 | `url(v)` becomes `url("<uri>")` when the stripped value resolves, and stays as it is otherwise |
| `AssetInliner.NameEndCorrect` | converter.py:209 | finds `src`, `href` or `xlink:href`, in any case, at a position, and finds nothing exactly when none of them is there |
| `AssetInliner.NameMatchUnique` | converter.py:209 | at most one attribute name matches at a position |
| `AssetInliner.SpaceEndCorrect` | converter.py:209 | the `\s*` run covers white space only and stops at the first other character |
| `AssetInliner.QuoteEndCorrect` | converter.py:209 | the value run contains no quote and stops at the first quote |
| `AssetInliner.AttrMatchUnique` | converter.py:209 | the attribute pattern matches at a position in at most one way |
| `AssetInliner.AttrMatchAt` | converter.py:209 | the parts of a match lie in order inside the text |
| `AssetInliner.AttrMatchAtCorrect` | converter.py:208-212 | the attribute matcher finds the match at a position when there is one, and nothing when there is none |
| `AssetInliner.AttrNoEquals` | converter.py:209 | no match when the name is not followed by optional white space and `=` |
| `AssetInliner.AttrNoQuote` | converter.py:209 | no match when `=` is not followed by optional white space and a quote |
| `AssetInliner.AttrNoValue` | converter.py:209 | no match when the value is empty or the closing quote differs from the opening one (the back-reference `\2`) |
| `AssetInliner.ScanAttrsOriginal` | converter.py:208-213 | the pieces of the attribute scan spell out the scanned text exactly |
| `AssetInliner.ScanAttrsPieces` | converter.py:208-213 | every attribute piece of the scan is a genuine match with its name, quote and value groups |
| `AssetInliner.ScanAttrsExact` | converter.py:208-213 | the attribute scan finds every match, leftmost first and without overlap: where the pattern matches, the piece is that match with its groups and the scan resumes after it; elsewhere the piece is one character |
| `AssetInliner.AttrExactUnique` | converter.py:208-213 | no other cutting of the text meets that description: the matches the attribute substitution replaces are exactly those of the scan |
| `AssetInliner.AttrPieceParts` | converter.py:199-201 | a piece's text is its name, then the `=` assignment, then the quoted value |
| `AssetInliner.SubAttrsEmptyIndex` | converter.py:198-213 | with no images the attribute substitution changes nothing |
| `AssetInliner.LoneAttrMatch` | converter.py:209 | `<name><ws>=<ws><q><v><q>`, the name in any case, matches the attribute pattern as a whole |
| `AssetInliner.LoneAttrScan` | converter.py:208-213 | such a text is scanned as one attribute piece with that name, quote and value |
| `AssetInliner.SubAttrsSingle` | converter.py:198-213 | a lone attribute, its name in any case, becomes `<name>=<q><uri><q>` when its value resolves (name and quote kept, white space around `=` dropped), and stays as it is otherwise |
| `Converter.Unlisted` | converter.py:150-152 | the appended documents are exactly the documents whose name is not a spine name, a sub-multiset in manifest order |
| `Converter.UnlistedAppend` | converter.py:150-152 | the loop over two document lists one after the other appends the documents of the first, then those of the second |
| `Converter.UnlistedLast` | converter.py:150-152 | one more document at the end is appended after the others exactly when its name is not a spine name |
| `Converter.UnlistedSingle` | converter.py:150-152 | a single document is appended exactly when its name is not a spine name |
| `Converter.UnlistedStep` | converter.py:150-152 | one loop step appends the document exactly when its name is not among the spine names |
| `Converter.SpineItems` | converter.py:148 | one entry per spine identifier, in spine order: the manifest item with that identifier, and `None` exactly when no item has it |
| `Converter.ItemsToProcess` | converter.py:148-152 | the loop builds the spine lookups followed by the unlisted documents |
| `Converter.ProcessingOrderShape` | converter.py:148-152 | in `items_to_process` (`ProcessingOrder`) the first entries are the spine lookups in spine order; every later entry is a present manifest document whose name is not a spine name |
| `Converter.SpineNamesMeaning` | converter.py:149 | a name is in `spine_hrefs` (`SpineNames`) exactly when some spine entry was found and has that name |
| `Converter.DocumentAppendedIff` | converter.py:150-152 | a manifest document is appended exactly when its name is not a spine name |
| `Converter.DocumentsAllProcessed` | converter.py:148-152 | every manifest document has its name somewhere in the processing order |
| `Converter.ItemsOfKindDistinct` | converter.py:150 | selecting by kind keeps the items distinct |
| `Converter.UnlistedDistinct` | converter.py:150-152 | the appended documents are distinct when the documents are |
| `Converter.AppendedAtMostOnce` | converter.py:150-152 | with distinct manifest items, each document is appended at most once |
| `Converter.Present` | converter.py:192-193 | skipping missing entries keeps exactly the items that are there |
| `Converter.PresentAppend` | converter.py:192-193 | skipping distributes over concatenation |
| `Converter.PresentOfMissing` | converter.py:192-193 | a list of missing entries renders nothing |
| `Converter.PresentWrap` | converter.py:192-193 | a list of present items is rendered entirely |
| `Converter.RenderedItems` | converter.py:191-193 | the rendered items are the spine items that were found, then the appended documents |
| `Converter.PresentEmpty` | converter.py:192-193 | nothing is rendered exactly when every entry is missing |
| `Converter.SpineItemsMissing` | converter.py:148 | no spine item is found exactly when every spine identifier is unknown |
| `Converter.SpineNamesOfMissing` | converter.py:149 | when no spine item is found there are no spine names |
| `Converter.AppendedWithoutSpine` | converter.py:150-152 | with no spine item found, nothing is appended exactly when there are no documents |
| `Converter.NothingToRender` | converter.py:148-193 | nothing is rendered exactly when no spine identifier is known and there is no document |
| `Converter.CollectStyles` | converter.py:176-179 | the loop's `+=` computes `JoinStyles`: the decoded style sheets joined in manifest order |
| `Converter.JoinStylesOfEncoded` | converter.py:178-179 | style sheets stored as UTF-8 are joined back to their texts, in order |
| `Converter.SharedStylesEmptyIndex` | converter.py:176-188 | with no images the shared styles (`SharedStyles`) are the joined style sheets, unchanged |
| `Converter.ChapterContentEmptyIndex` | converter.py:196-223 | with no images a chapter's inlined text (`ChapterContent`) is its decoded bytes, unchanged |
| `Converter.ChapterHtml` | converter.py:226 | the page's length is that of its five parts |
| `Converter.ChapterHtmlParts` | converter.py:226 | the page reads back as the opening tags, the styles, the middle tags, the content and the closing tags |
| `Converter.RenderAll` | converter.py:226-231 | one rendered document per item, in order, each the rendering of that chapter's page (`RenderChapter`) |
| `Converter.RenderChapters` | converter.py:191-231 | the loop skips missing entries and renders each present item's page in order |
| `Converter.FlattenAppend` | converter.py:236 | merging distributes over concatenating document lists |
| `Converter.FlattenLength` | converter.py:236 | the merged page list (`Flatten`) holds as many pages as all chapters together |
| `Converter.FlattenAt` | converter.py:236 | page `i` of chapter `k` is at position "pages of the chapters before `k`" plus `i` |
| `Converter.MergePages` | converter.py:236-237 | fails with an index error exactly when no document was rendered; otherwise holds the sum of the page counts |
| `Converter.ConvertEpubToPdf` | converter.py:138-239 | the whole method computes `Convert`, the conversion as a function of the book, the base URL and the renderer |
| `Converter.ConvertFailsIffNothingToRender` | converter.py:237 | the conversion fails exactly when no spine identifier is known and the book has no document |
| `Converter.ConvertPages` | converter.py:236-237 | a book with a rendered chapter merges; the merged pages are every chapter's pages in processing order |

## Left out

- The Qt interface is not modelled: widgets, dialogs, the log handler, the worker thread and `QApplication.processEvents`. It is UI and concurrency.
- The GTK/MSYS2 path probing and the fontconfig setup are not modelled. They are environment set-up.
- `convert_txt_to_pdf` is not modelled. It is file I/O around a one-line HTML wrap.
- Logging calls are not modelled. They only have side effects.
- Reading the EPUB container (`epub.read_epub`) is not modelled. The manifest items and spine identifiers are inputs.
- The renderer is a parameter. Its own failures, its reading of `base_url`, and the metadata `documents[0].copy` takes from the first document are not modelled. The directory of the input path is the parameter `baseUrl`.
- Writing the PDF file (`write_pdf`) is not modelled. The result is the merged page sequence.
- `AssetInliner.AttrMatchAtCorrect`: for the leading `\b`, only ASCII letters, digits and `_` count as word characters. Python's `\w` also covers non-ASCII letters and digits.
- `ImageResolver.ResolvePercentEncoded`: the reference must not contain `%`. `unquote` turns a literal `%` followed by two hexadecimal digits into a byte, so such a reference is not its own decoding. `ImageResolver.ResolveSpellings` covers texts with `%`, spelled with every `%` escaped.
- `Text.BasenameIsLastSegment`: `os.path.basename` is modelled as the POSIX basename. Windows drive prefixes and `\` separators are not treated specially, though backslashes have already become `/` by then.
- `debug_epub.py` is not part of this model. It is a diagnostic script.
