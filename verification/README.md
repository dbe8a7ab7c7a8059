# zhihu_neovim core in Dafny

This is a Dafny model of the pure core of the two Rust crates of `zhihu_neovim`. The model has four parts.

- **`chrome_cookie` decryptors.** This covers the Chrome cookie envelope:
  - a three-byte `v10`/`v11` version tag;
  - a PBKDF2 key (password, `saltysalt`, 1003 or 1 iterations);
  - AES-128-CBC with sixteen spaces as IV and PKCS#7 padding (section 6.3 of RFC 5652, CBC as in section 6.2 of NIST SP 800-38A);
  - lossy UTF-8 decoding;
  - the Linux trimming of trailing NUL and backtick characters.

  It also covers the `DPAPI` blob slicing of `get_master_key`, the per-row fallback rule of the batch readers, and `encrypt_aes128_cbc_pkcs7`, the inverse the tests use.
- **`markdown_to_html` event processor.** `MarkdownEventProcessor` rewrites the pulldown-cmark event stream one event at a time. It threads three pieces of state through the stream: an image, a code block and a table. It emits the Zhihu-specific HTML for math, images, code blocks and tables.
- **`clean_html_structure` passes.** There are three passes over the parsed document:
  - remove a `<p>` around a lone inline element;
  - move lists nested in an `<li>` out to follow it;
  - trim line feeds in text nodes.

Files:
- `wrappers.dfy`: `Option`, `Result`.
- `utf8.dfy`: `str::as_bytes` (UTF-8 encoding, RFC 3629).
- `strings.dfy`: the `trim_*_matches`/`replace` helpers.
- `crypto.dfy`: the library primitives, as function values.
- `pkcs7.dfy`, `cbc.dfy`: padding and chaining.
- `cookie.dfy`, `cookie_roundtrip.dfy`: the decryptors and their round trips.
- `markdown_state.dfy`, `markdown_html.dfy`, `markdown_events.dfy`, `markdown_streams.dfy`: the event processor.
- `dom.dfy`, `cleaner_unwrap.dfy`, `cleaner_lists.dfy`, `cleaner_text.dfy`, `cleaner.dfy`: the cleaner.

AES, PBKDF2-HMAC-SHA1, AES-GCM and `String::from_utf8_lossy` are fields of a `Crypto.Primitives` value. Every operation is therefore stated for any primitives. The lemmas that need facts about the primitives ask for them through `Crypto.Valid`:
- block decryption inverts block encryption;
- lossy decoding of a UTF-8 encoding gives the text back;
- lossy decoding is empty only for empty input.

The DOM is an immutable tree `Dom.Node(data, children)`. The source's passes first collect nodes, then mutate them through `Rc` handles. The model states that two-phase behaviour as one rebuild of the tree, with every test made on the tree as collected.

## Model

| member | source | states |
|---|---|---|
| `Pkcs7.Pad` | crates/chrome_cookie/src/encrypt.rs:17-19 | padding adds 1 to 16 bytes, each equal to the count added, so the length is 16 * (\|p\| / 16 + 1), even for empty input; the plaintext is a prefix |
| `Pkcs7.Unpad` | crates/chrome_cookie/src/lib.rs:182-184 | unpadding succeeds exactly on data ending in k copies of the byte k (1 <= k <= 16), and then returns the data without those k bytes |
| `Pkcs7.UnpadPad` | crates/chrome_cookie/src/encrypt.rs:17-19 | unpadding the padded plaintext gives the plaintext back |
| `Pkcs7.PadUnpad` | crates/chrome_cookie/src/lib.rs:182-184 | block-aligned data that unpads is the padding of what it unpads to |
| `Cbc.DecryptEncryptBlocks` | crates/chrome_cookie/src/encrypt.rs:17-19 | CBC decryption under the same key and IV inverts CBC encryption on block-aligned data, given that block decryption inverts block encryption |
| `Cbc.EncryptDecryptBlocks` | crates/chrome_cookie/src/lib.rs:182-184 | CBC encryption inverts CBC decryption on block-aligned data |
| `Cbc.EncryptCbcPkcs7` | crates/chrome_cookie/src/encrypt.rs:17-19 | `encrypt_aes128_cbc_pkcs7`: the ciphertext is 16 * (\|p\| / 16 + 1) bytes long |
| `Cbc.DecryptCbcPkcs7` | crates/chrome_cookie/src/lib.rs:180-184 | `decrypt_vec` succeeds only on non-empty block-aligned input and returns at most 16 and at least 1 byte less |
| `Cbc.DecryptEncrypt` | crates/chrome_cookie/src/encrypt.rs:17-19 | decrypting the encryption of any plaintext under the same key and IV returns that plaintext |
| `Cbc.EncryptDecrypt` | crates/chrome_cookie/src/lib.rs:178-184 | whatever decrypts is the encryption of what it decrypts to |
| `Utf8.EncodeChar` | crates/chrome_cookie/src/lib.rs:176 | a character encodes to 1 to 4 bytes, and to the one byte of its code point exactly when it is ASCII |
| `Utf8.EncodeAppend` | crates/chrome_cookie/src/lib.rs:176 | `as_bytes` of a concatenation is the concatenation of the encodings |
| `Utf8.EncodeAscii` | crates/chrome_cookie/src/lib.rs:166-168 | on ASCII text, `as_bytes` gives one byte per character holding its code, as a byte-string literal does |
| `ChromeCookie.AsciiConstants` | crates/chrome_cookie/src/lib.rs:166-168 | the tag, salt and IV bytes are those of `b"v10"`, `b"saltysalt"` and sixteen spaces, and the `v11` tag (line 217) and `DPAPI` marker (line 143) those of their ASCII text |
| `ChromeCookie.LegacyKeyDerivation` | crates/chrome_cookie/src/lib.rs:167-176 | `LegacyKey` is PBKDF2 over the UTF-8 bytes of the password, with the salt `saltysalt` and 1003 iterations, giving 16 bytes |
| `ChromeCookie.LinuxKeyDerivation` | crates/chrome_cookie/src/lib.rs:194-200 | `DeriveLinuxKey` (`derive_linux_key`) is PBKDF2 over the UTF-8 bytes of the password, with the salt `saltysalt` and one iteration, giving 16 bytes |
| `ChromeCookie.DecryptMacosLegacy` | crates/chrome_cookie/src/lib.rs:162-192 | `Ok(None)` without decrypting unless the input is longer than 3 bytes and starts with `v10`; otherwise CBC failure is `Err(DecryptionFailed)`, never `Ok`, and an empty decoding is `Ok(None)`; a `Some` value is non-empty |
| `ChromeCookie.DecryptLinux` | crates/chrome_cookie/src/lib.rs:204-241 | `Ok(None)` unless longer than 3 bytes with a `v10` or `v11` tag; the bytes after the tag are decrypted under the 1-iteration key and the 16-space IV; failure is `Err(DecryptionFailed)`; a `Some` value is non-empty and does not end in NUL or backtick |
| `ChromeCookie.DecryptChromeCookie` | crates/chrome_cookie/src/lib.rs:244-260 | macOS uses the legacy decryptor, Linux the Linux one, any other platform fails with `UnsupportedPlatform` |
| `ChromeCookie.GetCookieValue` | crates/chrome_cookie/src/lib.rs:262-278 | no matching row is `Ok(None)`; a row is decrypted with the legacy decryptor on every platform |
| `ChromeCookie.StripDpapi` | crates/chrome_cookie/src/lib.rs:143-145 | the `DPAPI` marker is removed exactly when present |
| `ChromeCookie.GetMasterKey` | crates/chrome_cookie/src/lib.rs:143-156 | the key is the first 16 bytes of the GCM plaintext of bytes [15..) with nonce [3..15) of the stripped blob; GCM failure is `DecryptionFailed` |
| `ChromeCookie.MasterKeyIgnoresDpapiMarker` | crates/chrome_cookie/src/lib.rs:143-149 | prefixing an unmarked blob with `DPAPI` does not change the master key |
| `ChromeCookie.MasterKeyFromSlices` | crates/chrome_cookie/src/lib.rs:148-156 | two blobs whose stripped forms agree on the nonce bytes [3..15) and on everything from byte 15 give the same master key |
| `ChromeCookie.MasterKeyIgnoresVersionBytes` | crates/chrome_cookie/src/lib.rs:148-149 | the three bytes before the nonce are never read |
| `ChromeCookie.RowValue` | crates/chrome_cookie/src/lib.rs:292-299 | a blob of at most 3 bytes, or one that decrypts to `None`, falls back to its lossy decoding; a decryption error is propagated |
| `ChromeCookie.ReadRows` | crates/chrome_cookie/src/lib.rs:288-302 | one `(name, value)` per row in row order when every row succeeds, otherwise the error of the first failing row |
| `ChromeCookie.GetCookies` | crates/chrome_cookie/src/lib.rs:306-328 | the batch outcome over the rows with the platform decryptor |
| `ChromeCookie.GetCookiesForHost` | crates/chrome_cookie/src/lib.rs:280-303 | the batch outcome over the rows with the legacy decryptor, whatever the platform |
| `CookieRoundTrip.Envelope` | crates/chrome_cookie/tests/chrome_cookie_test.rs:63-67 | the test envelope carries the tag and then exactly the CBC ciphertext |
| `CookieRoundTrip.LegacyRoundTrip` | crates/chrome_cookie/tests/chrome_cookie_test.rs:102-126 | the legacy decryptor on `v10` + encryption under PBKDF2(pw, saltysalt, 1003) of a non-empty text returns that text |
| `CookieRoundTrip.LegacyEmptyIsNone` | crates/chrome_cookie/src/lib.rs:186-191 | an envelope of the empty plaintext gives `Ok(None)` |
| `CookieRoundTrip.LegacyPassesOverV11` | crates/chrome_cookie/src/lib.rs:171-173 | the legacy decryptor gives `Ok(None)` on any `v11` input |
| `CookieRoundTrip.LinuxRoundTrip` | crates/chrome_cookie/tests/chrome_cookie_test.rs:58-91 | the Linux decryptor on `v10` or `v11` + encryption under the Linux key of a text followed by NUL/backtick padding returns the text |
| `CookieRoundTrip.LinuxTagsAgree` | crates/chrome_cookie/src/lib.rs:212-220 | `v10` and `v11` are treated identically |
| `CookieRoundTrip.LinuxTestScenario` | crates/chrome_cookie/tests/chrome_cookie_test.rs:58-73 | the "peanuts" / "test chrome cookie v10" scenario decrypts to its plaintext |
| `CookieRoundTrip.LegacyDecryptSound` | crates/chrome_cookie/src/lib.rs:171-191 | every legacy `Some` value is the decoding of a plaintext whose `v10` envelope is the input |
| `CookieRoundTrip.LinuxDecryptSound` | crates/chrome_cookie/src/lib.rs:213-240 | every Linux `Some` value is the trimmed decoding of a plaintext whose `v10`/`v11` envelope is the input |
| `CookieRoundTrip.DecryptorsUseOnlyTheKey` | crates/chrome_cookie/src/lib.rs:175-176 | the decryptors read the password only through the derived key |
| `MarkdownState.Reset` | crates/markdown_to_html/src/lib.rs:43-45 | every table field is back at its default |
| `MarkdownState.StartCollecting` | crates/markdown_to_html/src/lib.rs:47-51 | collecting is on, headers and rows are empty, the other fields are untouched |
| `MarkdownState.AddCellContent` | crates/markdown_to_html/src/lib.rs:53-55 | the text goes to the end of the open cell, nothing else changes |
| `MarkdownState.FinishCell` | crates/markdown_to_html/src/lib.rs:57-64 | the open cell's text is appended to the headers in the head and to the open row elsewhere; the open cell is then empty |
| `MarkdownState.FinishRow` | crates/markdown_to_html/src/lib.rs:66-70 | outside the head, a non-empty open row is appended to the rows and emptied; otherwise nothing changes |
| `MarkdownHtml.Equation` | crates/markdown_to_html/src/lib.rs:119 | the equation has no line feed or carriage return and keeps every other character with its count |
| `MarkdownHtml.EquationInOrder` | crates/markdown_to_html/src/lib.rs:119 | the equation is built character by character in input order: the equation of a concatenation is the concatenation of the equations, and a single character is dropped exactly when it is a line feed or carriage return |
| `MarkdownHtml.MathImgShape` | crates/markdown_to_html/src/lib.rs:118-138 | `MathImg` (`process_math`): the cleaned equation (followed by two backslashes for display math) is both the `tex` of `src` and the `alt`, and holds no line break |
| `MarkdownHtml.TrimWhitespaceSlice` | crates/markdown_to_html/src/lib.rs:169 | the result is a slice of the input with only whitespace outside it and no whitespace at either end |
| `MarkdownHtml.BodyRowsAppend` | crates/markdown_to_html/src/lib.rs:211-217 | rows render one after another, in order |
| `MarkdownHtml.TableShape` | crates/markdown_to_html/src/lib.rs:196-221 | `TableHtml` (the string `process_table` builds): the table starts and ends with the fixed tags and has a header row exactly when there are headers |
| `MarkdownHtml.AppendRow` | crates/markdown_to_html/src/lib.rs:203-216 | the loop over cells builds `<tr>`, each cell wrapped, `</tr>` |
| `MarkdownHtml.ProcessTable` | crates/markdown_to_html/src/lib.rs:196-221 | the loops of `process_table` build the table from the header row and the rows in order |
| `MarkdownEvents.ProcessTextSpec` | crates/markdown_to_html/src/lib.rs:187-194 | `ProcessText` (`process_text`): inside a code block the text is unchanged; outside it becomes HTML of the same length with each line feed replaced by a space |
| `MarkdownEvents.ProcessSoftBreak` | crates/markdown_to_html/src/lib.rs:179-185 | a line feed inside a code block, a space outside |
| `MarkdownEvents.CodeLangTrimmed` | crates/markdown_to_html/src/lib.rs:167-170 | empty for an indented block; for a fenced one, the info string with only whitespace cut from each end, starting and ending with non-whitespace |
| `MarkdownEvents.ProcessCodeBlockStart` | crates/markdown_to_html/src/lib.rs:165-172 | sets the code block active and emits `<pre lang="L">` |
| `MarkdownEvents.ProcessCodeBlockEnd` | crates/markdown_to_html/src/lib.rs:174-177 | clears the code block and emits `</pre>` |
| `MarkdownEvents.ProcessImageStart` | crates/markdown_to_html/src/lib.rs:140-144 | stores the URL and an empty alt, emits a blank |
| `MarkdownEvents.ProcessImageAltText` | crates/markdown_to_html/src/lib.rs:146-151 | the text goes to the end of the alt |
| `MarkdownEvents.ProcessImageEnd` | crates/markdown_to_html/src/lib.rs:153-163 | one `<img>` from the URL and the alt; both are cleared |
| `MarkdownEvents.Step` | crates/markdown_to_html/src/lib.rs:228-272 | an image start opens the image, an image end closes it, every other event leaves it as it is; URL and alt stay set together |
| `MarkdownEvents.StepRouting` | crates/markdown_to_html/src/lib.rs:231-241 | text goes to an open image first, then to an open table, and only otherwise through `process_text`; soft breaks go through `process_soft_break`; unhandled events pass through unchanged |
| `MarkdownEvents.NestedImageUnhandled` | crates/markdown_to_html/src/lib.rs:153-155 | the events of `![a ![b](/u)](/v)`, an image inside an image's description, reach an `End(Image)` with no open image, where the source's `unwrap` panics |
| `MarkdownEvents.Run` | crates/markdown_to_html/src/lib.rs:228-272 | one output event per input event, and the image is open at the end exactly as the stream's image tags say |
| `MarkdownStreams.RunAppend` | crates/markdown_to_html/src/lib.rs:228 | processing a concatenated stream processes the first part and continues from its final state |
| `MarkdownStreams.TableRendered` | crates/markdown_to_html/src/lib.rs:242-270 | a table whose cells are plain text, one `Text` event each, gives blanks and then the `process_table` HTML of its header cells and rows, and leaves the processor as found |
| `MarkdownStreams.InlineCellEscapes` | crates/markdown_to_html/src/lib.rs:237-240 | inline code in a cell is not collected: the cell is recorded empty and the code event is passed on by itself, ahead of the table's HTML |
| `MarkdownStreams.EmptyCellSteps` | crates/markdown_to_html/src/lib.rs:266-270 | an empty cell, for which pulldown-cmark reports no `Text` event, is recorded as the cell `""` |
| `MarkdownStreams.ImageRendered` | crates/markdown_to_html/src/lib.rs:231-233 | an image's events give blanks and then one `<img>` whose caption is its text in order, in any state, even inside a table |
| `MarkdownStreams.CodeBlockRendered` | crates/markdown_to_html/src/lib.rs:234-241 | a code block's events give `<pre lang>`, its text unchanged, and `</pre>` |
| `UnwrapPass.Unwrap` | crates/markdown_to_html/src/cleaner.rs:29-36 | the first two passes keep the root and the number of its children; the root is never replaced, since it has no parent |
| `UnwrapPass.UnwrapChildren` | crates/markdown_to_html/src/cleaner.rs:131-173 | each child stays at its index; a `<p>` whose lone child is `img`/`a`/`span`/`code`/`em`/`strong` is replaced by that child, any other keeps its data |
| `UnwrapPass.UnwrapSize` | crates/markdown_to_html/src/cleaner.rs:165-173 | each collected `<p>` removes exactly one node, itself |
| `UnwrapPass.UnwrapText` | crates/markdown_to_html/src/cleaner.rs:165-173 | no text is lost or reordered |
| `UnwrapPass.UnwrapIdentityIff` | crates/markdown_to_html/src/cleaner.rs:131-162 | the pass changes the tree exactly when some `<p>` qualifies |
| `ListPass.InsertEachReverses` | crates/markdown_to_html/src/cleaner.rs:117-126 | inserting the lists one after another right after the `<li>` reverses them |
| `ListPass.Collected` | crates/markdown_to_html/src/cleaner.rs:72-107 | `collect_nested_lists` gathers only `<ul>`/`<ol>` elements |
| `ListPass.RestructureAsWritten` | crates/markdown_to_html/src/cleaner.rs:56-128 | `restructure_nested_lists` as written: afterwards no `<li>` whose parent is a list has a list child, and the tree holds the same nodes as before |
| `ListPass.Restructure` | crates/markdown_to_html/src/cleaner.rs:56-128 | the same pass with the moved lists in document order keeps the same two guarantees |
| `ListPass.CollectedEmptyIff` | crates/markdown_to_html/src/cleaner.rs:72-107 | the collection finds nothing exactly when no `<li>` of a list has a list child |
| `ListPass.HoistFlat` | crates/markdown_to_html/src/cleaner.rs:56-69 | after the pass no `<li>` whose parent is a list has a list child |
| `ListPass.HoistFixesFlat` | crates/markdown_to_html/src/cleaner.rs:56-69 | a tree with nothing to collect is left unchanged |
| `ListPass.HoistIdentityIff` | crates/markdown_to_html/src/cleaner.rs:56-107 | the pass changes a tree exactly when there is something to collect in it |
| `ListPass.HoistIdempotent` | crates/markdown_to_html/src/cleaner.rs:56-69 | running the pass again changes nothing |
| `ListPass.PassLeavesNothingToCollect` | crates/markdown_to_html/src/cleaner.rs:65-68 | the recursive calls on the children find nothing more to move |
| `ListPass.HoistLabels` | crates/markdown_to_html/src/cleaner.rs:110-128 | the multiset of node data is unchanged: nothing is dropped or duplicated |
| `ListPass.RestructureText` | crates/markdown_to_html/src/cleaner.rs:110-128 | for items whose nested lists end the item, line-feed text nodes aside, such as tight sub-lists and the repository's tests, the corrected pass keeps the text in document order, line feeds aside |
| `ListPass.LooseItemNotNested` | crates/markdown_to_html/src/cleaner.rs:110-128 | a loose item with a paragraph after its sub-list, `- a\n  - b\n\n  c` as the renderer writes it, is not such an item |
| `ListPass.ParagraphAfterSubListMoved` | crates/markdown_to_html/src/cleaner.rs:110-128 | on that item, line feeds left out, either placement puts the sub-list after the paragraph "c": the text "abc" comes out "acb" |
| `ListPass.RenderedSubListNested` | crates/markdown_to_html/src/cleaner.rs:110-128 | a sub-list as the HTML renderer writes it, `<li>a\n<ul>...</ul>\n</li>` with its line-feed text nodes, meets that condition, and the corrected pass keeps its text in order |
| `ListPass.HoistAgree` | crates/markdown_to_html/src/cleaner.rs:117-126 | when no `<li>` holds two lists, the source's placement equals the document-order one |
| `ListPass.AsWrittenSwapsSubLists` | crates/markdown_to_html/src/cleaner.rs:117-126 | an `<li>` with sub-lists x then y reads "ayx" after the source's pass and "axy" after the corrected one |
| `ListPass.FourLevelsRestructured` | crates/markdown_to_html/tests/markdown_to_html_test.rs:47-58 | the list structure of the four-level ordered and unordered nested-list tests (elements and item texts, without the line-feed text nodes between elements) comes out of either version of the pass with every sub-list right after the item that held it, as the tests expect |
| `TextPass.CleanContents` | crates/markdown_to_html/src/cleaner.rs:178-199 | the old text is line feeds, then the cleaned text, then line feeds, with nothing cut in front unless the node follows a `<code>`; the result does not end with a line feed and, after a `<code>`, does not start with one |
| `TextPass.ContentsKeepText` | crates/markdown_to_html/src/cleaner.rs:178-199 | only line feeds are removed: with every line feed taken out, old and new contents are the same string |
| `TextPass.CleanNode` | crates/markdown_to_html/src/cleaner.rs:176-218 | `clean_text_nodes` keeps every node in place: text nodes stay text nodes, other nodes keep their data, and each node keeps its number of children |
| `TextPass.CleanNodeKeepsText` | crates/markdown_to_html/src/cleaner.rs:176-218 | the pass removes nothing but line feeds: line feeds aside, the text of the tree is unchanged and in the same order |
| `TextPass.CleanChildren` | crates/markdown_to_html/src/cleaner.rs:184-217 | only text node contents change |
| `TextPass.CleanNodeClean` | crates/markdown_to_html/src/cleaner.rs:176-218 | after the pass no text node ends with a line feed and none right after a `<code>` starts with one |
| `TextPass.CleanIdentityIff` | crates/markdown_to_html/src/cleaner.rs:176-218 | the pass changes a tree exactly when it is not already clean |
| `TextPass.CleanIdempotent` | crates/markdown_to_html/src/cleaner.rs:176-218 | running the pass again changes nothing |
| `Cleaner.CleanKeepsFlat` | crates/markdown_to_html/src/cleaner.rs:38-42 | text cleaning keeps the list structure the list pass produced |
| `Cleaner.CleanHtmlStructure` | crates/markdown_to_html/src/cleaner.rs:29-42 | the pipeline with the corrected list placement (see Findings): the cleaned document has no list directly inside an `<li>` of a list and only clean text nodes |
| `Cleaner.UnwrapKeepsNesting` | crates/markdown_to_html/src/cleaner.rs:29-36 | unwrapping `<p>` elements neither creates nor removes text after a nested list, nor a second list in an `<li>` |
| `Cleaner.CleanHtmlStructureKeepsText` | crates/markdown_to_html/src/cleaner.rs:29-42 | with the corrected list placement, when every `<li>` of the parsed document ends with its nested lists, line feeds aside (tight sub-lists, the repository's tests), the cleaned document reads as the parsed one, line feeds aside |
| `Cleaner.CleanHtmlStructureAsWrittenKeepsText` | crates/markdown_to_html/src/cleaner.rs:29-42 | the same for the source's own placement, on documents where no `<li>` holds two or more lists |
| `Cleaner.CleanHtmlStructureAsWritten` | crates/markdown_to_html/src/cleaner.rs:29-42 | the same passes with the source's list placement |
| `Cleaner.CleanedIsStable` | crates/markdown_to_html/src/cleaner.rs:38-42 | on the output of the corrected pipeline, the list and text passes do nothing more on a cleaned document |
| `Cleaner.AsWrittenAgrees` | crates/markdown_to_html/src/cleaner.rs:38-39 | the source's and the corrected pipeline agree unless some `<li>` holds two or more lists |

## Left out

- The Lua module entry points of both crates: they are foreign-interface plumbing.
- Keychain commands, `HOME` and `Local State` file reads, JSON parsing and base64 decoding in the password and master-key getters: this is OS and I/O work. Their results are the parameters `password` and `blob`.
- SQLite access: the query result is the parameter `rows` (or `row`), and `?` on SQLite errors is not modelled.
- The AES block cipher, PBKDF2-HMAC-SHA1, AES-GCM and `String::from_utf8_lossy`: these are library primitives, given as `Crypto.Primitives` fields. The PBKDF2 known-answer vectors cannot be checked without a real SHA-1.
- `generate_random_iv`: it is randomness.
- `Aes128Cbc::new_from_slices` failing ("AES-CBC init failed"): it cannot fail with a 16-byte key and IV, which the types guarantee.
- Pkcs7.Unpad: accepts exactly the RFC 5652 paddings (pad byte 1 to 16, all pad bytes equal). The `block-modes` crate's own acceptance test is not visible.
- ChromeCookie.GetMasterKey: the slice panics (a stripped blob under 15 bytes, a GCM plaintext under 16 bytes) are a precondition, `MasterBlobSliceable`, not an error result.
- MarkdownEvents.Step: `End(Image)` with no open image makes the source panic on `unwrap`. It is the precondition `CanStep`, and for a whole stream `ImagesClosedWhenOpen`. Ordinary Markdown reaches it: an image inside another image's description (`MarkdownEvents.NestedImageUnhandled`). The model has no behaviour for such streams, since the source has none.
- The fields `content` and `info` of `CodeBlockState`: they are never written.
- pulldown-cmark parsing, `html::push_html`, and html5ever parsing and serialization: the model takes the event stream and the DOM tree as inputs.
- The final `replace("<br>\n", "")` of `markdown_to_html`: it is a string substitution on the serialized output, which is not modelled.
- Processing instructions and element namespaces in the DOM: the passes test only the local element name.
- Cleaner.CleanHtmlStructureKeepsText: stated only for documents whose `<li>` elements end with their nested lists, line feeds aside, such as tight sub-lists (`ListPass.RenderedSubListNested`) and the repository's tests. A loose item with a paragraph after its sub-list, `- a\n  - b\n\n  c`, is not covered: there the source's pass puts "c" ahead of "b" (`ListPass.ParagraphAfterSubListMoved`), and so does the corrected one, since both move every nested list behind the item. Text is compared with line feeds removed, because the list pass moves line-feed text nodes and the text pass trims them.
- MarkdownStreams.TableRendered: stated for cells of plain text, one `Text` event each. Inline markup in a cell reaches the processor as events other than `Text`: inline code, and the start and end of emphasis or a link. The processor passes these on unchanged, so they land ahead of the table's HTML (`MarkdownStreams.InlineCellEscapes`). The cell loses inline code entirely and keeps only the plain text of emphasis or a link. The model keeps this behaviour of the source; the lemma covers a cell holding one such event.
- Crypto.Valid: no primitives are exhibited that satisfy it. A lossy decoder that inverts `as_bytes` needs UTF-8 encoding to be injective, which is not proved here.
- ListPass.PassLeavesNothingToCollect: the recursive calls of `restructure_nested_lists` on each child are not replayed step by step. The lemma shows that every collection they make is empty, so they move nothing.
- The Python utilities under `util/`: they are outside the Rust crates.

Notes where the text of the program decides:
- `get_master_key` reports a failed GCM opening as `DecryptionFailed("AES-GCM decryption error")`, not as `AesGcmError`. `ChromeCookie.GcmFailure` follows the code.
- The tests exercise the `v10`/`v11` round trip through the Linux decryptor. `CookieRoundTrip.LinuxRoundTrip` follows them.
- In `clean_text_nodes`, a `<code>` element trims the leading line feeds of the text node right after it, not of its own contents, whatever its doc comment says. `TextPass.CleanChildren` follows the code.

## Findings

| source | as written | input that shows it | evidently intended | confidence | as-written member | corrected member |
|---|---|---|---|---|---|---|
| crates/markdown_to_html/src/cleaner.rs:117-126 | each nested list of an `<li>` is inserted at `li_pos + 1`, one after another, so several lists from one `<li>` end up in reverse order | `<ul><li>a<ul><li>x</li></ul><ol><li>y</li></ol></li></ul>`, the Markdown `- a` with a `-` sub-list and then a `1.` sub-list: the text reads "ayx" | the moved lists follow the `<li>` in document order, "axy" | medium, not executed | `ListPass.AsWrittenSwapsSubLists` | `ListPass.RestructureText` |

`ListPass.RestructureAsWritten` is the pass as written. `ListPass.Restructure`, used by `Cleaner.CleanHtmlStructure`, keeps document order. `ListPass.HoistAgree` shows the two agree whenever no `<li>` holds more than one list, which covers every case in the repository's tests.
