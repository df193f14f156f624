# Website RAG chatbot: crawler, chunk filter and answer clean-up in Dafny

This project models the deterministic decision logic of a retrieval-augmented
chatbot that answers questions about one website. It has three parts:

- **`WebsiteCrawler.fetch_content`** (`crawler.dfy`, module `Crawler`). It validates
  the URL, runs the 500-character pre-check of the plain HTTP path and reads the
  page title. It then chooses the content area from a fixed, ordered list of CSS-like
  selectors: the first selector that finds a node wins, otherwise `<body>`,
  otherwise a failure. It normalises the text to stripped, non-empty lines joined by
  `"\n\n"`, rejects text under 100 characters and builds the success or failure
  record.
- **`EmbeddingsManager.create_chunks` and `create_vector_store`** (`embeddings.dfy`,
  module `Embeddings`). These strip the splitter's raw chunks, drop chunks shorter
  than 50 characters and drop later chunks whose digest was already seen. Each kept
  chunk records its raw index and the page's URL and title. An empty result is
  refused with "No valid chunks created".
- **`WebsiteChatbot.ask`** (`chatbot.dfy`, module `Chatbot`). The answer is stripped,
  `<|eot_id|>` is removed and the result is stripped again. An answer that is empty
  or contains one of four uncertainty phrases (case-insensitively) becomes the fixed
  refusal "The answer is not available on the provided website.". An exception from
  the chain becomes `"Error: " + message`.

`text.dfy` (module `Text`) defines the Python string operations these rely on, with
Python's meaning: `strip()` on exactly the characters `str.isspace` accepts,
`strip(chars)`, `split(sep)`, `sep.join`, `in`, `replace(pat, "")` as one
left-to-right pass, `lower()` and `str(n)`.

The libraries are seen only through their results, which the model takes as inputs:

- `urlparse` gives the scheme and netloc, or `None` when it raised.
- The HTTP or browser download gives a page, or the message of the exception it raised.
- The page is a record of four things: its visible-text length, its `<title>`
  element, `soup.find` as a function from a lookup to an optional node, and
  `get_text` of a node.
- The splitter's output is the sequence of raw chunks.
- MD5 is an arbitrary function from text to text.
- The chain's reply is an answer or an exception message.

`FetchContent` also returns, in order, the download and the `soup.find` calls it
makes. This makes it possible to state that no fetch happens for an invalid URL and that later selectors
are not consulted once one finds a node.

The selection loop of `fetch_content` (`Crawler.TrySelectors`) and the filter loop of
`create_chunks` (`Embeddings.EmbeddingsManager.CreateChunks`) are methods with loops.
Each is proved equal to a pure specification function (`FirstMatchFrom` and
`ConsultedFrom`, and `FilterChunks`). The lemmas state what the source promises
about those functions. `EmbeddingsManager` is a class, because
`create_vector_store` assigns its `vector_store` field.

The record's `method` field is `'requests'` or `'selenium'` (src/crawler.py:197); see
`Crawler.MethodName`.

## Model

| member | source | states |
|---|---|---|
| Crawler.ValidUrl | src/crawler.py:19-24 | The definition of `validate_url`: `urlparse` did not raise, the scheme is `http` or `https` and the netloc is non-empty. What it means to callers is in `Crawler.FetchContent`: an invalid URL fails exactly when no external call is made |
| Crawler.FetchContent | src/crawler.py:114-205 | An invalid URL (bad scheme, empty netloc, or `urlparse` raised) fails with "Invalid URL format" exactly when no external call is made. A download exception becomes a failure record carrying its message. On the HTTP path, less than 500 characters of visible text fails with the JavaScript hint, after only the HTTP call. A title without a string raises inside the `try` and becomes a failure. Otherwise the `soup.find` calls are exactly the consulted selectors and the outcome follows the content area, the normalised text and the 100-character threshold. A success has `length == len(content) >= 100`, the method `selenium` exactly on the browser path and the title "Untitled" when the page has no title |
| Crawler.ParseSelector | src/crawler.py:156-165 | Dispatch is on the first character only: `.` gives a class lookup of the rest, `#` an id lookup of the rest, `[` an attribute lookup or an unpacking error (never with two parts). Anything else is a tag lookup of the whole selector. Attribute keys and values hold no `=`, and values have no `"` at either end |
| Crawler.SelectorRoundTrip | src/crawler.py:156-165 | Writing a well-formed lookup as a selector and parsing it gives back the same lookup |
| Crawler.AttributeRoundTrip | src/crawler.py:161-163 | `[k="v"]` with no `=` in `k` or `v` and no `"` at the ends of `v` parses to the attribute lookup `k`, `v` |
| Crawler.SplitPair | src/crawler.py:162 | A key and a quoted value without `=`, joined by `=`, split into exactly the two parts |
| Crawler.StripQuoted | src/crawler.py:163 | `"v".strip('"')` is `v` when `v` has no `"` at either end |
| Crawler.SelectorsText | src/crawler.py:149-153 | The nine selectors are exactly the written form of the nine intended lookups |
| Crawler.SelectorsDispatch | src/crawler.py:149-165 | Every selector in the list parses to its intended lookup, and the three `div.` selectors are tag lookups of the whole string |
| Crawler.FirstMatchMeaning | src/crawler.py:155-168 | A hit at `k` means every selector before it parsed and found nothing and selector `k` found the node. A raising selector is likewise preceded only by misses. The loop runs out exactly when every selector missed |
| Crawler.ConsultedLength | src/crawler.py:156-168 | The loop calls `soup.find` for every selector up to and including the hit, for none after a raising one, and for all when all miss |
| Crawler.ConsultedAt | src/crawler.py:156-165 | The k-th `soup.find` call uses the lookup that the k-th selector parses to |
| Crawler.ContentAreaFirstHit | src/crawler.py:155-172 | If selector `k` finds node `n` and all earlier selectors miss, the content area is `n` and exactly `k + 1` lookups are made |
| Crawler.SkipMisses | src/crawler.py:156-168 | Selectors that parse and find nothing are passed over |
| Crawler.TrySelectors | src/crawler.py:155-168 | The selector loop returns the first hit or raising selector (or none) and the list of lookups handed to `soup.find`, as the specification functions define them |
| Crawler.ContentArea | src/crawler.py:155-175 | No content area is found exactly when every selector parses and finds nothing and `<body>` is absent; a found area is a node `soup.find` returned |
| Crawler.Consulted | src/crawler.py:155-175 | At most one lookup per selector plus `<body>`; when every selector missed, all of them were tried in order and `<body>` last |
| Crawler.SelectContentArea | src/crawler.py:155-175 | The content area is the first hit, else `<body>` when every selector missed, else none. When every selector missed, the lookups consulted end with `<body>` |
| Crawler.BodyLastExactlyAfterMisses | src/crawler.py:149-175 | With the fixed selector list, none of which parses to `<body>`, the lookups end with `<body>` exactly when every selector missed |
| Crawler.CleanLines | src/crawler.py:181 | The comprehension keeps at most as many lines as it is given, each non-empty and stripped, and adds no newline |
| Crawler.CleanLinesAppend | src/crawler.py:181 | Cleaning keeps the order of lines: cleaning a concatenation concatenates the cleaned parts |
| Crawler.CleanLinesSingle | src/crawler.py:181 | One line survives, stripped, exactly when it is not blank |
| Crawler.NormalizeText | src/crawler.py:181-182 | The normalised text has no surrounding whitespace |
| Crawler.JoinStripped | src/crawler.py:182 | Stripped, non-empty lines joined by `"\n\n"` give a stripped text, which is non-empty when there are lines |
| Crawler.SplitJoined | src/crawler.py:181-182 | Lines without newlines joined by `"\n\n"` split on `'\n'` into the lines with one empty string between each two |
| Crawler.CleanSpaced | src/crawler.py:181 | Cleaning the lines of a joined text drops the empty strings between them and nothing else |
| Crawler.LinesOfNormalized | src/crawler.py:178-182 | Splitting the normalised text on `'\n'` and cleaning it again gives the same lines, in the same order: lines are separated by exactly `"\n\n"` |
| Crawler.NormalizeIdempotent | src/crawler.py:180-182 | Normalising normalised text changes nothing |
| Crawler.NeedsJavaScriptMessage | src/crawler.py:130-134 | The pre-check failure tells the user to enable "Use JavaScript Rendering" |
| Crawler.MethodName | src/crawler.py:197 | The method is `selenium` exactly on the browser path and `requests` exactly on the HTTP path |
| Crawler.UnpackMessage | src/crawler.py:162 | Unpacking fewer than two parts names the count got as the digit just before the closing parenthesis |
| Crawler.ErrorMessage | src/crawler.py:114-205 | Every failure record of `fetch_content` (lines 116, 133, 175, 189, 204) has a non-empty message; a caught exception's message is its own text, a newline and at most 200 characters of traceback |
| Crawler.TitleOf | src/crawler.py:141 | The title is stripped, and a title string already stripped is kept as it is |
| Crawler.TooShortMessage | src/crawler.py:184-189 | The message begins `"Content too short (<n> chars). "`, and the number in it reads back as the text's length |
| Embeddings.FilterChunks | src/embeddings.py:30-53 | At most one document per raw chunk. Each document is its raw chunk stripped, at least 50 characters long, with the page's URL and title. Raw indices strictly increase, and no two documents share a digest |
| Embeddings.Digests | src/embeddings.py:31-41 | The set of seen digests holds the digest of every emitted document |
| Embeddings.DigestsAppend | src/embeddings.py:39-41 | Adding a document adds exactly its digest to the seen set |
| Embeddings.PrefixEmitted | src/embeddings.py:33-51 | Documents emitted for a prefix of the raw chunks remain correct for the whole sequence, with indices before its last chunk |
| Embeddings.AppendEmitted | src/embeddings.py:34-51 | Appending the last raw chunk, stripped, long enough and with a new digest, keeps provenance, increasing indices and distinct digests |
| Embeddings.AppendAscending | src/embeddings.py:48-51 | A document whose index is above all earlier ones keeps the indices increasing |
| Embeddings.AppendDistinct | src/embeddings.py:38-41 | A document whose digest was not seen keeps the digests distinct |
| Embeddings.DistinctTexts | src/embeddings.py:38-41 | No two emitted documents have the same text |
| Embeddings.QualifyingDigestsLast | src/embeddings.py:33-36 | The digests of long-enough chunks are those of the prefix plus the last chunk's, when it is long enough |
| Embeddings.FilterKeepsEveryDigest | src/embeddings.py:33-41 | Completeness: the digests of the emitted documents are exactly the digests of the long-enough stripped chunks |
| Embeddings.FilterKeepsFirst | src/embeddings.py:38-41 | Among chunks with the same digest the first long-enough one is emitted: no long-enough chunk before an emitted document shares its digest |
| Embeddings.DroppedOnlyAsDuplicate | src/embeddings.py:35-41 | A long-enough chunk that is not emitted has an earlier emitted document with the same digest |
| Embeddings.DroppedOnlyAsRepeatedText | src/embeddings.py:38-41 | With an injective digest, a long-enough chunk is dropped only when an earlier document has the same text |
| Embeddings.EmbeddingsManager.constructor | src/embeddings.py:10-18 | The splitter settings default to 1000 and 200, and there is no index yet |
| Embeddings.EmbeddingsManager.CreateChunks | src/embeddings.py:20-53 | The loop over the raw chunks, with its `seen_hashes` set, returns exactly `FilterChunks` of them |
| Embeddings.EmbeddingsManager.CreateVectorStore | src/embeddings.py:55-67 | "No valid chunks created" is raised exactly when no document is emitted, leaving the stored index unchanged. Otherwise the index is built from exactly the emitted documents and stored in the field |
| Chatbot.CleanAnswer | src/chatbot.py:62-63 | The cleaned answer has no surrounding whitespace and is no longer than the raw answer |
| Chatbot.ExpressesUncertainty | src/chatbot.py:65-66 | Only an answer of at least 11 characters, the shortest marker's length, can express uncertainty |
| Chatbot.MarkerAnywhere | src/chatbot.py:65-66 | A marker written anywhere in an answer makes it uncertain, whatever surrounds it |
| Chatbot.UncertaintyIgnoresCase | src/chatbot.py:66 | An answer and its lowercased form are uncertain together: the test ignores case |
| Chatbot.KelvinSignLowered | src/chatbot.py:66 | "I DON'T" followed by the KELVIN SIGN and "NOW" lowers to a marker, and `ask` returns the refusal for it |
| Chatbot.Ask | src/chatbot.py:59-71 | The result is never empty. An exception gives `"Error: " + message`. An uncertain or empty cleaned answer gives the refusal, and a certain, non-empty cleaned answer is returned as it is. Any other result is the cleaned answer, stripped and free of every marker |
| Chatbot.CleanAnswerPassesThrough | src/chatbot.py:62-69 | An answer that is already stripped, certain, non-empty and free of `<\|eot_id\|>` is returned unchanged |
| Chatbot.RefusalIsClean | src/chatbot.py:67-69 | The refusal is non-empty, stripped, holds no end-of-turn token and expresses no uncertainty |
| Chatbot.RefusalEnds | src/chatbot.py:67 | The refusal is non-empty and has no surrounding whitespace |
| Chatbot.RefusalLacksToken | src/chatbot.py:63-67 | The refusal does not contain `<\|eot_id\|>` |
| Chatbot.RefusalIsCertain | src/chatbot.py:65-67 | None of the four markers occurs in the lowercased refusal |
| Chatbot.CertainWithout | src/chatbot.py:65-66 | A text with no apostrophe and no `f` or `m` in either case expresses no uncertainty |
| Chatbot.LacksToken | src/chatbot.py:63 | A text without `<` cannot contain the end-of-turn token |
| Chatbot.RefusalLacks | src/chatbot.py:67 | The refusal holds none of `'`, `<`, `f`, `F`, `m`, `M` |
| Chatbot.AskIsStable | src/chatbot.py:59-69 | Feeding `ask`'s answer back through the clean-up gives it back unchanged, unless an end-of-turn token survived |
| Chatbot.NestedTokenSurvives | src/chatbot.py:63 | `replace` makes one pass, so `<\|eot<\|eot_id\|>_id\|>` cleans to `<\|eot_id\|>` |
| Chatbot.RemoveNested | src/chatbot.py:63 | The single removal pass over the nested token keeps the outer five characters on each side |
| Text.Strip | src/crawler.py:181 | `strip()` returns a stripped string no longer than its input |
| Text.StripBy | src/crawler.py:163 | `strip(chars)` is the slice left after removing the maximal leading and trailing runs of dropped characters, and it is empty only when every character is dropped |
| Text.StripByTrimmed | src/chatbot.py:62-63 | Stripping an already stripped string changes nothing |
| Text.StripByChars | src/embeddings.py:34 | Every character of a stripped string comes from the original |
| Text.Join | src/crawler.py:182 | `sep.join(parts)` begins with the first part, and is that part alone when there is one |
| Text.Split | src/crawler.py:181 | `split(sep)` returns at least one part |
| Text.SplitPartsLackSep | src/crawler.py:181 | No part of a split holds the separator |
| Text.JoinSplit | src/crawler.py:181-182 | Joining the parts of a split with the same separator gives back the original string |
| Text.SplitWithout | src/crawler.py:181 | A string without the separator splits into itself alone |
| Text.SplitAround | src/crawler.py:181 | A separator in the middle splits the two sides apart |
| Text.Contains | src/chatbot.py:66 | `pat in s` can hold only when `pat` is no longer than `s` |
| Text.ContainsMiddle | src/crawler.py:133 | A text contains whatever is written in its middle |
| Text.FirstOccurrence | src/chatbot.py:66 | Where `pat in s` holds, `pat` occurs at the returned position and at no earlier one |
| Text.ContainsIffOccurs | src/chatbot.py:66 | `pat in s` holds exactly when `pat` occurs at some position of `s` |
| Text.OccursContained | src/chatbot.py:66 | An occurrence at any position makes `pat in s` true |
| Text.MissingCharNotContained | src/chatbot.py:66 | A pattern holding a character the string lacks does not occur in it |
| Text.RemoveAll | src/chatbot.py:63 | `replace(pat, "")` never lengthens the string |
| Text.RemoveAbsent | src/chatbot.py:63 | Removing a pattern that does not occur changes nothing |
| Text.KeptRun | src/chatbot.py:63 | The removal pass keeps every character of a stretch where no occurrence starts |
| Text.LowerChar | src/chatbot.py:66 | ASCII capitals lower to the letter 32 code points up, the KELVIN SIGN lowers to `k`, and nothing else changes |
| Text.Lower | src/chatbot.py:66 | `lower()` keeps the length and lowers each character on its own |
| Text.LowerMissing | src/chatbot.py:66 | A lowercase letter absent from `s` in both cases (and, for `k`, without a KELVIN SIGN) is absent from `s.lower()` |
| Text.Decimal | src/crawler.py:186 | `str(n)` is a non-empty string of decimal digits with no leading zero |
| Text.DecimalRoundTrip | src/crawler.py:186 | `str(n)` reads back as `n` |

## Left out

- Browser rendering (`fetch_with_selenium`, `fallback_selenium`), the HTTP request, `certifi`, the sleeps and scrolling, and the debug-file writes are I/O. Their outcome is the `download` input, and whether `debug_last_fetch.html` exists is the `debugDumpExists` input.
- HTML parsing, `get_text` and the `decompose` of the removed boilerplate tags are library behaviour. The page is an oracle record, and `find` is the lookup function after the removal. The pre-check length is an input.
- `urlparse` is library behaviour. Its scheme and netloc, or `None` when it raised, are the `parsed` input.
- The traceback text is external. It is the `trace` input, and the 200-character cut is written out in `Crawler.ErrorMessage`. Only the download can raise a library exception in the model, with the message it carries. The `find` and `get_text` oracles are total, so exceptions from parsing, `find` or `get_text`, which the handler at src/crawler.py:200-205 would catch, do not occur. The two exceptions raised inside the modelled code are spelled out: the missing title string and the selector unpacking.
- The text splitter (`RecursiveCharacterTextSplitter`) is library behaviour. Its output is the `rawChunks` input. `chunkSize` and `chunkOverlap` are kept as fields, but no property of the chunks is proved from them.
- MD5 is an arbitrary function `digest`. Deduplication on the text itself is proved only under the assumption that `digest` is injective (`Embeddings.DroppedOnlyAsRepeatedText`).
- Embedding, FAISS construction, `save_path` (`save_local`) and `load_vector_store` are library and file I/O. The store is modelled as the list of documents it is built from.
- The retrieval chain (retriever, prompt, language model and its memory window) and `clear_memory` are external. The chain's outcome is the `ChainReply` input of `Ask`.
- Text.Lower: lowers the ASCII capitals and the KELVIN SIGN (U+212A, which Python lowers to `k`) and leaves every other character alone, one character for one. Python's `lower()` also lowers other alphabets, which cannot make or break a match of the ASCII markers, and it turns U+0130 (capital I with dot above) into two characters, `i` followed by U+0307. So `Lower` keeps the length where Python may lengthen the string. For the markers this makes no difference: U+0307 follows the `i`, and every `i` in a marker is followed by an ASCII character.
- Text.Decimal: covers `str(n)` for natural numbers only. Lengths are never negative.
- `app.py` (the Streamlit interface) is not part of this model.
