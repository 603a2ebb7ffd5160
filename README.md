# Access-controlled document question answering: a Dafny model

The system answers a user's question from the PDF files that user is allowed
to see. An access registry maps each user's e-mail to a list of file names.
For each request:

1. Every permitted name is normalised to a `.pdf` name.
2. Each file is loaded. A file that is missing or fails to load is skipped.
3. Every loaded page is tagged with the name it was requested under.
4. A similarity index over those pages is searched for the question.
5. A language-model chain answers the question from the search results.

The deterministic glue around the external libraries is modelled and proved
here:

- **Registry lookup** (`get_user_files`). A user absent from the registry has
  no files.
- **Corpus assembly** (`load_user_docs`). This covers extension
  normalisation, skipping missing or failing files, tagging each page with
  its `source_file`, and keeping registry order and loader order.
- **Guards of `run_qa`**. An empty corpus returns "You have no access to any
  valid documents.". An empty first retrieval returns "Sorry, no relevant
  content found in your allowed files.".
- **Answer classification**. The trimmed, lower-cased answer is searched for
  four trigger phrases. A hit, or a chain that cited no documents, collapses
  into the no-content message.
- **Citation compilation**. Each citation is "file, page p", with "Unknown"
  for a missing field.

The outside world is passed in as function parameters:

- `fileExists` stands for the existence test on a file's path.
- `load` stands for the PDF loader. It returns `None` when loading raises.
- `retrieve` is the first retrieval over the corpus.
- `chain` is the retrieval chain. It gives the answer text (possibly absent)
  and its source documents.

Every property below holds for all such parameters. "The retriever or model
is not reached" is stated as "the outcome does not depend on that
parameter".

Modules. `Registry`, `Corpus` and `Qa` follow the components of `app.py`; `Options`, `Text` and `Decimal` are support modules:

- `Options` is the optional value.
- `Text` holds ASCII lower-casing, Python's `strip()` white-space set and
  substring containment.
- `Decimal` renders page numbers as decimal text, with the inverse parse.
- `Registry` is the registry lookup.
- `Corpus` is corpus assembly. `LoadUserDocs` is the loop and `Assemble` is
  its specification: `Flatten` of each name's `FileSegments`.
- `Qa` is the pipeline. `RunQa` is the method and `QaOutcome` is its
  specification.

Citations are partnered with a reader. `CitedFile` and `CitedPage` split a
citation at its last ", page ". A page text never contains a comma, so
splitting a citation gives back its file name and page, and the page text
parses back to the page number. The isolation property is stated with this
reader: every cited file is a normalised entry of the user's list, provided
the chain's documents come from the user's corpus.

Four points of the code's behaviour:

- The canned messages are the code's exact strings.
- "The model declined to cite a source" is the chain returning no
  `source_documents`.
- Citations are formatted strings, not (document, page) records.
- Nothing is cached between requests.

## Model

| member | source | states |
|---|---|---|
| `Registry.GetUserFiles` | app.py:29-32 | A listed user gets exactly their registry list; a user absent from the registry gets an empty list, not an error. |
| `Corpus.Normalise` | app.py:40-41 | Definition of the extension normalisation: the name as is when it ends in `.pdf` in any letter case, otherwise the name plus `.pdf`. `NormaliseSpec`, `NormaliseIdempotent` and `NormaliseExplicitExtension` specify it; `NormalisedNames` applies it to every registry entry, in order, and is the reference the isolation lemmas are stated against. |
| `Corpus.NormaliseSpec` | app.py:40-41 | A normalised name ends in `.pdf` in any letter case and extends the original. It is unchanged if the original already ended so (`X.PDF` stays `X.PDF`), and is the original plus `.pdf` otherwise. |
| `Corpus.NormaliseIdempotent` | app.py:40-41 | Normalising twice is the same as normalising once. |
| `Corpus.NormaliseExplicitExtension` | app.py:40-42 | `name` and `name + ".pdf"` resolve to the same file when `name` has no extension. |
| `Corpus.Tagged` | app.py:47-48 | Definition of the tagging: each loaded page keeps its text and page number, in loader order, with `source_file` set to the normalised name. Its own ensures state this; `TagSourceFile` is proved equal to it. |
| `Corpus.TagSourceFile` | app.py:47-48 | After the tagging loop, every page keeps its text and page number in loader order, and its `source_file` is the normalised name, whatever the loader had attached. |
| `Corpus.FileSegments` | app.py:42-54 | Definition of one registry entry's contribution: nothing when the normalised file is missing or its loader fails, otherwise its pages tagged by `Tagged`. `FileSegmentsContents` specifies it. |
| `Corpus.FileSegmentsContents` | app.py:42-54 | A file contributes pages only if it exists and loads. Those pages are the loader's, in its order, each tagged with the normalised name. |
| `Corpus.LoadUserDocs` | app.py:34-57 | The loop returns exactly the specified corpus, and the `allowed_files` list of names that loaded. |
| `Corpus.LoadedFiles` | app.py:37-50 | `allowed_files` has at most one entry per registry entry, and every entry is a normalised permitted name. |
| `Corpus.Assemble` | app.py:34-57 | Definition of the corpus `load_user_docs` returns: each permitted entry's `FileSegments`, in registry order. `LoadUserDocs` is proved equal to it; `AssembleIsolation`, `AssembleConcat`, `AssembleSkipsFailed` and `AssembleEmptyIff` specify it. |
| `Corpus.AssembleIsolation` | app.py:39-49 | Every segment of the corpus carries a source file, and that file is the normalised form of one of the user's permitted names. |
| `Corpus.FlattenConcat` | app.py:39-49 | Appending each file's pages in turn: the concatenation over `a + b` is that over `a` followed by that over `b`, for any per-name part. |
| `Corpus.FlattenEmptyIff` | app.py:39-49 | The concatenation of per-name parts is empty exactly when every part is empty. |
| `Corpus.AssembleConcat` | app.py:39-49 | Order: the corpus of `a + b` is the corpus of `a` followed by the corpus of `b`. |
| `Corpus.AssembleSkipsFailed` | app.py:43-54 | A missing file, or one whose loader fails, contributes nothing and does not stop the files after it: the corpus of `a + [name] + b` equals that of `a + b`. |
| `Corpus.AssembleEmptyIff` | app.py:36-57 | The corpus is empty exactly when no entry contributes a page. This covers the empty list and the case where every file fails. |
| `Text.AsciiLowerSpec` | app.py:98 | Lower-casing keeps the length, leaves no upper-case ASCII letter, and changes nothing but A-Z. |
| `Text.IsSpace` | app.py:98 | Definition of the white space `strip()` removes: exactly the characters for which Python's `str.isspace()` holds. `LowerCharKeepsSpace` shows lower-casing keeps it. |
| `Text.Strip` | app.py:98 | Definition of `strip()` as leading-strip then trailing-strip. `StripSpec`, `StripLowerCommute` and `ContainsSurvivesStrip` specify it. |
| `Text.StripStart` | app.py:98 | Leading-strip removes only white space, and the result does not start with white space. |
| `Text.StripEnd` | app.py:98 | Trailing-strip removes only white space, and the result does not end with white space. |
| `Text.StripSpec` | app.py:118 | The trimmed answer is a contiguous slice of the original. Everything cut on either side is white space, and the result starts and ends with non-white-space. |
| `Text.StripLowerCommute` | app.py:98 | Trimming then lower-casing equals lower-casing then trimming. |
| `Text.ContainsSurvivesStrip` | app.py:98-108 | A phrase that neither starts nor ends with white space still occurs after trimming if it occurred before. |
| `Decimal.NatToDecimal` | app.py:116 | The decimal rendering of a page number is non-empty, all digits, and has no leading zero. |
| `Decimal.IntToDecimal` | app.py:116 | A rendered integer starts with '-' exactly when it is negative; the rest is digits. |
| `Decimal.NatToDecimalRoundTrip` | app.py:116 | The digits of `n` parse back to `n`. |
| `Decimal.IntToDecimalRoundTrip` | app.py:116 | A rendered page number parses back to the same integer. |
| `Qa.PageText` | app.py:115-116 | Definition of the page text: the page number in decimal, or "Unknown" when it is missing. `PageTextHasNoComma` and `CitationRoundTrip` specify it: it never holds a comma and parses back to the page number. |
| `Qa.Citation` | app.py:114-116 | Definition of one citation: the file name (or "Unknown"), ", page ", then the page text (or "Unknown"). `CitationRoundTrip` specifies it as the inverse of the citation reader. |
| `Qa.CompileSources` | app.py:111-116 | Exactly one citation per source document, in order. Each is the file name, ", page ", then the page, with "Unknown" for a missing field. |
| `Qa.NormalisedAnswer` | app.py:98 | Definition of the classification input: the chain's `result` (empty text when absent), trimmed, then ASCII lower-cased. `TriggerPhraseCollapses` and `SynthesizeKeyError` specify it. |
| `Qa.IsNoInformation` | app.py:101-108 | Definition of the "no information" test: some one of the four trigger phrases occurs in the normalised answer. `TriggerPhraseCollapses`, `SynthesizeCited` and `CitedReplyIff` specify the effect. |
| `Qa.Synthesize` | app.py:98-118 | Definition of the answer stage after both guards: the no-content reply for empty sources or a trigger phrase, else `KeyError` for a missing `result`, else the cited reply. `SynthesizeNeverNoAccess`, `SynthesizeCited` and `SynthesizeKeyError` specify it. |
| `Qa.QaOutcome` | app.py:63-118 | Definition of the endpoint's outcome: the no-access guard, the empty-retrieval guard, then the answer stage. The pipeline lemmas below specify it. |
| `Qa.RunQa` | app.py:63-118 | The endpoint's outcome is exactly the specified outcome, `QaOutcome`, for every loader, retriever and chain. |
| `Qa.UnknownUserHasNoAccess` | app.py:29-66 | A user absent from the registry gets "You have no access to any valid documents.", never an error. |
| `Qa.NoAccessIff` | app.py:63-66 | The no-access reply comes exactly when no permitted file contributes a page. Both directions. |
| `Qa.AllFailedIsNoFiles` | app.py:43-66 | If every permitted file is missing or fails to load, the outcome is the same as for a user whose list is empty. |
| `Qa.EmptyCorpusSkipsRetrieval` | app.py:64-70 | With no permitted pages, the reply is the no-access message with no sources, and neither the retriever nor the chain can affect the outcome. |
| `Qa.EmptyRetrievalSkipsChain` | app.py:70-73 | If the first retrieval is empty, the reply is the no-content message and the chain (the language model) cannot affect the outcome. |
| `Qa.SynthesizeNeverNoAccess` | app.py:98-118 | Once the guards pass, the answer stage never produces the no-access reply. |
| `Qa.TriggerPhrasesAreTrimmed` | app.py:101-106 | Each of the four trigger phrases is non-empty and neither starts nor ends with white space. |
| `Qa.TriggerPhraseCollapses` | app.py:98-109 | An answer containing any trigger phrase, in any ASCII letter case and before or after trimming, yields exactly the no-content message with no sources, whatever the rest of the answer says. |
| `Qa.EmptySourcesCollapse` | app.py:108-109 | Once both guards pass, a chain that cited no document gives exactly the no-content reply, whatever its `result` holds. |
| `Qa.SynthesizeKeyError` | app.py:108-118 | The answer stage raises `KeyError("result")` exactly when the chain cited a document but gave no `result`; an absent answer never holds a trigger phrase. |
| `Qa.KeyErrorIff` | app.py:63-118 | The endpoint raises `KeyError("result")` exactly when both guards pass and the chain cited a document without a `result`. |
| `Qa.SynthesizeCited` | app.py:108-118 | The answer stage gives a cited reply exactly when the chain cited a document, the answer has no trigger phrase and `result` is present. The answer is then the trimmed original-case text, with one citation per source document. |
| `Qa.CitedReplyIff` | app.py:63-118 | A cited reply comes exactly when both guards pass, the chain cited something, no trigger phrase occurs and `result` is present. The answer is then the trimmed original-case text, with one citation per source document, in order. |
| `Qa.CitationsNamePermitted` | app.py:112-116 | Citations of documents from a corpus tagged only with permitted names name only permitted files. |
| `Qa.CitationsArePermitted` | app.py:39-118 | Isolation: if the chain's documents come from the user's corpus (at most 4), a cited reply has at most 4 sources, and each names a normalised entry of the user's permitted list. |
| `Qa.DisjointUsersAreIsolated` | app.py:29-118 | No citation in one user's reply names a file that only another user may see. |
| `Qa.LastIndexFrom` | app.py:116 | Finds the last occurrence of the separator: it occurs there and at no later index, or nowhere. |
| `Qa.CitationRoundTrip` | app.py:114-116 | A citation splits back into the document's file name (or "Unknown") and its page text, and the page text parses back to the page number. |

## Left out

- The web layer is left out: the FastAPI app, the CORS middleware, the request model and the `/query` route (app.py:13-27 and 120-122).
- Reading and parsing `user_access.json` is left out. The registry is an input map, so a missing or malformed file (a fatal configuration error) is not modelled.
- Path joining under the `pdf` folder and `os.path.exists` are left out. Existence is a predicate on the normalised name, so the model does not tell an absolute or `..` name from an ordinary one.
- The PDF loader is an abstract function on the normalised name. Every exception it raises is the `None` result. Documents are values with a fixed text, page and `source_file`. The loader's other metadata keys are not modelled. Neither is aliasing between the mutable Document objects that the source tags in place.
- Page metadata is modelled as an integer or absent. Other value types would render differently in a citation and are not modelled.
- Embeddings, the FAISS index and similarity search (app.py:59-61, 68-70) are left out. Retrieval is a function parameter. Result order and `k` are not modelled. `retrieve` is total, so a failing embedding call (app.py:60, 68, 70) is not modelled either. The bound of 4 and "drawn from the corpus" appear only as the hypothesis of the isolation lemmas.
- The Ollama model, the prompt wording and the RetrievalQA chain (app.py:75-97) are one function parameter, `chain`. It is total, so a failing or timed-out model call is not modelled.
- The chain's `source_documents` entry is assumed to be present, since the chain is built to return it. A missing `result` entry is modelled: it yields `KeyError` when a cited reply is built.
- `Text.AsciiLower`: lower-cases only A-Z, while Python's `str.lower` also lower-cases other letters. For the extension test this is exact, because only ASCII letters lower-case to `.pdf`. For trigger phrases, an answer spelled with a non-ASCII letter that Python lower-cases into ASCII (the Kelvin sign becomes `k`) would collapse in the source but not in the model.
- The `print` logging (app.py:52, 54, 56) is left out. `allowed_files` is kept as a second result of `LoadUserDocs`.
- Concurrency is left out: requests are independent, and the registry file can change between reads.
