# Document chunking of the Knowledge-Assistant

This project models the document-chunking step of the Knowledge-Assistant in Dafny and
proves what that step computes. Chunking turns each `.txt` file of the documents directory
into an ordered list of `{source, content}` chunks. `get_documents` then turns those chunks
into LangChain `Document`s. The step appears twice:

- `utils.py`: `get_formatted_data` and `get_documents`.
- `rag.py`, the older script: its own `get_formatted_data`, plus a module body that fills
  the `docs` dictionary and the `chunked_data` list.

The model is split into four modules:

- `text.dfy` (`Text`) holds the Python string operations the chunking code calls, for
  patterns without metacharacters:
  - `str.split` and `re.split` on a literal pattern (utils.py:13, utils.py:22);
  - the zero-width split `re.split("(?=marker)", s)` (utils.py:17);
  - `str.endswith` (utils.py:28);
  - `str.replace(".txt", "")` (rag.py:10), written as `Join(Split(name, ".txt"), "")`
    in `Rag.DocKey`.

  `os.path.join` (utils.py:34) is `Utils.PathJoin`. `Join`, `Count`, `Contains`,
  `Concat` and `Occurrences` are not called by the chunking code. They are the vocabulary
  the contracts are written in: the inverse of a split, the number of separators or
  markers, and whether a text contains one.
- `chunking.dfy` (`Chunking`) holds the `get_formatted_data` logic the two files share:
  - the label is `filename.split(".")[0].split("/")[1]`; the `IndexError` is returned
    as `Err(IndexError)`;
  - structured-record mode splits before every `"Product Name"` and drops the first
    fragment;
  - paragraph mode splits on `"\n\n"`;
  - every chunk is tagged with the label.

  The two files differ only in the label that selects structured mode, so that label is
  a parameter.
- `utils.dfy` (`Utils`) models `utils.py`. The structured label is "products_specs".
  `GetDocuments` is an imperative method with the source's two loops. The documents
  directory and its listing are parameters.
- `rag.dfy` (`Rag`) models `rag.py`. The structured label is "product_specs". `Run`
  models the module body: the `txt_files` list, the loop filling `docs` and the loop
  extending `chunked_data`.

Points where the model follows the code exactly:

- `re.split("(?=Product Name)", data)` cuts in front of every position where the marker
  starts. It yields a leading `""` when the data starts with the marker.
- "Product Name" never overlaps itself (`Chunking.MarkerIsBorderFree`). So counting
  positions, counting non-overlapping occurrences and counting chunks all agree.
- The utils.py label "products_specs" differs from the rag.py label "product_specs".
  A file such as `products_specs.txt` is therefore split into records by utils.py and
  into paragraphs by rag.py (`Rag.StructuredLabelsDisagree`).
- `file.replace(".txt", "")` removes every ".txt", not only the suffix. So `a.txt.txt`
  and `a.txt` get the same key in `docs`, and the later one wins.

Two behaviours of the code a reader may not expect:

- An empty file gives one empty chunk in paragraph mode (`re.split("\n\n", "") == [""]`)
  and none in structured mode (`Chunking.ParagraphChunks`, `Chunking.StructuredChunks`,
  `Rag.EmptyProductsSpecs`).
- Empty paragraphs between consecutive breaks are kept as empty chunks
  (`Chunking.ParagraphsKeepEmpty`).

## Model

| member | source | states |
|---|---|---|
| Text.IndexOf | utils.py:13 | the position of the first `c`, or the length when there is none: every earlier character differs from `c` |
| Text.SplitAtChar | utils.py:13 | splitting at a one-character separator cuts at its first occurrence and splits the rest again |
| Text.FirstPieceAtChar | utils.py:13 | the first piece of a split at a character is the text up to its first occurrence (`split(".")[0]`) |
| Text.SecondPieceAtChar | utils.py:13 | a second piece exists exactly when the character occurs; it runs from after the first occurrence to the next (`split("/")[1]`) |
| Text.IndexOfAfter | utils.py:13 | in `a + b` with no `c` in `a`, the first `c` is found in `b`, shifted by the length of `a` |
| Text.SplitThenJoin | utils.py:22 | joining the pieces of a split with the same separator gives back the text |
| Text.JoinThenSplit | utils.py:22 | splitting a join gives back the parts, when no part runs into the separator and the last part holds none |
| Text.SplitCount | utils.py:22 | a split gives one piece more than there are non-overlapping separators |
| Text.SplitPiecesAvoidSeparator | utils.py:22 | no piece of a split contains the separator |
| Text.SplitHeadIsPrefix | utils.py:22 | the first piece of a split is a prefix of the text |
| Text.SplitAfterPiece | utils.py:22 | a piece followed by the separator is cut off as the first piece and the rest is split on its own |
| Text.SplitOfUnseparated | utils.py:22 | a text without the separator splits into itself |
| Text.CountZeroIffAbsent | utils.py:22 | the separator count is zero exactly when the text does not contain the separator |
| Text.FirstMatch | utils.py:17 | the first position where the marker starts, or the length when it never does |
| Text.SplitBeforeConcat | utils.py:17 | the pieces of the zero-width split concatenate back to the text |
| Text.SplitBeforeCount | utils.py:17 | the zero-width split gives one piece more than the marker has starting positions |
| Text.SplitBeforeHead | utils.py:17 | the first piece of the zero-width split is the text before the first match |
| Text.SplitBeforeMarked | utils.py:17 | with a marker that cannot overlap itself, every piece after the first starts with the marker |
| Text.MatchedPieceIsMarked | utils.py:17 | the piece opened by a match of a self-non-overlapping marker starts with the whole marker |
| Text.NoOverlapAfterMatch | utils.py:17 | after a match of a self-non-overlapping marker, no other match starts inside it |
| Text.NoMatchInsideMatch | utils.py:17 | right after such a match, the marker cannot start again before the match ends |
| Text.OccurrencesZeroIffAbsent | utils.py:17 | the marker has no starting position exactly when the text does not contain it |
| Text.SkipNonMatches | utils.py:17 | skipping positions where the marker does not start loses no occurrence |
| Text.OccurrencesOfBorderFree | utils.py:17 | for a marker that cannot overlap itself, its starting positions number `s.count(marker)` |
| Text.SplitBeforeTail | utils.py:17 | once the first piece is dropped: one piece per occurrence, each starting with the marker, together spelling the text from the first match; no piece without a match |
| Text.FlatMapStep | rag.py:31-32 | concatenating over one element more appends what that element gives |
| Text.FlatMapAppend | rag.py:31-32 | concatenating over `a + b` is concatenating over `a`, then over `b` |
| Chunking.FormatData | utils.py:10-23 | `get_formatted_data` succeeds exactly when the label can be derived, and then every chunk carries that label as its source |
| Chunking.TxtFiles | utils.py:28 | an entry is kept exactly when it is listed and its name ends with ".txt" |
| Chunking.TxtFilesAppend | utils.py:28 | filtering distributes over concatenation, so the kept files stay in listing order |
| Chunking.LabelIsSecondComponent | utils.py:13 | the label exists exactly when the part of the name before its first `.` holds a `/`; it is the second `/`-separated component of that part |
| Chunking.LabelUnderDirectory | rag.py:16 | under a directory without `.` or `/`, the label of `dir/name` always exists and is the name up to its first `.` (and up to its first `/`) |
| Chunking.NameLabelOfPlainName | rag.py:16 | for a name without `/`, the label is the name up to its first `.` |
| Chunking.MarkerIsBorderFree | utils.py:17 | "Product Name" never overlaps itself |
| Chunking.StructuredPieces | utils.py:17 | the structured split: one piece per "Product Name", each starting with it, together spelling the text from the first marker on; none without a marker |
| Chunking.StructuredChunks | utils.py:16-17 | structured mode: the chunk contents are the structured pieces, labelled with the structured label; one per marker (positions and `str.count` agree); each starts with the marker; they concatenate to the text from the first marker; no marker (an empty file too) gives no chunk |
| Chunking.ParagraphChunks | utils.py:21-23 | paragraph mode: the chunk contents are the paragraphs in order; joined with "\n\n" they give the text; none contains "\n\n"; there is one more chunk than separators; an empty file gives one empty chunk |
| Chunking.ParagraphsKeepEmpty | utils.py:22 | two breaks in a row give an empty chunk between them |
| Chunking.FormatDataCount | utils.py:16-23 | a successful chunking gives exactly the expected number of chunks: markers in structured mode, separators plus one otherwise |
| Utils.GetDocuments | utils.py:26-46 | the method returns what `get_documents()` gives for the listing: the chunks of the `.txt` files in order, as documents, or the `IndexError` of the first file without a label |
| Utils.CollectAllAppend | utils.py:33-35 | collecting over `a + b` succeeds exactly when both halves do, and the results concatenate |
| Utils.CollectAllFails | utils.py:33-35 | collecting fails exactly when some element fails |
| Utils.ChunkFilesAppend | utils.py:33-35 | chunking the files of `a + b` is chunking `a`, then `b`, and it fails exactly when one half fails |
| Utils.ChunkFilesStep | utils.py:33-35 | one file more either appends its chunks or ends the chunking with its error |
| Utils.ChunkFilesFailFrom | utils.py:33-35 | once some prefix of the files fails, the whole chunking fails |
| Utils.ChunkFilesFails | utils.py:33-35 | chunking fails exactly when some file's joined path yields no label |
| Utils.ChunkFilesCount | utils.py:30-35 | the chunk list is as long as the sum of the per-file expected chunk counts |
| Utils.ToDocumentsSnoc | utils.py:40-44 | converting one chunk more appends its document |
| Utils.DocumentsRoundTrip | utils.py:40-44 | one document per chunk: its content is the chunk's text, its metadata is exactly `{"source": …}`, and the chunk can be read back from it |
| Utils.DocumentsOfListing | utils.py:26-46 | `get_documents()` gives as many documents as the files' chunk counts add up to, the k-th holding the k-th chunk's text and source |
| Utils.PathUnderDocsDir | utils.py:34 | under a directory such as "docs" or "docs/", `os.path.join` gives `docs/name` |
| Utils.DocsDirNeverFails | utils.py:13 | under such a directory, with plain file names, `get_documents()` never raises, and each label is the file name up to its first `.` |
| Rag.FileChunks | rag.py:32 | chunking `docs/{file}` never raises, and every chunk carries the file's name up to its first `.` |
| Rag.Run | rag.py:4-32 | the module body leaves `txt_files` as the `.txt` names in listing order, `docs` as the last-wins map of their keys to their texts, and `chunked_data` as their chunks in order |
| Rag.DocsMapStep | rag.py:8-10 | one file more stores its text under its key |
| Rag.ChunkedDataStep | rag.py:31-32 | one file more appends its chunks |
| Rag.ChunkedDataAppend | rag.py:31-32 | chunking the files of `a + b` is chunking `a`, then `b` |
| Rag.StructuredFile | rag.py:19-20 | a file labelled "product_specs" gives the structured pieces: one per marker, each starting with it, none without a marker |
| Rag.ParagraphFile | rag.py:24-25 | any other file gives its paragraphs, which rejoin with "\n\n" to its text and contain no "\n\n" |
| Rag.StructuredLabelsDisagree | rag.py:19 | a file labelled "products_specs" is split into records by utils.py and into paragraphs by rag.py |
| Rag.EmptyProductsSpecs | rag.py:19-25 | an empty file labelled "products_specs" gives no chunk in utils.py and one empty chunk in rag.py |
| Rag.ProductsSpecsLabel | rag.py:16 | "products_specs.txt" is labelled "products_specs" |
| Rag.PlainTxtNameLabel | rag.py:16 | a name made of a plain base and ".txt" is labelled with the base |
| Rag.DocsMapKeys | rag.py:8-10 | the keys of `docs` are exactly the keys of the listed files |
| Rag.DocsMapLastWins | rag.py:8-10 | a key holds the text of the last file that has it |
| Rag.DocKeyOfTxtName | rag.py:10 | a name whose only ".txt" is its suffix gets the name without it as its key |
| Rag.DocKeyRemovesEveryOccurrence | rag.py:10 | `replace` removes every ".txt": "base.txt.txt" and "base.txt" get the same key |

## Left out

- Reading files and `os.listdir` are not modelled. The listing, with each file's text, is
  an input sequence in the order `os.listdir` returns.
- `DOCS_PATH` comes from a `constants` module that is not part of this model. It is a
  parameter of `Utils.GetDocuments`.
- Exceptions from `open` (a missing file, a permission or decoding error) are not
  modelled. So is the newline translation of text mode. Only the `IndexError` of the
  label derivation is.
- rag.py reads each file twice (rag.py:9 and rag.py:14). The model assumes both reads
  give the same text.
- The `print(chunked_data)` at rag.py:34 is output only and is left out.
- General regular-expression semantics are not modelled: only a split on a literal
  pattern and a split before a literal marker, which is all the code uses.
- Utils.PathJoin: models POSIX `os.path.join` only. On Windows `ntpath.join("docs", name)`
  gives `docs\name`, and then `split("/")[1]` raises `IndexError` for every file; the
  model assumes POSIX path joining.
- Strings are sequences of characters: no encoding or Unicode normalisation.
- Rag.FileChunks: its contract states only the label of the chunks; what their contents
  are is stated by Rag.StructuredFile and Rag.ParagraphFile.
- Chunking.TxtFiles: its contract states which entries are kept; that they keep their
  listing order is stated by Chunking.TxtFilesAppend.
- app.py, src/llm.py, src/rag.py, config.py and main.py are not part of this model. They
  are the user interface, the language-model wrapper, the vector index built with foreign
  libraries, configuration, and a one-question command-line entry point (main.py).
  src/rag.py also chunks uploaded text, but with LangChain's `CharacterTextSplitter`
  (src/rag.py:19-21), whose internals are not visible, so it is left out.
