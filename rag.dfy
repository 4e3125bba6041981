/** rag.py, the older script: `get_formatted_data` with the structured label
    "product_specs", and a module body that fills the `docs` dictionary and the
    `chunked_data` list from the `.txt` files of the directory "docs". */
module Rag {
  import opened Text
  import opened Chunking
  import Utils

  /** The label that selects structured-record splitting in rag.py. */
  const StructuredLabel: string := "product_specs"

  /** The directory the script lists and reads. */
  const DocsDir: string := "docs"

  /** `get_formatted_data(filename)` of rag.py on a file holding `data`. */
  function GetFormattedData(filename: string, data: string): Result<seq<Chunk>>
  {
    FormatData(StructuredLabel, filename, data)
  }

  /** `get_formatted_data(f'docs/{file}')` for a listed file: the path always has a `/`
      before its first `.`, so this never raises, every chunk is labelled with the file's
      name up to its first `.`. */
  function FileChunks(name: string, data: string): (chunks: seq<Chunk>)
    ensures forall k :: 0 <= k < |chunks| ==> chunks[k].source == NameLabel(name)
  {
    LabelUnderDirectory(DocsDir, name);
    GetFormattedData(DocsDir + "/" + name, data).value
  }

  /** `file.replace(".txt", "")`: every occurrence of ".txt" is removed, not only a suffix. */
  function DocKey(name: string): string
  {
    Join(Split(name, TxtSuffix), "")
  }

  /** The `docs` dictionary after the first loop over `files`: a later file whose key
      collides with an earlier one overwrites it. */
  function DocsMap(files: seq<Entry>): map<string, string>
    decreases |files|
  {
    if files == [] then map[]
    else
      var last := files[|files| - 1];
      DocsMap(files[..|files| - 1])[DocKey(last.name) := last.contents]
  }

  /** The chunks of one listed file. */
  function EntryChunks(file: Entry): seq<Chunk>
  {
    FileChunks(file.name, file.contents)
  }

  /** `chunked_data` after the second loop over `files`. */
  function ChunkedData(files: seq<Entry>): seq<Chunk>
  {
    FlatMap(EntryChunks, files)
  }

  /** `txt_files`: the names of the listed `.txt` files. */
  function Names(files: seq<Entry>): seq<string>
  {
    seq(|files|, k requires 0 <= k < |files| => files[k].name)
  }

  /** The module body of rag.py over the listing of "docs" (each name with its file's text):
      `txt_files`, the `docs` dictionary and the `chunked_data` list it leaves behind. */
  method Run(listing: seq<Entry>) returns (txtFiles: seq<string>, docs: map<string, string>, chunkedData: seq<Chunk>)
    ensures txtFiles == Names(TxtFiles(listing))
    ensures docs == DocsMap(TxtFiles(listing))
    ensures chunkedData == ChunkedData(TxtFiles(listing))
  {
    var files := TxtFiles(listing);
    txtFiles := Names(files);

    docs := map[];
    var i := 0;
    while i < |files|
      invariant 0 <= i <= |files|
      invariant docs == DocsMap(files[..i])
    {
      var file := files[i];
      DocsMapStep(files, i);
      docs := docs[DocKey(file.name) := file.contents];
      i := i + 1;
    }
    PrefixWhole(files);

    chunkedData := [];
    i := 0;
    while i < |files|
      invariant 0 <= i <= |files|
      invariant chunkedData == ChunkedData(files[..i])
    {
      var file := files[i];
      ChunkedDataStep(files, i);
      chunkedData := chunkedData + FileChunks(file.name, file.contents);
      i := i + 1;
    }
    PrefixWhole(files);
  }

  // ---------------------------------------------------------------- lemmas

  /** One more file stores its text under its key. */
  lemma DocsMapStep(files: seq<Entry>, i: nat)
    requires i < |files|
    ensures DocsMap(files[..i + 1]) == DocsMap(files[..i])[DocKey(files[i].name) := files[i].contents]
  {
    assert files[..i + 1][..i] == files[..i];
  }

  /** One more file appends its chunks. */
  lemma ChunkedDataStep(files: seq<Entry>, i: nat)
    requires i < |files|
    ensures ChunkedData(files[..i + 1]) == ChunkedData(files[..i]) + FileChunks(files[i].name, files[i].contents)
  {
    FlatMapStep(EntryChunks, files, i);
  }

  /** A "product_specs" file gives one chunk per "Product Name", each opening with it, and
      none when the file has no marker. */
  lemma StructuredFile(name: string, data: string)
    requires NameLabel(name) == StructuredLabel
    ensures var chunks := FileChunks(name, data);
      && Contents(chunks) == StructuredSplit(data)
      && |chunks| == Occurrences(data, Marker)
      && (forall k :: 0 <= k < |chunks| ==> Marker <= chunks[k].content)
      && (!Contains(data, Marker) ==> chunks == [])
  {
    LabelUnderDirectory(DocsDir, name);
    StructuredChunks(StructuredLabel, DocsDir + "/" + name, data);
  }

  /** Any other file is cut into paragraphs that rejoin with "\n\n" to its text. */
  lemma ParagraphFile(name: string, data: string)
    requires NameLabel(name) != StructuredLabel
    ensures var chunks := FileChunks(name, data);
      && Contents(chunks) == ParagraphSplit(data)
      && Join(Contents(chunks), ParagraphBreak) == data
      && (forall k :: 0 <= k < |chunks| ==> !Contains(chunks[k].content, ParagraphBreak))
  {
    LabelUnderDirectory(DocsDir, name);
    ParagraphChunks(StructuredLabel, DocsDir + "/" + name, data);
  }

  /** The two scripts disagree on a file labelled "products_specs" (such as
      "products_specs.txt", see ProductsSpecsLabel): utils.py splits it into records, rag.py
      into paragraphs. */
  lemma StructuredLabelsDisagree(name: string, data: string)
    requires NameLabel(name) == Utils.StructuredLabel
    ensures Utils.GetFormattedData(DocsDir + "/" + name, data) == Ok(Tag(NameLabel(name), StructuredSplit(data)))
    ensures FileChunks(name, data) == Tag(NameLabel(name), ParagraphSplit(data))
  {
    LabelUnderDirectory(DocsDir, name);
    ParagraphFile(name, data);
  }

  /** So an empty file of that label gives no chunk in utils.py and a single empty chunk in
      rag.py. */
  lemma EmptyProductsSpecs(name: string)
    requires NameLabel(name) == Utils.StructuredLabel
    ensures Utils.GetFormattedData(DocsDir + "/" + name, "") == Ok([])
    ensures FileChunks(name, "") == [Chunk(Utils.StructuredLabel, "")]
  {
    StructuredLabelsDisagree(name, "");
    assert Split("", ParagraphBreak) == [""];
    assert StructuredSplit("") == [];
    assert Tag(NameLabel(name), []) == [];
  }

  /** "products_specs.txt" is labelled "products_specs". */
  lemma ProductsSpecsLabel()
    ensures NameLabel(Utils.StructuredLabel + TxtSuffix) == Utils.StructuredLabel
  {
    var base := Utils.StructuredLabel;
    assert '.' !in base && '/' !in base;
    PlainTxtNameLabel(base);
  }

  /** A name made of a plain base (no `.`, no `/`) and ".txt" is labelled with the base. */
  lemma PlainTxtNameLabel(base: string)
    requires '.' !in base && '/' !in base
    ensures NameLabel(base + TxtSuffix) == base
  {
    IndexOfAfter(base, TxtSuffix, '.');
    assert (base + TxtSuffix)[|base|] == '.';
    assert forall c :: c in base + TxtSuffix ==> c in base || c in TxtSuffix;
    NameLabelOfPlainName(base + TxtSuffix);
    assert (base + TxtSuffix)[..|base|] == base;
  }

  /** Chunking the files of `a + b` is chunking `a`, then `b`. */
  lemma ChunkedDataAppend(a: seq<Entry>, b: seq<Entry>)
    ensures ChunkedData(a + b) == ChunkedData(a) + ChunkedData(b)
  {
    FlatMapAppend(EntryChunks, a, b);
  }

  /** The keys of `docs` are exactly the keys of the listed files. */
  lemma {:induction false} DocsMapKeys(files: seq<Entry>)
    ensures forall key :: key in DocsMap(files) <==> exists i :: 0 <= i < |files| && DocKey(files[i].name) == key
    decreases |files|
  {
    if files != [] {
      var front := files[..|files| - 1];
      DocsMapKeys(front);
      assert forall i :: 0 <= i < |front| ==> front[i] == files[i];
    }
  }

  /** A key holds the text of the last file that has it. */
  lemma {:induction false} DocsMapLastWins(files: seq<Entry>, i: nat)
    requires i < |files|
    requires forall j :: i < j < |files| ==> DocKey(files[j].name) != DocKey(files[i].name)
    ensures DocKey(files[i].name) in DocsMap(files)
    ensures DocsMap(files)[DocKey(files[i].name)] == files[i].contents
    decreases |files|
  {
    var front := files[..|files| - 1];
    if i < |front| {
      assert forall j :: i < j < |front| ==> front[j] == files[j];
      DocsMapLastWins(front, i);
    }
  }

  /** A name that is a base followed by its only ".txt" gets the base as its key. */
  lemma DocKeyOfTxtName(base: string)
    requires EndsAtSeparator(base, TxtSuffix)
    ensures DocKey(base + TxtSuffix) == base
  {
    SplitAfterPiece(base, TxtSuffix, "");
    assert base + TxtSuffix + "" == base + TxtSuffix;
    assert Split("", TxtSuffix) == [""];
    assert Split(base + TxtSuffix, TxtSuffix) == [base, ""];
    assert [base, ""][1..] == [""];
    assert Join([base, ""], "") == base + "" + "";
  }

  /** `replace` removes every ".txt", not only the suffix: "base.txt.txt" gets the same key
      as "base.txt", so whichever of the two files is listed later overwrites the other in
      `docs`. */
  lemma DocKeyRemovesEveryOccurrence(base: string)
    requires EndsAtSeparator(base, TxtSuffix)
    ensures DocKey(base + TxtSuffix + TxtSuffix) == base
    ensures DocKey(base + TxtSuffix) == base
  {
    assert EndsAtSeparator("", TxtSuffix);
    SplitAfterPiece(base, TxtSuffix, TxtSuffix);
    SplitAfterPiece("", TxtSuffix, "");
    assert "" + TxtSuffix + "" == TxtSuffix;
    assert Split("", TxtSuffix) == [""];
    var parts := Split(base + TxtSuffix + TxtSuffix, TxtSuffix);
    assert parts == [base, "", ""];
    assert parts[1..] == ["", ""] && parts[1..][1..] == [""];
    assert Join([""], "") == "";
    assert Join(["", ""], "") == "";
    assert Join(parts, "") == base + "" + Join(["", ""], "");
    DocKeyOfTxtName(base);
  }
}
