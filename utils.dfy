/** utils.py: `get_formatted_data` with the structured label "products_specs", and
    `get_documents`, which chunks every `.txt` file of the documents directory in listing
    order and wraps each chunk in a `Document`. */
module Utils {
  import opened Text
  import opened Chunking

  /** The label that selects structured-record splitting in utils.py. */
  const StructuredLabel: string := "products_specs"

  /** A LangChain `Document`: the chunk's text and a metadata dictionary. */
  datatype Document = Document(pageContent: string, metadata: map<string, string>)

  /** `get_formatted_data(filename)` of utils.py on a file holding `data`. */
  function GetFormattedData(filename: string, data: string): Result<seq<Chunk>>
  {
    FormatData(StructuredLabel, filename, data)
  }

  /** `os.path.join(dir, name)` for POSIX paths. */
  function PathJoin(dir: string, name: string): string
  {
    if "/" <= name then name
    else if dir == "" || EndsWith(dir, "/") then dir + name
    else dir + "/" + name
  }

  /** What `f` gives for each element, concatenated in order; the first error ends it. */
  function CollectAll<A, B>(f: A -> Result<seq<B>>, xs: seq<A>): Result<seq<B>>
    decreases |xs|
  {
    if xs == [] then Ok([])
    else
      match CollectAll(f, xs[..|xs| - 1])
      case Err(e) => Err(e)
      case Ok(earlier) =>
        match f(xs[|xs| - 1])
        case Err(e) => Err(e)
        case Ok(pieces) => Ok(earlier + pieces)
  }

  /** `get_formatted_data(os.path.join(docsPath, file))` for one listed file. */
  function FileChunks(docsPath: string, file: Entry): Result<seq<Chunk>>
  {
    GetFormattedData(PathJoin(docsPath, file.name), file.contents)
  }

  /** The chunks of `files`, file after file, as the first loop of `get_documents` collects
      them; the first file whose label cannot be derived raises. */
  function ChunkFiles(docsPath: string, files: seq<Entry>): Result<seq<Chunk>>
  {
    CollectAll(file => FileChunks(docsPath, file), files)
  }

  /** The sum over `files` of the chunk counts each file's text calls for. */
  function TotalChunks(docsPath: string, files: seq<Entry>): nat
    decreases |files|
  {
    if files == [] then 0
    else
      var last := files[|files| - 1];
      TotalChunks(docsPath, files[..|files| - 1])
        + ExpectedChunks(StructuredLabel, PathJoin(docsPath, last.name), last.contents)
  }

  /** `Document(page_content=chunk["content"], metadata={"source": chunk["source"]})` */
  function ToDocument(chunk: Chunk): Document
  {
    Document(chunk.content, map["source" := chunk.source])
  }

  /** The chunk a document was made from, read back from its content and metadata. */
  function SourceChunk(doc: Document): Chunk
    requires "source" in doc.metadata
  {
    Chunk(doc.metadata["source"], doc.pageContent)
  }

  /** The documents made from `chunks`, one per chunk, in order. */
  function ToDocuments(chunks: seq<Chunk>): seq<Document>
  {
    seq(|chunks|, k requires 0 <= k < |chunks| => ToDocument(chunks[k]))
  }

  /** What `get_documents()` returns for a directory listing. */
  function Documents(docsPath: string, listing: seq<Entry>): Result<seq<Document>>
  {
    match ChunkFiles(docsPath, TxtFiles(listing))
    case Err(e) => Err(e)
    case Ok(chunks) => Ok(ToDocuments(chunks))
  }

  /** `get_documents()` over the directory `docsPath` whose listing, with each file's text,
      is `listing`. */
  method GetDocuments(docsPath: string, listing: seq<Entry>) returns (r: Result<seq<Document>>)
    ensures r == Documents(docsPath, listing)
  {
    var txtFiles := TxtFiles(listing);
    var chunkedData: seq<Chunk> := [];
    var i := 0;
    while i < |txtFiles|
      invariant 0 <= i <= |txtFiles|
      invariant ChunkFiles(docsPath, txtFiles[..i]) == Ok(chunkedData)
    {
      var file := txtFiles[i];
      var joinedPath := PathJoin(docsPath, file.name);
      var formatted := GetFormattedData(joinedPath, file.contents);
      ChunkFilesStep(docsPath, txtFiles, i);
      if formatted.Err? {
        ChunkFilesFailFrom(docsPath, txtFiles, i + 1);
        return Err(formatted.error);
      }
      chunkedData := chunkedData + formatted.value;
      i := i + 1;
    }
    PrefixWhole(txtFiles);

    var documents: seq<Document> := [];
    var j := 0;
    while j < |chunkedData|
      invariant 0 <= j <= |chunkedData|
      invariant documents == ToDocuments(chunkedData[..j])
    {
      var chunk := chunkedData[j];
      var doc := ToDocument(chunk);
      ToDocumentsSnoc(chunkedData, j);
      documents := documents + [doc];
      j := j + 1;
    }
    PrefixWhole(chunkedData);
    return Ok(documents);
  }

  // ---------------------------------------------------------------- lemmas

  /** Collecting over `a + b` is collecting over `a`, then `b`, and concatenating; it fails
      exactly when one of the two parts fails. */
  lemma {:induction false} CollectAllAppend<A, B>(f: A -> Result<seq<B>>, a: seq<A>, b: seq<A>)
    ensures CollectAll(f, a + b).Ok? <==> CollectAll(f, a).Ok? && CollectAll(f, b).Ok?
    ensures CollectAll(f, a + b).Ok? ==> CollectAll(f, a + b).value == CollectAll(f, a).value + CollectAll(f, b).value
    decreases |b|
  {
    if b == [] {
      assert a + b == a;
    } else {
      var n := |b| - 1;
      CollectAllAppend(f, a, b[..n]);
      assert (a + b)[..|a + b| - 1] == a + b[..n];
      assert (a + b)[|a + b| - 1] == b[n];
      var last := f(b[n]);
      if CollectAll(f, a).Ok? && CollectAll(f, b[..n]).Ok? && last.Ok? {
        var x, y := CollectAll(f, a).value, CollectAll(f, b[..n]).value;
        assert x + y + last.value == x + (y + last.value);
      }
    }
  }

  /** Collecting fails exactly when `f` fails on some element. */
  lemma {:induction false} CollectAllFails<A, B>(f: A -> Result<seq<B>>, xs: seq<A>)
    ensures CollectAll(f, xs).Err? <==> exists k :: 0 <= k < |xs| && f(xs[k]).Err?
    decreases |xs|
  {
    if xs != [] {
      var front := xs[..|xs| - 1];
      CollectAllFails(f, front);
      assert forall k :: 0 <= k < |front| ==> front[k] == xs[k];
    }
  }

  /** Chunking the files of `a + b` is chunking `a`, then `b`, and concatenating; it fails
      exactly when one of the two parts fails. */
  lemma ChunkFilesAppend(docsPath: string, a: seq<Entry>, b: seq<Entry>)
    ensures ChunkFiles(docsPath, a + b).Ok? <==> ChunkFiles(docsPath, a).Ok? && ChunkFiles(docsPath, b).Ok?
    ensures ChunkFiles(docsPath, a + b).Ok? ==>
      ChunkFiles(docsPath, a + b).value == ChunkFiles(docsPath, a).value + ChunkFiles(docsPath, b).value
  {
    CollectAllAppend(file => FileChunks(docsPath, file), a, b);
  }

  /** Once a prefix of the files fails, the whole chunking fails. */
  lemma ChunkFilesFailFrom(docsPath: string, files: seq<Entry>, i: nat)
    requires i <= |files| && ChunkFiles(docsPath, files[..i]).Err?
    ensures ChunkFiles(docsPath, files).Err?
  {
    ChunkFilesAppend(docsPath, files[..i], files[i..]);
    assert files[..i] + files[i..] == files;
  }

  /** One more file: its chunks are appended, or its failure ends the chunking. */
  lemma ChunkFilesStep(docsPath: string, files: seq<Entry>, i: nat)
    requires i < |files|
    ensures var formatted := GetFormattedData(PathJoin(docsPath, files[i].name), files[i].contents);
      ChunkFiles(docsPath, files[..i + 1]) ==
        match ChunkFiles(docsPath, files[..i])
        case Err(e) => Err(e)
        case Ok(earlier) => if formatted.Err? then Err(formatted.error) else Ok(earlier + formatted.value)
  {
    assert files[..i + 1][..i] == files[..i];
  }

  /** Converting one chunk more appends its document. */
  lemma ToDocumentsSnoc(chunks: seq<Chunk>, j: nat)
    requires j < |chunks|
    ensures ToDocuments(chunks[..j + 1]) == ToDocuments(chunks[..j]) + [ToDocument(chunks[j])]
  {
  }

  /** The chunk list is as long as the sum of the per-file chunk counts. */
  lemma {:induction false} ChunkFilesCount(docsPath: string, files: seq<Entry>)
    requires ChunkFiles(docsPath, files).Ok?
    ensures |ChunkFiles(docsPath, files).value| == TotalChunks(docsPath, files)
    decreases |files|
  {
    if files != [] {
      var last := files[|files| - 1];
      ChunkFilesCount(docsPath, files[..|files| - 1]);
      FormatDataCount(StructuredLabel, PathJoin(docsPath, last.name), last.contents);
    }
  }

  /** Chunking fails exactly when some file's path yields no label. */
  lemma ChunkFilesFails(docsPath: string, files: seq<Entry>)
    ensures ChunkFiles(docsPath, files).Err? <==>
      exists k :: 0 <= k < |files| && Label(PathJoin(docsPath, files[k].name)).Err?
  {
    var f := file => FileChunks(docsPath, file);
    CollectAllFails(f, files);
    assert forall k :: 0 <= k < |files| ==> (f(files[k]).Err? <==> Label(PathJoin(docsPath, files[k].name)).Err?);
  }

  /** Each document holds one chunk's text and its source and nothing else, so the chunks
      can be read back from the documents. */
  lemma DocumentsRoundTrip(chunks: seq<Chunk>)
    ensures |ToDocuments(chunks)| == |chunks|
    ensures forall k :: 0 <= k < |chunks| ==>
      && ToDocuments(chunks)[k].pageContent == chunks[k].content
      && ToDocuments(chunks)[k].metadata.Keys == {"source"}
      && SourceChunk(ToDocuments(chunks)[k]) == chunks[k]
  {
  }

  /** `get_documents()` gives one document per chunk of the `.txt` files, in order: as many
      as the files' chunk counts add up to, each carrying its chunk's text and source. */
  lemma DocumentsOfListing(docsPath: string, listing: seq<Entry>)
    requires Documents(docsPath, listing).Ok?
    ensures var docs := Documents(docsPath, listing).value;
      var chunks := ChunkFiles(docsPath, TxtFiles(listing)).value;
      && |docs| == |chunks| == TotalChunks(docsPath, TxtFiles(listing))
      && forall k :: 0 <= k < |docs| ==>
           docs[k].pageContent == chunks[k].content && docs[k].metadata == map["source" := chunks[k].source]
  {
    ChunkFilesCount(docsPath, TxtFiles(listing));
  }

  /** Under a documents directory such as "docs" or "docs/" (no `.` and no inner `/`), a
      file's path is the directory, a `/` and its name. */
  lemma PathUnderDocsDir(dir: string, name: string)
    requires dir != [] && '/' !in dir && '/' !in name
    ensures PathJoin(dir, name) == dir + "/" + name
    ensures PathJoin(dir + "/", name) == dir + "/" + name
  {
    assert dir[|dir| - 1] != '/';
    assert name != [] ==> name[0] != '/';
  }

  /** Under such a directory no file's label fails, so `get_documents()` never raises, and
      every file's label is its name up to the first `.`. */
  lemma DocsDirNeverFails(dir: string, listing: seq<Entry>)
    requires dir != [] && '.' !in dir && '/' !in dir
    requires forall k :: 0 <= k < |listing| ==> '/' !in listing[k].name
    ensures Documents(dir, listing).Ok? && Documents(dir + "/", listing).Ok?
    ensures forall k :: 0 <= k < |listing| ==>
      Label(PathJoin(dir, listing[k].name)) == Ok(listing[k].name[..IndexOf(listing[k].name, '.')])
  {
    forall k | 0 <= k < |listing|
      ensures Label(PathJoin(dir, listing[k].name)) == Ok(listing[k].name[..IndexOf(listing[k].name, '.')])
      ensures Label(PathJoin(dir + "/", listing[k].name)).Ok?
    {
      PathUnderDocsDir(dir, listing[k].name);
      LabelUnderDirectory(dir, listing[k].name);
      NameLabelOfPlainName(listing[k].name);
    }
    var files := TxtFiles(listing);
    assert forall k :: 0 <= k < |files| ==> files[k] in listing;
    ChunkFilesFails(dir, files);
    ChunkFilesFails(dir + "/", files);
  }
}
