/** The chunking step that utils.py and rag.py share (`get_formatted_data`): a file's path
    gives a source label, the label picks a splitting policy, and each piece of the file's
    text becomes a `{source, content}` chunk. The two files differ only in the label that
    selects structured-record splitting, so that label is a parameter here. */
module Chunking {
  import opened Text

  /** The only exception the chunking code can raise: a list index past its end. */
  datatype Error = IndexError

  datatype Result<T> = Ok(value: T) | Err(error: Error)

  /** A `{"source": …, "content": …}` dictionary. */
  datatype Chunk = Chunk(source: string, content: string)

  /** One name returned by the directory listing, with the text the file holds. */
  datatype Entry = Entry(name: string, contents: string)

  /** The header that opens every product record. */
  const Marker: string := "Product Name"

  /** The paragraph separator. */
  const ParagraphBreak: string := "\n\n"

  const TxtSuffix: string := ".txt"

  /** `filename.split(".")[0].split("/")[1]`, with the IndexError it raises when the part
      before the first `.` has no `/`. */
  function Label(filename: string): (r: Result<string>)
  {
    var components := Split(Split(filename, ".")[0], "/");
    if |components| < 2 then Err(IndexError) else Ok(components[1])
  }

  /** The label of a listed file name placed under a directory: the name up to its first
      `.`, cut again at its first `/`. */
  function NameLabel(name: string): string
  {
    var stem := name[..IndexOf(name, '.')];
    stem[..IndexOf(stem, '/')]
  }

  /** The `.txt` entries of a listing, in listing order
      (`[file for file in listing if file.endswith(".txt")]`). */
  function TxtFiles(listing: seq<Entry>): (files: seq<Entry>)
    ensures forall e :: e in files <==> e in listing && EndsWith(e.name, TxtSuffix)
    decreases |listing|
  {
    if listing == [] then []
    else (if EndsWith(listing[0].name, TxtSuffix) then [listing[0]] else []) + TxtFiles(listing[1..])
  }

  /** `re.split("(?=Product Name)", data)[1:]` */
  function StructuredSplit(data: string): seq<string>
  {
    SplitBefore(data, Marker)[1..]
  }

  /** `re.split("\n\n", data)` */
  function ParagraphSplit(data: string): seq<string>
  {
    Split(data, ParagraphBreak)
  }

  /** `[{"source": source, "content": x} for x in pieces]` */
  function Tag(source: string, pieces: seq<string>): seq<Chunk>
  {
    seq(|pieces|, k requires 0 <= k < |pieces| => Chunk(source, pieces[k]))
  }

  /** The contents of a list of chunks, in order. */
  function Contents(chunks: seq<Chunk>): seq<string>
  {
    seq(|chunks|, k requires 0 <= k < |chunks| => chunks[k].content)
  }

  /** `get_formatted_data(filename)` on a file holding `data`, where a label equal to
      `structuredLabel` selects the structured-record split. */
  function FormatData(structuredLabel: string, filename: string, data: string): (r: Result<seq<Chunk>>)
    ensures r.Ok? <==> Label(filename).Ok?
    ensures r.Ok? ==> forall k :: 0 <= k < |r.value| ==> r.value[k].source == Label(filename).value
  {
    match Label(filename)
    case Err(e) => Err(e)
    case Ok(source) =>
      var pieces := if source == structuredLabel then StructuredSplit(data) else ParagraphSplit(data);
      Ok(Tag(source, pieces))
  }

  /** How many chunks a file should give, counted from its text alone: one per marker in
      structured mode, one more than the separators in paragraph mode, none on an error. */
  function ExpectedChunks(structuredLabel: string, filename: string, data: string): nat
  {
    match Label(filename)
    case Err(_) => 0
    case Ok(source) =>
      if source == structuredLabel then Occurrences(data, Marker) else Count(data, ParagraphBreak) + 1
  }

  // ---------------------------------------------------------------- labels

  /** The label is the second `/`-separated component of the part of the file name before
      its first `.`; it exists exactly when that part holds a `/`. */
  lemma LabelIsSecondComponent(filename: string)
    ensures var stem := filename[..IndexOf(filename, '.')];
      var i := IndexOf(stem, '/');
      && (Label(filename).Ok? <==> i < |stem|)
      && (i < |stem| ==> Label(filename).value == stem[i + 1..][..IndexOf(stem[i + 1..], '/')])
  {
    var stem := filename[..IndexOf(filename, '.')];
    assert "." == ['.'] && "/" == ['/'];
    FirstPieceAtChar(filename, '.');
    assert Split(filename, ".")[0] == stem;
    var components := Split(stem, "/");
    assert Label(filename) == if |components| < 2 then Err(IndexError) else Ok(components[1]);
    SecondPieceAtChar(stem, '/');
  }

  /** A file listed under a directory whose name has no `.` and no `/` always has a label:
      its own name up to the first `.` (and up to a `/`, should the name hold one). */
  lemma LabelUnderDirectory(dir: string, name: string)
    requires '.' !in dir && '/' !in dir
    ensures Label(dir + "/" + name) == Ok(NameLabel(name))
  {
    var path := dir + "/" + name;
    assert '.' !in dir + "/";
    IndexOfAfter(dir + "/", name, '.');
    var k := IndexOf(name, '.');
    var stem := path[..IndexOf(path, '.')];
    assert stem == dir + ("/" + name[..k]);
    IndexOfAfter(dir, "/" + name[..k], '/');
    assert IndexOf(stem, '/') == |dir|;
    assert stem[|dir| + 1..] == name[..k];
    LabelIsSecondComponent(path);
  }

  /** For a name without `/`, the label is the name up to its first `.`. */
  lemma NameLabelOfPlainName(name: string)
    requires '/' !in name
    ensures NameLabel(name) == name[..IndexOf(name, '.')]
  {
    var stem := name[..IndexOf(name, '.')];
    assert forall j :: 0 <= j < |stem| ==> stem[j] == name[j];
    assert '/' !in stem;
  }

  // ---------------------------------------------------------------- splitting policies

  /** "Product Name" never overlaps itself. */
  lemma MarkerIsBorderFree()
    ensures BorderFree(Marker)
  {
    forall j | 0 < j < |Marker|
      ensures Marker[j..] != Marker[..|Marker| - j]
    {
      assert Marker[j..][0] == Marker[j] != 'P';
    }
  }

  /** The structured split of a text: one piece per marker, each opening with it, together
      spelling the text from the first marker on; no marker (an empty text too) gives none. */
  lemma StructuredPieces(data: string)
    ensures var pieces := StructuredSplit(data);
      && |pieces| == Occurrences(data, Marker) == Count(data, Marker)
      && (forall k :: 0 <= k < |pieces| ==> Marker <= pieces[k])
      && Concat(pieces) == data[FirstMatch(data, Marker)..]
      && (!Contains(data, Marker) ==> pieces == [])
  {
    MarkerIsBorderFree();
    SplitBeforeTail(data, Marker);
  }

  /** Structured mode: the chunks are the structured pieces of the text, all labelled with
      the structured label, so there is one per marker and each opens with it. */
  lemma StructuredChunks(structuredLabel: string, filename: string, data: string)
    requires Label(filename) == Ok(structuredLabel)
    ensures var chunks := FormatData(structuredLabel, filename, data).value;
      && Contents(chunks) == StructuredSplit(data)
      && |chunks| == Occurrences(data, Marker) == Count(data, Marker)
      && (forall k :: 0 <= k < |chunks| ==> Marker <= chunks[k].content && chunks[k].source == structuredLabel)
      && Concat(Contents(chunks)) == data[FirstMatch(data, Marker)..]
      && (!Contains(data, Marker) ==> chunks == [])
  {
    ContentsOfTag(structuredLabel, StructuredSplit(data));
    StructuredPieces(data);
  }

  /** Paragraph mode: the chunks are the paragraphs of the text, in order; rejoined with
      "\n\n" they give back the text, none holds "\n\n", there is one more chunk than
      separators, and an empty file gives one empty chunk. */
  lemma ParagraphChunks(structuredLabel: string, filename: string, data: string)
    requires Label(filename).Ok? && Label(filename).value != structuredLabel
    ensures var chunks := FormatData(structuredLabel, filename, data).value;
      && Contents(chunks) == ParagraphSplit(data)
      && Join(Contents(chunks), ParagraphBreak) == data
      && |chunks| == Count(data, ParagraphBreak) + 1
      && (forall k :: 0 <= k < |chunks| ==> !Contains(chunks[k].content, ParagraphBreak))
      && (data == "" ==> chunks == [Chunk(Label(filename).value, "")])
  {
    ContentsOfTag(Label(filename).value, ParagraphSplit(data));
    SplitThenJoin(data, ParagraphBreak);
    SplitCount(data, ParagraphBreak);
    SplitPiecesAvoidSeparator(data, ParagraphBreak);
  }

  /** Paragraph mode keeps empty paragraphs: two breaks in a row give an empty chunk
      between them. */
  lemma ParagraphsKeepEmpty(a: string, b: string)
    requires EndsAtSeparator(a, ParagraphBreak) && !Contains(b, ParagraphBreak)
    ensures ParagraphSplit(a + ParagraphBreak + ParagraphBreak + b) == [a, "", b]
  {
    var sep := ParagraphBreak;
    assert a + sep + sep + b == a + sep + (sep + b);
    SplitAfterPiece(a, sep, sep + b);
    assert EndsAtSeparator("", sep);
    SplitAfterPiece("", sep, b);
    assert "" + sep + b == sep + b;
    SplitOfUnseparated(b, sep);
  }

  /** Tagging keeps the pieces as the contents, in order. */
  lemma ContentsOfTag(source: string, pieces: seq<string>)
    ensures Contents(Tag(source, pieces)) == pieces
  {
  }

  /** A successful chunking gives exactly the expected number of chunks. */
  lemma FormatDataCount(structuredLabel: string, filename: string, data: string)
    requires FormatData(structuredLabel, filename, data).Ok?
    ensures |FormatData(structuredLabel, filename, data).value| == ExpectedChunks(structuredLabel, filename, data)
  {
    if Label(filename).value == structuredLabel {
      StructuredChunks(structuredLabel, filename, data);
    } else {
      ParagraphChunks(structuredLabel, filename, data);
    }
  }

  /** Filtering a listing distributes over concatenation, so listing order is kept. */
  lemma {:induction false} TxtFilesAppend(a: seq<Entry>, b: seq<Entry>)
    ensures TxtFiles(a + b) == TxtFiles(a) + TxtFiles(b)
    decreases |a|
  {
    if a == [] {
      assert a + b == b;
    } else {
      TxtFilesAppend(a[1..], b);
      TailOfAppend(a, b);
      var head := if EndsWith(a[0].name, TxtSuffix) then [a[0]] else [];
      var x, y := TxtFiles(a[1..]), TxtFiles(b);
      assert TxtFiles(a + b) == head + (x + y);
      assert head + (x + y) == (head + x) + y;
    }
  }
}
