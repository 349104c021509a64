/** `insert_image_descriptions` and `pdf_to_text`: the raw text of the
    document, the descriptions of the staged images substituted into it, and
    the name of the output text file derived from the PDF's name. */
module Pipeline {
  import opened Wrappers
  import opened PyStr
  import opened Extraction
  import opened Descriptions
  import opened Substitution

  // ---------------------------------------------------------------------------
  // insert_image_descriptions
  // ---------------------------------------------------------------------------

  /** The paths of the listed files of the staging directory `dir`. */
  function StagedPaths(dir: string, files: seq<string>): (r: seq<string>)
    ensures |r| == |files|
    ensures forall i :: 0 <= i < |files| ==> r[i] == dir + "/" + files[i]
  {
    seq(|files|, i requires 0 <= i < |files| => dir + "/" + files[i])
  }

  /** A listed file name (which holds no slash) is the base name of its staged
      path, so the description dict is keyed by the listed names: exactly the
      listed names, each once, and, the names being distinct as a directory
      listing's are, one entry per file in listing order. */
  lemma StagedKeys(dir: string, files: seq<string>, present: string -> bool, infer: string -> Result<string, string>)
    requires forall i :: 0 <= i < |files| ==> '/' !in files[i]
    ensures Keys(DescriptionMap(true, StagedPaths(dir, files), present, infer)) == set i | 0 <= i < |files| :: files[i]
    ensures (forall i, j :: 0 <= i < j < |files| ==> files[i] != files[j]) ==>
      DescriptionMap(true, StagedPaths(dir, files), present, infer)
        == seq(|files|, i requires 0 <= i < |files| => Entry(files[i], Describe(dir + "/" + files[i], present, infer)))
  {
    var paths := StagedPaths(dir, files);
    forall i | 0 <= i < |files| ensures Basename(paths[i]) == files[i] {
      BasenameJoin(dir, files[i]);
    }
    DescriptionKeys(paths, present, infer);
    assert Basenames(paths) == set i | 0 <= i < |files| :: files[i];
    if forall i, j :: 0 <= i < j < |files| ==> files[i] != files[j] {
      DescriptionOrder(paths, present, infer);
    }
  }

  /** The names of the files the page loop writes, in the order written. */
  function SavedFiles(pages: seq<seq<Block>>): (r: seq<string>)
    ensures |r| == |DocRequests(pages)|
    ensures forall i :: 0 <= i < |r| ==> r[i] == FileName(DocRequests(pages)[i])
  {
    var q := DocRequests(pages);
    seq(|q|, i requires 0 <= i < |q| => FileName(q[i]))
  }

  /** When the staging directory lists exactly the files the page loop wrote
      (extensions holding no slash), the description dict has a key for every
      written image, and no other key: each placeholder's file name is looked
      up in it. */
  lemma SavedImagesDescribed(pages: seq<seq<Block>>, dir: string, present: string -> bool, infer: string -> Result<string, string>)
    requires forall r :: r in DocRequests(pages) ==> '/' !in r.ext
    ensures Keys(DescriptionMap(true, StagedPaths(dir, SavedFiles(pages)), present, infer))
         == set r | r in DocRequests(pages) :: FileName(r)
  {
    var q := DocRequests(pages);
    var files := SavedFiles(pages);
    DocRequestNames(pages);
    forall i | 0 <= i < |files| ensures '/' !in files[i] {
      assert q[i] in q;
      assert files[i] == q[i].name + "." + q[i].ext;
    }
    StagedKeys(dir, files, present, infer);
    SavedFileSet(pages);
  }

  /** The listed names are the file names of the written images. */
  lemma SavedFileSet(pages: seq<seq<Block>>)
    ensures (set i | 0 <= i < |SavedFiles(pages)| :: SavedFiles(pages)[i]) == set r | r in DocRequests(pages) :: FileName(r)
  {
    var q, files := DocRequests(pages), SavedFiles(pages);
    var listed, written := set i | 0 <= i < |files| :: files[i], set r | r in q :: FileName(r);
    forall f | f in written ensures f in listed {
      var r :| r in q && f == FileName(r);
      var i :| 0 <= i < |q| && q[i] == r;
      assert files[i] == f;
    }
    forall f | f in listed ensures f in written {
      var i :| 0 <= i < |files| && files[i] == f;
      assert q[i] in q;
    }
  }

  /** `insert_image_descriptions(images_dir, pdf_text, ...)` over the listed
      files of the staging directory: the descriptions of the staged images,
      each file name replaced by its description. `calls` lists the paths the
      backend was asked about. Without a loaded backend the text is returned
      unchanged. */
  method InsertImageDescriptions(dir: string, files: seq<string>, text: string, loaded: bool,
                                 present: string -> bool, infer: string -> Result<string, string>)
    returns (r: string, calls: seq<string>)
    ensures r == ReplaceEach(text, DescriptionMap(loaded, StagedPaths(dir, files), present, infer))
    ensures calls == if loaded then Inferred(StagedPaths(dir, files), present) else []
    ensures !loaded ==> r == text
  {
    var paths := StagedPaths(dir, files);
    var d;
    d, calls := GetImageDescriptions(loaded, paths, present, infer);
    r := InsertDescriptions(text, d);
  }

  // ---------------------------------------------------------------------------
  // The output file name
  // ---------------------------------------------------------------------------

  /** `"".join(os.path.basename(pdf_path).split(".")[:-1])`. */
  function OutputStem(pdfPath: string): string
  {
    var parts := Split(Basename(pdfPath), '.');
    Concat(parts[..|parts| - 1])
  }

  /** The name of the text file written: the stem followed by `.txt`. */
  function TxtName(pdfPath: string): string
  {
    OutputStem(pdfPath) + ".txt"
  }

  /** The stem never holds a dot: the dots of the base name are dropped along
      with the last extension. */
  lemma StemNoDot(pdfPath: string)
    ensures '.' !in OutputStem(pdfPath)
  {
    var parts := Split(Basename(pdfPath), '.');
    var init := parts[..|parts| - 1];
    assert forall i :: 0 <= i < |init| ==> '.' !in init[i] by {
      forall i | 0 <= i < |init| ensures '.' !in init[i] { assert init[i] == parts[i]; }
    }
    ConcatLacks(init, '.');
  }

  /** For a base name `a.b` whose last dot precedes `b`, the stem is `a` with
      its own dots removed; `name.pdf` gives `name` when `name` has no dot. */
  lemma StemLastDot(pdfPath: string, a: string, b: string)
    requires Basename(pdfPath) == a + "." + b && '.' !in b
    ensures OutputStem(pdfPath) == Remove(a, '.')
    ensures '.' !in a ==> OutputStem(pdfPath) == a
  {
    SplitAround(a, b, '.');
    SplitNoSep(b, '.');
    var parts := Split(Basename(pdfPath), '.');
    assert parts == Split(a, '.') + [b];
    assert parts[..|parts| - 1] == Split(a, '.');
    ConcatSplit(a, '.');
    if '.' !in a {
      RemoveAbsent(a, '.');
    }
  }

  /** A base name without a dot gives the empty stem (the output is `.txt`). */
  lemma StemDotless(pdfPath: string)
    requires '.' !in Basename(pdfPath)
    ensures OutputStem(pdfPath) == ""
    ensures TxtName(pdfPath) == ".txt"
  {
    SplitNoSep(Basename(pdfPath), '.');
  }

  /** Only the base name matters: the directory part of the path is ignored. */
  lemma StemIgnoresDirectory(dir: string, name: string)
    requires '/' !in name
    ensures OutputStem(dir + "/" + name) == OutputStem(name)
  {
    BasenameJoin(dir, name);
    BasenameNoSlash(name);
  }

  // ---------------------------------------------------------------------------
  // pdf_to_text
  // ---------------------------------------------------------------------------

  /** `pdf_to_text(pdf_path, ...)` for a document given as its pages' blocks
      and a staging directory whose listing is `files`: returns the text saved
      and the name of the file it is saved under; `ex` records every image the
      page loop writes. */
  method PdfToText(ex: Extractor, pdfPath: string, pages: seq<seq<Block>>, dir: string, files: seq<string>,
                   loaded: bool, present: string -> bool, infer: string -> Result<string, string>)
    returns (text: string, txtName: string)
    modifies ex
    ensures ex.saved == old(ex.saved) + DocRequests(pages)
    ensures text == ReplaceEach(DocText(pages), DescriptionMap(loaded, StagedPaths(dir, files), present, infer))
    ensures !loaded ==> text == DocText(pages)
    ensures txtName == TxtName(pdfPath)
  {
    var raw := ex.DocumentText(pages);
    var calls;
    text, calls := InsertImageDescriptions(dir, files, raw, loaded, present, infer);
    var parts := Split(Basename(pdfPath), '.');
    txtName := Concat(parts[..|parts| - 1]) + ".txt";
  }
}
