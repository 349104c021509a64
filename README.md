# vision-pdf-parser: a Dafny model of the PDF-to-text pipeline

`PDF_to_text.py` turns a PDF into a text file. It works in four steps:

1. It walks every page's blocks in order.
2. Each text block becomes its extracted, stripped text on a line of its own.
3. Each image block is written to a staging directory as `p<page>-b<number>.<ext>`. A placeholder line `[image: p<page>-b<number>.<ext>]` stands in for it in the text.
4. Once the raw text is built, a vision model describes every staged image. Each image's file name is replaced in the text by its description. The result is saved as `<stem>.txt`. The stem is the base name's `.`-separated pieces without the last one, joined with no separator, so a dotless name gives the empty stem.

This project models that pipeline in Dafny and proves its properties. The PDF library, the vision backend and the file system become data and oracles.

The modules are:

- `Wrappers` holds `Option` and `Result`.
- `Seqs` holds a generic in-order concatenation `FlatMap` and its algebra.
- `PyStr` gives the Python string built-ins the program uses, as pure functions with their laws:
  - `str.strip` and `str(n)` (`NatStr`, with its parser and injectivity)
  - `str.replace`, including the empty-pattern case
  - `str.split` with a one-character separator, and `"".join`
  - POSIX `os.path.basename`
- `Extraction` covers `get_text`, `page_to_text` and the page loop of `pdf_to_text`.
  - The loops are methods proved against the specification functions `BlockText`, `PageText` and `DocText`.
  - `save_image` is a method of the class `Extractor`. It appends the file it writes to the field `saved`.
- `Descriptions` covers `get_image_descriptions`.
  - A Python dict is an insertion-ordered sequence of entries. Assigning an existing key keeps its position.
  - Loading the backend is a boolean. `os.path.exists` is the oracle `present`.
  - One chat completion is the oracle `infer`. It returns the generated text, or raises with a message (`Err`).
  - The method's loop is proved against `DescriptionMap`.
- `Substitution` covers the replacement loop of `insert_image_descriptions`.
- `Pipeline` covers `insert_image_descriptions`, the output file name, and `pdf_to_text` as a whole.

Two consequences of the code are worth stating:

- Substitution replaces only the file name, so a described placeholder reads `[image: <description>]`: the marker and the bracket stay (`Substitution.PlaceholderDescribed`).
- Each text block contributes its text and one newline, and each page is followed by `"\n\n"`, so a page whose last block is text ends in three newlines.

## Model

| member | source | states |
|---|---|---|
| PyStr.StripNoOuterSpace | PDF_to_text.py:210 | `strip()` leaves no whitespace character at either end |
| PyStr.StripSlice | PDF_to_text.py:210 | the stripped text is a contiguous piece of the input; everything cut on either side is whitespace |
| PyStr.StripIdempotent | PDF_to_text.py:210 | stripping twice is stripping once |
| PyStr.NatStr | PDF_to_text.py:231 | `str(n)` is a non-empty string of decimal digits |
| PyStr.ParseNatStr | PDF_to_text.py:231 | reading the digits of `str(n)` back gives `n` |
| PyStr.NatStrInjective | PDF_to_text.py:231 | different numbers print differently |
| PyStr.ReplaceLength | PDF_to_text.py:251 | `replace` changes the length by `len(new) - len(old)` per rewritten, non-overlapping occurrence |
| PyStr.ReplaceAbsent | PDF_to_text.py:251 | replacing a non-empty pattern that does not occur is the identity |
| PyStr.ReplaceSelf | PDF_to_text.py:251 | replacing a pattern by itself is the identity, the empty pattern included |
| PyStr.ReplaceSkipPrefix | PDF_to_text.py:251 | a prefix without the pattern's first character is copied unchanged and the rest is replaced as on its own |
| PyStr.ReplaceAtStart | PDF_to_text.py:251 | an occurrence at the start is rewritten and the scan resumes after it |
| PyStr.JoinSplit | PDF_to_text.py:286 | splitting on a character and joining with it gives the string back |
| PyStr.SplitAround | PDF_to_text.py:286 | a separator splits the pieces of its two sides apart |
| PyStr.ConcatSplit | PDF_to_text.py:286 | joining the pieces with `""` removes exactly the separators |
| PyStr.BasenameSpec | PDF_to_text.py:154 | the base name is the slash-free tail of the path, cut at the last slash |
| PyStr.BasenameJoin | PDF_to_text.py:242 | the base name of `dir/name` is `name` when `name` has no slash |
| Extraction.RawTextAppend | PDF_to_text.py:204-209 | before stripping, `get_text`'s text for two runs of lines is the text of the first then of the second |
| Extraction.GetText | PDF_to_text.py:194-210 | the loop computes the stripped concatenation of the lines' contributions (each span's text plus a space, or the line's text); the result has no outer whitespace |
| Extraction.Extractor.SaveImage | PDF_to_text.py:189-191 | exactly one file, `name.ext`, is added to the files written |
| Extraction.Extractor.PageToText | PDF_to_text.py:212-232 | the text is the in-order concatenation of the block contributions; the files written grow by one request per image block, in block order |
| Extraction.PageStep | PDF_to_text.py:221-231 | one more block extends the page text by its contribution and the files by its request |
| Extraction.PageAppend | PDF_to_text.py:221-231 | the text and the files of two runs of blocks are those of the first then of the second |
| Extraction.PageRequestsCount | PDF_to_text.py:221-231 | a page writes exactly as many files as it has image blocks |
| Extraction.PlaceholderNamesSavedFile | PDF_to_text.py:226-231 | an image block's placeholder line names exactly the file its `save_image` call writes |
| Extraction.FileNameInjective | PDF_to_text.py:226-231 | page, block number and extension can be read back from a file name, so different images never share a file |
| Extraction.PageTextEndsLine | PDF_to_text.py:224-231 | a page's text is empty or ends with a newline |
| Extraction.ContributionCount | PDF_to_text.py:222-231 | a clean block adds one `[image: ` marker if it is an image and none otherwise |
| Extraction.PagePlaceholderCount | PDF_to_text.py:221-231 | on a clean page the number of `[image: ` markers equals the number of files the page writes |
| Extraction.Extractor.DocumentText | PDF_to_text.py:272-277 | the raw text is each page's text (pages numbered from 1) followed by a blank line; the files written are the pages' files in order |
| Extraction.DocStep | PDF_to_text.py:273-277 | one more page extends the raw text by its text and `"\n\n"`, and the files by its files |
| Extraction.DocRequestsCount | PDF_to_text.py:272-277 | the document writes exactly as many files as it has image blocks |
| Extraction.DocTextEndsLine | PDF_to_text.py:277 | the raw text is empty or ends with a newline |
| Extraction.PageRequestNames | PDF_to_text.py:226-229 | every file a page writes is named `p<page>-b<number>`, which holds no slash |
| Extraction.DocRequestNames | PDF_to_text.py:272-277 | every file the document writes has a name without a slash |
| Extraction.DocPlaceholderCount | PDF_to_text.py:272-277 | on a clean document the number of `[image: ` markers in the raw text equals the number of image blocks and the number of files written |
| Descriptions.PutGet | PDF_to_text.py:158-184 | after `d[k] = v`, `k` maps to `v` and every other key keeps its value |
| Descriptions.PutKeys | PDF_to_text.py:158-184 | `d[k] = v` adds `k` to the keys and nothing else |
| Descriptions.PutOrder | PDF_to_text.py:158-184 | a new key is appended at the end; an existing key keeps its place |
| Descriptions.PutAllKeys | PDF_to_text.py:153-184 | assigning items in turn gives exactly the items' keys, each once |
| Descriptions.PutAllLast | PDF_to_text.py:153-184 | the value under a key is that of the last item with the key |
| Descriptions.PutAllFresh | PDF_to_text.py:153-184 | with pairwise different keys the dict is the items, in order |
| Descriptions.DescribeOutcomes | PDF_to_text.py:157-184 | the three outcomes: missing file gives `Error: File not found.`; a raising inference gives `Error: Could not process image. Details: ` and the message; success gives the stripped text, without outer whitespace; both errors start with `Error:` |
| Descriptions.GetImageDescriptions | PDF_to_text.py:133-187 | a failed load gives the empty dict and asks nothing; otherwise each path's outcome is assigned under its base name in turn, with no early exit; the backend is asked exactly about the existing paths, in order |
| Descriptions.DescriptionKeys | PDF_to_text.py:153-187 | after a successful load the keys are exactly the paths' base names, each once: no image aborts the batch |
| Descriptions.DescriptionValue | PDF_to_text.py:153-187 | the value under a base name is the outcome of the last path with that base name, so a later duplicate overwrites an earlier one |
| Descriptions.DescriptionOrder | PDF_to_text.py:150-187 | with distinct base names the dict holds one entry per path, in path order |
| Substitution.InsertDescriptions | PDF_to_text.py:250-251 | the loop replaces each key by its value in dict order, each on the text the previous ones left; a dict whose entries cannot change the text leaves it unchanged |
| Substitution.ReplaceEachAppend | PDF_to_text.py:250-251 | substituting two dicts in sequence is substituting their concatenation |
| Substitution.ReplaceEachIdle | PDF_to_text.py:250-251 | an empty dict, keys absent from the text and keys mapped to themselves leave the text unchanged |
| Substitution.PlaceholderDescribed | PDF_to_text.py:251 | replacing an image's file name in its placeholder gives `[image: <description>]` followed by a newline |
| Pipeline.StagedKeys | PDF_to_text.py:241-247 | for listed names without slashes, the description keys are exactly the listed names; for distinct names there is one entry per file, in listing order |
| Pipeline.SavedFileSet | PDF_to_text.py:241 | a listing of the written files in write order holds exactly their file names |
| Pipeline.SavedImagesDescribed | PDF_to_text.py:241-251 | when the staging directory lists exactly the files the page loop wrote, the description keys are exactly those file names, so every placeholder's file name is looked up |
| Pipeline.InsertImageDescriptions | PDF_to_text.py:234-253 | the text after substituting the descriptions of the staged files; unchanged when the backend fails to load |
| Pipeline.StemNoDot | PDF_to_text.py:286 | the output stem contains no `.` |
| Pipeline.StemLastDot | PDF_to_text.py:286 | for a base name `a.b` with no dot in `b` the stem is `a` with its dots removed; `name.pdf` gives `name` |
| Pipeline.StemDotless | PDF_to_text.py:286 | a base name without a dot gives the empty stem and the output name `.txt` |
| Pipeline.StemIgnoresDirectory | PDF_to_text.py:286 | the directory part of the PDF path does not affect the stem |
| Pipeline.PdfToText | PDF_to_text.py:260-287 | the saved text is the raw document text with the staged images' descriptions substituted; the raw text itself when the backend fails to load; saved as stem + `.txt`; the files written are the document's images |

## Left out

- Opening the PDF and reading a page's block dictionary are out of scope: the document is given as its pages' blocks. Only the block fields the converter reads are kept (type tag, lines with spans or text, number, extension).
- Image bytes and their decoding and writing are not modelled: `Extractor.SaveImage` records the file name only. A decoding error that would abort the conversion is not modelled.
- Loading the llama.cpp backend, the prompt, the token limit and the chat message layout are out of scope. A load is a boolean, and one inference is the oracle `infer`, whose `Err` carries the exception message as a string.
- The file-name URL quoting is not modelled.
- `os.listdir` is the parameter `files`, in its returned order. `os.makedirs` is not modelled.
- The staging directory path is an abstract string `dir`, joined with `/`. The directory of the script and the temporary directory name are folded into it.
- Progress output (`print`, logging) and writing the result file (`save_text`) are not modelled: `PdfToText` returns the text and the file name instead.
- The module-level configuration (model paths, prompt, input path) is not modelled.
- `strip()` removes space, tab, newline, carriage return, vertical tab and form feed. The other characters Python's `strip()` also removes are not modelled: the separators `\x1c`-`\x1f`, `\x85`, the no-break space and the other Unicode spaces.
- Block numbers and page numbers are natural numbers. A negative block number would print with a minus sign, which `NatStr` does not produce.
- Directory listings are taken to hold only names without a slash, and distinct names for the ordering part of `Pipeline.StagedKeys`. The model states these as conditions instead of deriving them from a file system. `Pipeline.SavedImagesDescribed` links the listing to the written images only when the listing is exactly those files; stale files in the staging directory are not modelled, and image extensions are taken to hold no slash.
- The placeholder-count theorems (`Extraction.PagePlaceholderCount`, `Extraction.DocPlaceholderCount`) assume clean blocks. A text block's own text is free of `[image: `, and an image extension has no `[`.
- The resulting text after substitution is described per placeholder (`Substitution.PlaceholderDescribed`), not for whole documents. A description or text block that itself contains another image's file name can interact with later replacements, and no closed form for the final text is proved.
