/** The substitution loop of `insert_image_descriptions`: every key of the
    description dict, in the dict's order, is replaced throughout the text by
    its value, each replacement working on the text the previous ones left. */
module Substitution {
  import opened PyStr
  import opened Descriptions
  import opened Extraction

  /** The text after `text = text.replace(key, value)` for each entry in turn. */
  function ReplaceEach(text: string, d: seq<Entry>): string
  {
    if d == [] then text
    else
      var last := d[|d| - 1];
      Replace(ReplaceEach(text, d[..|d| - 1]), last.key, last.value)
  }

  /** An entry whose replacement cannot change `text`: its value is its own
      key, or its key is non-empty and does not occur in `text`. */
  predicate Idle(text: string, e: Entry)
  {
    e.value == e.key || (e.key != [] && CountOcc(text, e.key) == 0)
  }

  /** Replacing by one dict and then by another is replacing by the two in
      sequence. */
  lemma {:induction false} ReplaceEachAppend(text: string, d1: seq<Entry>, d2: seq<Entry>)
    ensures ReplaceEach(text, d1 + d2) == ReplaceEach(ReplaceEach(text, d1), d2)
    decreases |d2|
  {
    if d2 == [] {
      assert d1 + d2 == d1;
    } else {
      var d := d1 + d2;
      assert d[..|d| - 1] == d1 + d2[..|d2| - 1];
      assert d[|d| - 1] == d2[|d2| - 1];
      ReplaceEachAppend(text, d1, d2[..|d2| - 1]);
    }
  }

  /** When no entry can change the text (in particular for an empty dict, for
      keys absent from the text and for keys mapped to themselves) the text
      comes back unchanged. */
  lemma {:induction false} ReplaceEachIdle(text: string, d: seq<Entry>)
    requires forall i :: 0 <= i < |d| ==> Idle(text, d[i])
    ensures ReplaceEach(text, d) == text
    decreases |d|
  {
    if d != [] {
      var init, last := d[..|d| - 1], d[|d| - 1];
      assert forall i :: 0 <= i < |init| ==> Idle(text, init[i]) by {
        forall i | 0 <= i < |init| ensures Idle(text, init[i]) { assert init[i] == d[i]; }
      }
      ReplaceEachIdle(text, init);
      assert Idle(text, last);
      if last.value == last.key {
        ReplaceSelf(text, last.key);
      } else {
        ReplaceAbsent(text, last.key, last.value);
      }
    }
  }

  /** `for file_name in d: text = text.replace(file_name, d[file_name])`. */
  method InsertDescriptions(text: string, d: seq<Entry>) returns (r: string)
    ensures r == ReplaceEach(text, d)
    ensures (forall i :: 0 <= i < |d| ==> Idle(text, d[i])) ==> r == text
  {
    r := text;
    for i := 0 to |d|
      invariant r == ReplaceEach(text, d[..i])
    {
      assert d[..i + 1][..i] == d[..i];
      r := Replace(r, d[i].key, d[i].value);
    }
    assert d[..|d|] == d;
    if forall i :: 0 <= i < |d| ==> Idle(text, d[i]) {
      ReplaceEachIdle(text, d);
    }
  }

  /** Replacing an image's file name inside its placeholder swaps the file
      name for the description and keeps the `[image: ` marker and the closing
      `]`: the placeholder becomes `[image: <description>]`. */
  lemma PlaceholderDescribed(b: Block, page: nat, v: string)
    ensures Replace(Placeholder(b, page), FileName(RequestFor(b, page)), v) == ImageToken + v + "]\n"
  {
    var file := FileName(RequestFor(b, page));
    assert file[0] == 'p';
    assert Placeholder(b, page) == ImageToken + (file + "]\n");
    assert 'p' !in ImageToken;
    ReplaceSkipPrefix(ImageToken, file + "]\n", file, v);
    ReplaceAtStart(file, "]\n", v);
    assert Replace("]\n", file, v) == "]\n";
  }
}
