/** `get_image_descriptions`: the per-image control flow over an abstract
    vision backend. Loading the backend is a boolean outcome, the file system
    is an existence oracle, and one inference is an oracle that either returns
    the generated text or raises with a message. */
module Descriptions {
  import opened Wrappers
  import opened PyStr

  // ---------------------------------------------------------------------------
  // A Python dict from strings to strings, in insertion order
  // ---------------------------------------------------------------------------

  datatype Entry = Entry(key: string, value: string)

  /** The keys of a dict. */
  function Keys(d: seq<Entry>): set<string>
  {
    if d == [] then {} else {d[0].key} + Keys(d[1..])
  }

  /** No key appears twice. */
  predicate DistinctKeys(d: seq<Entry>)
  {
    forall i, j :: 0 <= i < j < |d| ==> d[i].key != d[j].key
  }

  /** `d.get(k)`. */
  function Get(d: seq<Entry>, k: string): Option<string>
  {
    if d == [] then None
    else if d[0].key == k then Some(d[0].value)
    else Get(d[1..], k)
  }

  /** `d[k] = v`: an existing key keeps its position and takes the new value;
      a new key is appended. */
  function Put(d: seq<Entry>, k: string, v: string): seq<Entry>
  {
    if d == [] then [Entry(k, v)]
    else if d[0].key == k then [Entry(k, v)] + d[1..]
    else [d[0]] + Put(d[1..], k, v)
  }

  /** The keys of a dict are the keys at its positions. */
  lemma {:induction false} KeysAt(d: seq<Entry>, k: string)
    ensures k in Keys(d) <==> exists i :: 0 <= i < |d| && d[i].key == k
    decreases |d|
  {
    if d != [] {
      KeysAt(d[1..], k);
      if k in Keys(d[1..]) {
        var i :| 0 <= i < |d[1..]| && d[1..][i].key == k;
        assert d[i + 1].key == k;
      }
      if exists i :: 0 <= i < |d| && d[i].key == k {
        var i :| 0 <= i < |d| && d[i].key == k;
        if i > 0 { assert d[1..][i - 1].key == k; }
      }
    }
  }

  /** After `d[k] = v`, `k` maps to `v` and every other key is untouched. */
  lemma {:induction false} PutGet(d: seq<Entry>, k: string, v: string, k': string)
    ensures Get(Put(d, k, v), k') == if k' == k then Some(v) else Get(d, k')
    decreases |d|
  {
    if d != [] && d[0].key != k {
      PutGet(d[1..], k, v, k');
    }
  }

  /** `d[k] = v` adds `k` to the keys and nothing else. */
  lemma {:induction false} PutKeys(d: seq<Entry>, k: string, v: string)
    ensures Keys(Put(d, k, v)) == Keys(d) + {k}
    decreases |d|
  {
    if d != [] && d[0].key != k {
      PutKeys(d[1..], k, v);
    }
  }

  /** A new key is appended at the end; an existing key keeps its position. */
  lemma {:induction false} PutOrder(d: seq<Entry>, k: string, v: string)
    ensures k !in Keys(d) ==> Put(d, k, v) == d + [Entry(k, v)]
    ensures |Put(d, k, v)| == if k in Keys(d) then |d| else |d| + 1
    ensures forall i :: 0 <= i < |d| ==> Put(d, k, v)[i].key == d[i].key
    decreases |d|
  {
    if d != [] && d[0].key != k {
      PutOrder(d[1..], k, v);
      var r := Put(d, k, v);
      forall i | 0 <= i < |d| ensures r[i].key == d[i].key {
        if i > 0 { assert r[i] == Put(d[1..], k, v)[i - 1]; }
      }
    }
  }

  /** `d[k] = v` keeps the keys distinct. */
  lemma {:induction false} PutDistinct(d: seq<Entry>, k: string, v: string)
    requires DistinctKeys(d)
    ensures DistinctKeys(Put(d, k, v))
  {
    var r := Put(d, k, v);
    PutOrder(d, k, v);
    KeysAt(d, k);
    if k !in Keys(d) {
      forall i, j | 0 <= i < j < |r| ensures r[i].key != r[j].key {
        if j == |d| { assert r[j].key == k && r[i] == d[i]; }
      }
    }
  }

  /** The dict after assigning each item in turn, starting from `d`. */
  function PutAll(d: seq<Entry>, items: seq<Entry>): seq<Entry>
  {
    if items == [] then d
    else
      var last := items[|items| - 1];
      Put(PutAll(d, items[..|items| - 1]), last.key, last.value)
  }

  /** Assigning items into an empty dict: the keys are exactly the items' keys,
      each once. */
  lemma {:induction false} PutAllKeys(items: seq<Entry>)
    ensures forall k :: k in Keys(PutAll([], items)) <==> exists i :: 0 <= i < |items| && items[i].key == k
    ensures DistinctKeys(PutAll([], items))
    decreases |items|
  {
    if items != [] {
      var n := |items|;
      var init, last := items[..n - 1], items[n - 1];
      PutAllKeys(init);
      var d := PutAll([], init);
      PutKeys(d, last.key, last.value);
      PutDistinct(d, last.key, last.value);
      forall k ensures k in Keys(PutAll([], items)) <==> exists i :: 0 <= i < n && items[i].key == k {
        if exists i :: 0 <= i < n && items[i].key == k {
          var i :| 0 <= i < n && items[i].key == k;
          if i < n - 1 { assert init[i].key == k; }
        }
        if exists i :: 0 <= i < n - 1 && init[i].key == k {
          var i :| 0 <= i < n - 1 && init[i].key == k;
          assert items[i].key == k;
        }
      }
    }
  }

  /** The value under a key is that of the last item with the key: a later
      assignment overwrites an earlier one. */
  lemma {:induction false} PutAllLast(items: seq<Entry>, i: nat)
    requires i < |items|
    requires forall j :: i < j < |items| ==> items[j].key != items[i].key
    ensures Get(PutAll([], items), items[i].key) == Some(items[i].value)
    decreases |items|
  {
    var n := |items|;
    var init, last := items[..n - 1], items[n - 1];
    PutGet(PutAll([], init), last.key, last.value, items[i].key);
    if i < n - 1 {
      assert init[i] == items[i];
      forall j | i < j < |init| ensures init[j].key != init[i].key {
        assert init[j] == items[j];
      }
      PutAllLast(init, i);
    }
  }

  /** With pairwise different keys the dict is the items, in order. */
  lemma {:induction false} PutAllFresh(items: seq<Entry>)
    requires DistinctKeys(items)
    ensures PutAll([], items) == items
    decreases |items|
  {
    if items != [] {
      var n := |items|;
      var init, last := items[..n - 1], items[n - 1];
      assert DistinctKeys(init) by {
        forall i, j | 0 <= i < j < |init| ensures init[i].key != init[j].key {
          assert init[i] == items[i] && init[j] == items[j];
        }
      }
      PutAllFresh(init);
      KeysAt(init, last.key);
      PutOrder(init, last.key, last.value);
      assert init + [last] == items;
    }
  }

  // ---------------------------------------------------------------------------
  // The per-image outcome
  // ---------------------------------------------------------------------------

  const NotFound: string := "Error:" + " File not found."
  const ProcessingFailed: string := "Error:" + " Could not process image. Details: "

  /** The value recorded for one image path: the not-found error when the file
      is missing (the backend is not asked), the processing error carrying the
      exception message when inference raises, and otherwise the generated text
      with surrounding whitespace stripped. */
  function Describe(path: string, present: string -> bool, infer: string -> Result<string, string>): string
  {
    if !present(path) then NotFound
    else match infer(path)
      case Ok(text) => Strip(text)
      case Err(e) => ProcessingFailed + e
  }

  /** The recorded value follows the per-image error policy: a missing file
      records the not-found error, a raising inference records the processing
      error with its message, a successful one records the stripped text (no
      outer whitespace); both error outcomes begin with `Error:`. */
  lemma DescribeOutcomes(path: string, present: string -> bool, infer: string -> Result<string, string>)
    ensures var v := Describe(path, present, infer);
      && (!present(path) ==> v == NotFound)
      && (present(path) && infer(path).Err? ==> v == ProcessingFailed + infer(path).error)
      && (present(path) && infer(path).Ok? ==> v == Strip(infer(path).value) && NoOuterSpace(v))
      && (!present(path) || infer(path).Err? ==> StartsWith(v, "Error:"))
  {
    assert NotFound[..6] == "Error:";
    assert ProcessingFailed[..6] == "Error:";
    if present(path) {
      match infer(path)
      case Ok(text) =>
        StripNoOuterSpace(text);
      case Err(e) =>
        var v := ProcessingFailed + e;
        assert v[..6] == ProcessingFailed[..6];
    }
  }

  // ---------------------------------------------------------------------------
  // get_image_descriptions
  // ---------------------------------------------------------------------------

  /** The dict entry one path produces: its base name and its outcome. */
  function Outcome(path: string, present: string -> bool, infer: string -> Result<string, string>): Entry
  {
    Entry(Basename(path), Describe(path, present, infer))
  }

  /** The entries the loop assigns, one per path, in path order. */
  function Outcomes(paths: seq<string>, present: string -> bool, infer: string -> Result<string, string>): (r: seq<Entry>)
    ensures |r| == |paths|
    ensures forall i :: 0 <= i < |paths| ==> r[i] == Outcome(paths[i], present, infer)
  {
    seq(|paths|, i requires 0 <= i < |paths| => Outcome(paths[i], present, infer))
  }

  /** The result of `get_image_descriptions`: empty when the backend fails to
      load, otherwise every path's entry assigned in turn into an empty dict. */
  function DescriptionMap(loaded: bool, paths: seq<string>, present: string -> bool, infer: string -> Result<string, string>): seq<Entry>
  {
    if loaded then PutAll([], Outcomes(paths, present, infer)) else []
  }

  /** The paths the backend is asked about: the existing ones, in order. */
  function Inferred(paths: seq<string>, present: string -> bool): seq<string>
  {
    if paths == [] then []
    else
      var p := paths[|paths| - 1];
      Inferred(paths[..|paths| - 1], present) + (if present(p) then [p] else [])
  }

  /** `get_image_descriptions(...)`. `calls` lists, in order, the paths for which
      the backend's inference was invoked. */
  method GetImageDescriptions(loaded: bool, paths: seq<string>, present: string -> bool, infer: string -> Result<string, string>)
    returns (d: seq<Entry>, calls: seq<string>)
    ensures d == DescriptionMap(loaded, paths, present, infer)
    ensures calls == if loaded then Inferred(paths, present) else []
  {
    calls := [];
    if !loaded {
      return [], calls;
    }
    ghost var items := Outcomes(paths, present, infer);
    d := [];
    var i := 0;
    while i < |paths|
      invariant 0 <= i <= |paths|
      invariant d == PutAll([], items[..i])
      invariant calls == Inferred(paths[..i], present)
    {
      assert items[..i + 1][..i] == items[..i];
      assert paths[..i + 1][..i] == paths[..i];
      var p := paths[i];
      var filename := Basename(p);
      if !present(p) {
        d := Put(d, filename, NotFound);
      } else {
        calls := calls + [p];
        var response := infer(p);
        match response {
          case Ok(text) =>
            d := Put(d, filename, Strip(text));
          case Err(e) =>
            d := Put(d, filename, ProcessingFailed + e);
        }
      }
      i := i + 1;
    }
    assert items[..i] == items;
    assert paths[..i] == paths;
  }

  /** The set of base names of the paths. */
  function Basenames(paths: seq<string>): set<string>
  {
    set i | 0 <= i < |paths| :: Basename(paths[i])
  }

  /** No image aborts the loop: after a successful load the keys are exactly
      the base names of all the paths, each once. */
  lemma DescriptionKeys(paths: seq<string>, present: string -> bool, infer: string -> Result<string, string>)
    ensures Keys(DescriptionMap(true, paths, present, infer)) == Basenames(paths)
    ensures DistinctKeys(DescriptionMap(true, paths, present, infer))
  {
    var items := Outcomes(paths, present, infer);
    PutAllKeys(items);
    var d := DescriptionMap(true, paths, present, infer);
    forall k ensures k in Keys(d) <==> k in Basenames(paths) {
      if k in Basenames(paths) {
        var i :| 0 <= i < |paths| && k == Basename(paths[i]);
        assert items[i].key == k;
      }
      if k in Keys(d) {
        var i :| 0 <= i < |items| && items[i].key == k;
        assert Basename(paths[i]) == k;
      }
    }
  }

  /** After a successful load the value under a base name is the outcome of the
      last path with that base name. */
  lemma DescriptionValue(paths: seq<string>, present: string -> bool, infer: string -> Result<string, string>, i: nat)
    requires i < |paths|
    requires forall j :: i < j < |paths| ==> Basename(paths[j]) != Basename(paths[i])
    ensures Get(DescriptionMap(true, paths, present, infer), Basename(paths[i])) == Some(Describe(paths[i], present, infer))
  {
    var items := Outcomes(paths, present, infer);
    forall j | i < j < |items| ensures items[j].key != items[i].key {
    }
    PutAllLast(items, i);
  }

  /** With pairwise different base names the dict lists one entry per path, in
      path order. */
  lemma DescriptionOrder(paths: seq<string>, present: string -> bool, infer: string -> Result<string, string>)
    requires forall i, j :: 0 <= i < j < |paths| ==> Basename(paths[i]) != Basename(paths[j])
    ensures DescriptionMap(true, paths, present, infer) == Outcomes(paths, present, infer)
  {
    var items := Outcomes(paths, present, infer);
    assert DistinctKeys(items) by {
      forall i, j | 0 <= i < j < |items| ensures items[i].key != items[j].key {
      }
    }
    PutAllFresh(items);
  }
}
