/** `Helper.LoadFiles` and `Helper.GetValidFiles`: list the top-level files
    of a directory and keep, in listing order, those whose extension is on
    the allow-list, ignoring case. */
module DirectoryScanner {
  import opened Wrappers
  import opened Text
  import opened FileEntries
  import opened ExtensionCatalog

  /** What listing an existing directory yields: its top-level files in
      the order the platform returns them (subdirectories are not listed),
      or an exception. */
  datatype Listing = Listed(files: seq<FileInfo>) | Unlistable

  /** The directories that exist, each with what listing it yields. */
  datatype Volume = Volume(dirs: map<string, Listing>)

  /** `types.Any(a => a.EqualsIgnoreCase(ext))`. */
  function AnyMatches(types: seq<string>, ext: string): (r: bool)
    ensures r <==> exists k :: 0 <= k < |types| && EqualsIgnoreCase(types[k], ext)
  {
    if types == [] then false
    else EqualsIgnoreCase(types[0], ext) || AnyMatches(types[1..], ext)
  }

  /** The scan's filter: the file's extension is on the allow-list,
      ignoring case. */
  predicate IsValid(f: FileInfo, types: seq<string>)
    ensures IsValid(f, types) <==>
      exists k :: 0 <= k < |types| && EqualsIgnoreCase(types[k], ExtensionOf(f.name))
  {
    AnyMatches(types, ExtensionOf(f.name))
  }

  /** The scan's filter as a value, so that every use names the same
      function. */
  function ValidUnder(types: seq<string>): FileInfo -> bool {
    f => IsValid(f, types)
  }

  /** `xs.Where(keep).Select(conv)`: the converted elements that pass
      `keep`, in their original order. */
  function FilterMap<T, U>(xs: seq<T>, keep: T -> bool, conv: T -> U): (r: seq<U>)
    ensures |r| <= |xs|
  {
    if xs == [] then []
    else (if keep(xs[0]) then [conv(xs[0])] else []) + FilterMap(xs[1..], keep, conv)
  }

  /** Every index moved one place on. */
  function Shift(idx: seq<nat>): (r: seq<nat>)
    ensures |r| == |idx|
    ensures forall k :: 0 <= k < |idx| ==> r[k] == idx[k] + 1
  {
    seq(|idx|, k requires 0 <= k < |idx| => idx[k] + 1)
  }

  /** The positions of the elements that pass `keep`, in increasing order. */
  function Kept<T>(xs: seq<T>, keep: T -> bool): (idx: seq<nat>)
  {
    if xs == [] then []
    else (if keep(xs[0]) then [0] else []) + Shift(Kept(xs[1..], keep))
  }

  /** Each result of the filter is the converted element at its position. */
  lemma {:induction false} KeptPicksResults<T, U>(xs: seq<T>, keep: T -> bool, conv: T -> U)
    ensures var idx := Kept(xs, keep);
      && |idx| == |FilterMap(xs, keep, conv)|
      && forall k :: 0 <= k < |idx| ==> idx[k] < |xs| && FilterMap(xs, keep, conv)[k] == conv(xs[idx[k]])
  {
    if xs != [] {
      var tailXs := xs[1..];
      KeptPicksResults(tailXs, keep, conv);
      var rest := Kept(tailXs, keep);
      var shifted := Shift(rest);
      var tail := FilterMap(tailXs, keep, conv);
      forall k | 0 <= k < |shifted|
        ensures shifted[k] < |xs| && tail[k] == conv(xs[shifted[k]])
      {
        assert tailXs[rest[k]] == xs[rest[k] + 1];
      }
      if keep(xs[0]) {
        assert FilterMap(xs, keep, conv) == [conv(xs[0])] + tail;
      } else {
        assert FilterMap(xs, keep, conv) == tail;
      }
    }
  }

  /** The positions rise strictly and stay inside the sequence. */
  lemma {:induction false} KeptIncreasing<T>(xs: seq<T>, keep: T -> bool)
    ensures forall k :: 0 <= k < |Kept(xs, keep)| ==> Kept(xs, keep)[k] < |xs|
    ensures forall k, l :: 0 <= k < l < |Kept(xs, keep)| ==> Kept(xs, keep)[k] < Kept(xs, keep)[l]
  {
    if xs != [] {
      var rest := Kept(xs[1..], keep);
      KeptIncreasing(xs[1..], keep);
      var shifted := Shift(rest);
      assert forall k :: 0 <= k < |shifted| ==> 1 <= shifted[k] < |xs|;
      assert forall k, l :: 0 <= k < l < |shifted| ==> shifted[k] < shifted[l];
      var idx := Kept(xs, keep);
      if keep(xs[0]) {
        assert idx == [0] + shifted;
        forall k, l | 0 <= k < l < |idx|
          ensures idx[k] < idx[l]
        {
          if k > 0 {
            assert idx[k] == shifted[k - 1] && idx[l] == shifted[l - 1];
          }
        }
      } else {
        assert idx == shifted;
      }
    }
  }

  /** A position is kept iff its element passes `keep`. */
  lemma {:induction false} KeptExactly<T>(xs: seq<T>, keep: T -> bool)
    ensures forall i :: 0 <= i < |xs| ==> (i in Kept(xs, keep) <==> keep(xs[i]))
  {
    if xs != [] {
      var tailXs := xs[1..];
      KeptExactly(tailXs, keep);
      var rest := Kept(tailXs, keep);
      var shifted := Shift(rest);
      assert 0 !in shifted;
      forall i | 1 <= i < |xs|
        ensures i in shifted <==> keep(xs[i])
      {
        assert tailXs[i - 1] == xs[i];
        if i in shifted {
          var k :| 0 <= k < |shifted| && shifted[k] == i;
          assert rest[k] == i - 1;
        }
        if i - 1 in rest {
          var k :| 0 <= k < |rest| && rest[k] == i - 1;
          assert shifted[k] == i;
        }
      }
    }
  }

  /** The filter is an order-preserving selection: the returned indices
      rise strictly, each result is the converted element at its index, and
      an index is used iff its element passes `keep`. */
  lemma FilterMapSelection<T, U>(xs: seq<T>, keep: T -> bool, conv: T -> U)
    returns (idx: seq<nat>)
    ensures |idx| == |FilterMap(xs, keep, conv)|
    ensures forall k :: 0 <= k < |idx| ==>
      idx[k] < |xs| && FilterMap(xs, keep, conv)[k] == conv(xs[idx[k]])
    ensures forall k, l :: 0 <= k < l < |idx| ==> idx[k] < idx[l]
    ensures forall i :: 0 <= i < |xs| ==> (i in idx <==> keep(xs[i]))
  {
    idx := Kept(xs, keep);
    KeptPicksResults(xs, keep, conv);
    KeptIncreasing(xs, keep);
    KeptExactly(xs, keep);
  }

  /** Of three elements, a filter passing the outer two keeps their
      conversions, in order. */
  lemma FilterMapKeepsOuter<T, U>(xs: seq<T>, keep: T -> bool, conv: T -> U)
    requires |xs| == 3 && keep(xs[0]) && !keep(xs[1]) && keep(xs[2])
    ensures FilterMap(xs, keep, conv) == [conv(xs[0]), conv(xs[2])]
  {
    var rest := xs[1..];
    assert rest[0] == xs[1] && rest[1..][0] == xs[2] && rest[1..][1..] == [];
    assert FilterMap(rest[1..], keep, conv) == [conv(xs[2])];
    assert FilterMap(rest, keep, conv) == [conv(xs[2])];
  }

  /** The `Where(...).Select(s => (FileEntry)s)` pipeline over a listing. */
  function KeepValid(files: seq<FileInfo>, types: seq<string>): (r: seq<FileEntry>)
    ensures |r| <= |files|
    ensures forall k :: 0 <= k < |r| ==>
      !r[k].selected && AnyMatches(types, r[k].extension) && r[k].name in NamesOf(files)
    ensures forall i :: 0 <= i < |files| && IsValid(files[i], types) ==> EntryOf(files[i]) in r
  {
    ValidEntries(files, types);
    FilterMap(files, ValidUnder(types), EntryOf)
  }

  /** The facts `KeepValid` promises, proved of the pipeline it applies. */
  lemma ValidEntries(files: seq<FileInfo>, types: seq<string>)
    ensures forall k :: 0 <= k < |FilterMap(files, ValidUnder(types), EntryOf)| ==>
      var e := FilterMap(files, ValidUnder(types), EntryOf)[k];
      !e.selected && AnyMatches(types, e.extension) && e.name in NamesOf(files)
    ensures forall i :: 0 <= i < |files| && IsValid(files[i], types) ==>
      EntryOf(files[i]) in FilterMap(files, ValidUnder(types), EntryOf)
  {
    var r := FilterMap(files, ValidUnder(types), EntryOf);
    var idx := FilterMapSelection(files, ValidUnder(types), EntryOf);
    forall k | 0 <= k < |r|
      ensures !r[k].selected && AnyMatches(types, r[k].extension) && r[k].name in NamesOf(files)
    {
      assert idx[k] in idx;
      assert files[idx[k]].name == NamesOf(files)[idx[k]];
    }
    forall i | 0 <= i < |files| && IsValid(files[i], types)
      ensures EntryOf(files[i]) in r
    {
      var k :| 0 <= k < |idx| && idx[k] == i;
      assert r[k] == EntryOf(files[i]);
    }
  }

  /** The scan's filter keeps exactly the allowed files, in listing order. */
  lemma KeepValidSelection(files: seq<FileInfo>, types: seq<string>)
    returns (idx: seq<nat>)
    ensures |idx| == |KeepValid(files, types)|
    ensures forall k :: 0 <= k < |idx| ==>
      idx[k] < |files| && KeepValid(files, types)[k] == EntryOf(files[idx[k]])
    ensures forall k, l :: 0 <= k < l < |idx| ==> idx[k] < idx[l]
    ensures forall i :: 0 <= i < |files| ==> (i in idx <==> IsValid(files[i], types))
  {
    idx := FilterMapSelection(files, ValidUnder(types), EntryOf);
  }

  /** The names of a listing, in order. */
  function NamesOf(files: seq<FileInfo>): (r: seq<string>)
    ensures |r| == |files|
    ensures forall i :: 0 <= i < |files| ==> r[i] == files[i].name
  {
    seq(|files|, i requires 0 <= i < |files| => files[i].name)
  }

  /** A file that is allowed under one spelling of its extension is allowed
      under every spelling that differs only in ASCII case. */
  lemma ValidIgnoresCase(types: seq<string>, ext: string, other: string)
    requires EqualsIgnoreCase(ext, other)
    ensures AnyMatches(types, ext) == AnyMatches(types, other)
  {
  }

  /** `GetValidFiles`: an empty listing gives an empty list without reading
      the type store at all; otherwise a failing store read propagates and
      a successful one filters the listing. */
  function GetValidFiles(files: seq<FileInfo>, store: Store): (r: Result<seq<FileEntry>>)
    ensures files == [] ==> r == Success([])
    ensures files != [] ==> (r.Failure? <==> LoadValidImageTypes(store).Failure?)
    ensures files != [] && r.Failure? ==> r.error == ConfigMalformed
    ensures r.Success? ==> |r.value| <= |files|
    ensures r.Success? && store.Missing? ==>
      forall k :: 0 <= k < |r.value| ==> AnyMatches(DefaultTypes, r.value[k].extension)
  {
    if files == [] then Success([])
    else
      var types :- LoadValidImageTypes(store);
      Success(KeepValid(files, types))
  }

  /** `LoadFiles`: a null or empty path is an `ArgumentNullException` and a
      path that is not an existing directory a `DirectoryNotFoundException`,
      both checked in that order before the directory is listed; a listing
      that throws propagates. */
  function LoadFiles(directory: Option<string>, vol: Volume, store: Store): (r: Result<seq<FileEntry>>)
    ensures directory.None? || directory == Some("") ==> r == Failure(ArgumentNull("directory"))
    ensures directory.Some? && directory.value != "" && directory.value !in vol.dirs ==>
      r == Failure(DirectoryNotFound(directory.value))
    ensures directory.Some? && directory.value != "" && directory.value in vol.dirs ==>
      match vol.dirs[directory.value]
      case Unlistable => r == Failure(ListingFailed(directory.value))
      case Listed(files) => r == GetValidFiles(files, store)
    ensures r.Failure? && r.error != ConfigMalformed ==>
      r.error.ArgumentNull? || r.error.DirectoryNotFound? || r.error.ListingFailed?
  {
    match directory
    case None => Failure(ArgumentNull("directory"))
    case Some(d) =>
      if d == "" then Failure(ArgumentNull("directory"))
      else if d !in vol.dirs then Failure(DirectoryNotFound(d))
      else match vol.dirs[d]
        case Unlistable => Failure(ListingFailed(d))
        case Listed(files) => GetValidFiles(files, store)
  }

  /** A scan of a listable directory under a readable store returns
      exactly the allowed files of its listing, in listing order, each
      unselected; the witnesses are the listing positions of the results. */
  lemma {:induction false} LoadFilesSelectsAllowed(d: string, vol: Volume, store: Store)
    returns (idx: seq<nat>)
    requires d != "" && d in vol.dirs && vol.dirs[d].Listed? && !store.Unreadable?
    ensures var files := vol.dirs[d].files;
      var r := LoadFiles(Some(d), vol, store);
      var types := LoadValidImageTypes(store).value;
      && r.Success?
      && |idx| == |r.value|
      && (forall k :: 0 <= k < |idx| ==> idx[k] < |files| && r.value[k] == EntryOf(files[idx[k]]))
      && (forall k, l :: 0 <= k < l < |idx| ==> idx[k] < idx[l])
      && (forall i :: 0 <= i < |files| ==> (i in idx <==> IsValid(files[i], types)))
  {
    var files := vol.dirs[d].files;
    var types := LoadValidImageTypes(store).value;
    if files == [] {
      idx := [];
    } else {
      idx := KeepValidSelection(files, types);
    }
  }

  /** A five-character name whose only '.' is its second character has the
      last three characters, dot included, as its extension. */
  lemma SecondCharDot(name: string)
    requires |name| == 5 && name[1] == '.'
    requires name[0] != '.' && name[2] != '.' && name[3] != '.' && name[4] != '.'
    ensures ExtensionOf(name) == name[1..]
  {
  }

  /** Under the default list, `.jpg` and `.PNG` are allowed and `.txt` is
      not. */
  lemma DefaultVerdicts()
    ensures AnyMatches(DefaultTypes, ".jpg")
    ensures AnyMatches(DefaultTypes, ".PNG")
    ensures !AnyMatches(DefaultTypes, ".txt")
  {
    assert EqualsIgnoreCase(".jpg", ".jpg");
    assert Lower(".png") == ".png" == Lower(".PNG");
    var txt := Lower(".txt");
    assert txt[1] == 't';
    assert Lower(".jpg")[1] == 'j' && Lower(".png")[1] == 'p' && Lower(".dds")[1] == 'd';
    assert !EqualsIgnoreCase(".jpg", ".txt");
    assert !EqualsIgnoreCase(".png", ".txt");
    assert !EqualsIgnoreCase(".dds", ".txt");
    assert DefaultTypes[1..] == [".png", ".dds"] && DefaultTypes[1..][1..] == [".dds"];
  }

  /** With the default list, a listing of `a.jpg`, `b.txt` and `c.PNG`
      keeps `a.jpg` and `c.PNG`, in that order. */
  lemma DefaultScanExample(a: FileInfo, b: FileInfo, c: FileInfo)
    requires a.name == "a.jpg" && b.name == "b.txt" && c.name == "c.PNG"
    ensures LoadFiles(Some("dir"), Volume(map["dir" := Listed([a, b, c])]), Missing)
      == Success([EntryOf(a), EntryOf(c)])
  {
    DefaultFilterExample(a, b, c);
  }

  /** The filter step of the example above. */
  lemma DefaultFilterExample(a: FileInfo, b: FileInfo, c: FileInfo)
    requires a.name == "a.jpg" && b.name == "b.txt" && c.name == "c.PNG"
    ensures KeepValid([a, b, c], DefaultTypes) == [EntryOf(a), EntryOf(c)]
  {
    var types := DefaultTypes;
    assert IsValid(a, types) && !IsValid(b, types) && IsValid(c, types) by {
      SecondCharDot("a.jpg");
      SecondCharDot("b.txt");
      SecondCharDot("c.PNG");
      DefaultVerdicts();
    }
    FilterMapKeepsOuter([a, b, c], ValidUnder(types), EntryOf);
  }
}
