/** `FileEntry`: the record describing one discovered file, built from the
    file system's description of that file (`FileInfo`). */
module FileEntries {
  import opened Wrappers
  import opened Text
  import SizeFormat

  /** What the directory listing reports about one file. */
  datatype FileInfo = FileInfo(name: string, fullName: string, length: SizeFormat.Long)

  /** Index of the last '.' in `s`, if any. */
  function LastDot(s: string): (r: Option<nat>)
    ensures r.Some? ==> r.value < |s| && s[r.value] == '.'
    ensures r.Some? ==> forall j :: r.value < j < |s| ==> s[j] != '.'
    ensures r.None? ==> forall j :: 0 <= j < |s| ==> s[j] != '.'
  {
    if s == [] then None
    else if s[|s| - 1] == '.' then Some(|s| - 1)
    else LastDot(s[..|s| - 1])
  }

  /** `FileInfo.Extension`: the part of the name from its last '.' on, dot
      included; empty when the name has no '.' or ends with one. */
  function ExtensionOf(name: string): (r: string)
    ensures r == "" || (2 <= |r| && r[0] == '.' && EndsWith(name, r))
    ensures forall j :: 1 <= j < |r| ==> r[j] != '.'
    ensures r == "" <==> (forall j :: 0 <= j < |name| ==> name[j] != '.') || EndsWith(name, ".")
  {
    match LastDot(name)
    case None => ""
    case Some(i) => if i == |name| - 1 then "" else name[i..]
  }

  /** The name is its stem followed by its extension. */
  lemma NameIsStemPlusExtension(name: string)
    ensures var ext := ExtensionOf(name);
      |ext| <= |name| && name == name[..|name| - |ext|] + ext
  {
  }

  /** One discovered file. Every field but `selected` is fixed when the
      entry is built; `selected` starts false. */
  datatype FileEntry = FileEntry(
    name: string,
    extension: string,
    path: string,
    size: SizeFormat.Long,
    selected: bool)

  /** `SizeString`: the size in readable form, computed from `size` on
      every read. */
  function SizeString(e: FileEntry): (r: SizeFormat.SizeText)
    ensures r.Labelled?
    ensures r.unit == SizeFormat.Bytes <==> e.size < SizeFormat.KiB
    ensures e.size < SizeFormat.KiB ==> SizeFormat.ExactText(r) == Some(Decimal(e.size) + " Bytes")
  {
    SizeFormat.ToFileSizeString(e.size)
  }

  /** Setting `Selected`, the one settable property: the result differs
      from the entry in `selected` alone. */
  function WithSelected(e: FileEntry, b: bool): (r: FileEntry)
    ensures r.selected == b
    ensures r.(selected := e.selected) == e
  {
    e.(selected := b)
  }

  /** The private constructor: a missing file is an `ArgumentNullException`;
      otherwise name, extension, full path and length are copied once and
      the entry starts unselected. */
  function NewFileEntry(file: Option<FileInfo>): (r: Result<FileEntry>)
    ensures file.None? <==> r == Failure(ArgumentNull("file"))
    ensures file.Some? ==> r.Success?
    ensures file.Some? ==> r.value.name == file.value.name && r.value.path == file.value.fullName
    ensures file.Some? ==> r.value.size == file.value.length && !r.value.selected
    ensures file.Some? ==> r.value.extension == ExtensionOf(file.value.name)
  {
    match file
    case None => Failure(ArgumentNull("file"))
    case Some(f) => Success(FileEntry(f.name, ExtensionOf(f.name), f.fullName, f.length, false))
  }

  /** The explicit conversion `(FileEntry)file`: the private constructor
      and nothing more. */
  function FromFileInfo(file: Option<FileInfo>): (r: Result<FileEntry>)
    ensures r == NewFileEntry(file)
  {
    NewFileEntry(file)
  }

  /** The conversion applied to a file that is present, as the directory
      scan does. */
  function EntryOf(f: FileInfo): (r: FileEntry)
    ensures Success(r) == FromFileInfo(Some(f))
  {
    FromFileInfo(Some(f)).value
  }

  /** `SizeString` is derived, not stored: toggling the selection leaves it
      alone, and it follows the entry's size band. */
  lemma SizeStringDerived(e: FileEntry, b: bool)
    ensures SizeString(WithSelected(e, b)) == SizeString(e)
    ensures e.size < SizeFormat.KiB ==>
      SizeFormat.ExactText(SizeString(e)) == Some(Decimal(e.size) + " Bytes")
    ensures SizeFormat.KiB <= e.size ==> SizeFormat.ExactText(SizeString(e)).None?
  {
  }
}
