/** `Helper.LoadValidImageTypes`: the allow-list of file extensions, read
    from the stored type list when there is one and otherwise a built-in
    default, with every entry brought to leading-dot form. */
module ExtensionCatalog {
  import opened Wrappers
  import opened Text

  /** The stored type list as the program finds it: no file, a file whose
      reading or deserialisation throws, or a parsed list of strings. */
  datatype Store = Missing | Unreadable | Parsed(entries: seq<string>)

  const DefaultTypes: seq<string> := [".jpg", ".png", ".dds"]

  /** `s.StartsWith(".")`, compared ordinally. */
  predicate Dotted(s: string) {
    1 <= |s| && s[0] == '.'
  }

  /** One stored entry in leading-dot form: the shortest dotted string that
      ends with the entry. */
  function Normalise(s: string): (r: string)
    ensures Dotted(r)
    ensures EndsWith(r, s)
    ensures |r| <= |s| + 1
    ensures |r| == |s| <==> Dotted(s)
  {
    if Dotted(s) then s else "." + s
  }

  /** The per-entry normalisation applied across the whole list, order and
      length kept. */
  function NormaliseAll(xs: seq<string>): (r: seq<string>)
    ensures |r| == |xs|
    ensures forall i :: 0 <= i < |xs| ==> Dotted(r[i]) && EndsWith(r[i], xs[i])
    ensures forall i :: 0 <= i < |xs| ==> (r[i] == xs[i] <==> Dotted(xs[i]))
    ensures forall i :: 0 <= i < |xs| ==> !Dotted(xs[i]) ==> r[i] == "." + xs[i]
  {
    seq(|xs|, i requires 0 <= i < |xs| => Normalise(xs[i]))
  }

  /** A dotted entry is left alone and any other entry gains exactly one
      dot at its front. */
  lemma NormaliseExact(s: string)
    ensures Dotted(s) ==> Normalise(s) == s
    ensures !Dotted(s) ==> Normalise(s)[0] == '.' && Normalise(s)[1..] == s
  {
  }

  /** Normalising a normalised list changes nothing. */
  lemma NormaliseAllIdempotent(xs: seq<string>)
    ensures NormaliseAll(NormaliseAll(xs)) == NormaliseAll(xs)
  {
  }

  /** The lists normalisation leaves alone are exactly the all-dotted
      ones. */
  lemma NormaliseAllFixedPoints(xs: seq<string>)
    ensures NormaliseAll(xs) == xs <==> forall i :: 0 <= i < |xs| ==> Dotted(xs[i])
  {
  }

  /** A missing store yields the default list; a store that cannot be read
      or parsed is an error, never the default; a parsed list is
      normalised. */
  function LoadValidImageTypes(store: Store): (r: Result<seq<string>>)
    ensures store.Missing? ==> r == Success([".jpg", ".png", ".dds"])
    ensures store.Unreadable? <==> r == Failure(ConfigMalformed)
    ensures store.Parsed? ==> r == Success(NormaliseAll(store.entries))
    ensures store.Parsed? ==> r.Success? && |r.value| == |store.entries|
    ensures r.Success? ==> forall i :: 0 <= i < |r.value| ==> Dotted(r.value[i])
  {
    match store
    case Missing => Success(DefaultTypes)
    case Unreadable => Failure(ConfigMalformed)
    case Parsed(entries) => Success(NormaliseAll(entries))
  }

  /** A stored list mixing bare and dotted entries comes back all dotted,
      case kept. */
  lemma LoadMixedStore()
    ensures LoadValidImageTypes(Parsed(["jpg", ".png", "DDS"])) == Success([".jpg", ".png", ".DDS"])
  {
    var r := NormaliseAll(["jpg", ".png", "DDS"]);
    assert r[0] == "." + "jpg" == ".jpg";
    assert r[1] == ".png";
    assert r[2] == "." + "DDS" == ".DDS";
    assert r == [".jpg", ".png", ".DDS"];
  }
}
