/** `Helper.ToFileSizeString`: a byte count, as a 64-bit signed integer,
    classified into the Bytes, KB, MB or GB band and labelled with that
    band's suffix. */
module SizeFormat {
  import opened Wrappers
  import opened Text

  const MinLong: int := -0x8000_0000_0000_0000
  const MaxLong: int := 0x7FFF_FFFF_FFFF_FFFF

  /** C#'s `long`. */
  type Long = x: int | MinLong <= x <= MaxLong

  const KiB: int := 1024
  const MiB: int := 1024 * 1024
  const GiB: int := 1024 * 1024 * 1024

  datatype Unit = Bytes | KB | MB | GB

  /** The number shown before the suffix: either an integer, or the quotient
      of a floating-point division whose two-decimal rendering is left
      out. */
  datatype Amount = Whole(n: int) | Ratio(num: int, den: int)

  datatype SizeText =
    /** `"{amount} {unit}"`. */
    | Labelled(amount: Amount, unit: Unit)
    /** The switch's `default` branch: the bare number. */
    | Unlabelled(n: int)

  function Suffix(u: Unit): string {
    match u
    case Bytes => " Bytes"
    case KB => " KB"
    case MB => " MB"
    case GB => " GB"
  }

  /** Position of a band in increasing order of magnitude. */
  function Rank(u: Unit): nat {
    match u
    case Bytes => 0
    case KB => 1
    case MB => 2
    case GB => 3
  }

  /** The four guards are tried in order and each takes a half-open range;
      comparing a `long` with the exactly representable doubles 1024² and
      1024³ is the same as comparing the integers. For sizes of at least
      1024, C#'s truncating `size / 1024` is the floor used here. */
  function ToFileSizeString(size: Long): (r: SizeText)
    ensures size < KiB <==> r == Labelled(Whole(size), Bytes)
    ensures KiB <= size < MiB <==> r == Labelled(Whole(size / KiB), KB)
    ensures MiB <= size < GiB <==> r == Labelled(Ratio(size, MiB), MB)
    ensures GiB <= size <==> r == Labelled(Ratio(size, GiB), GB)
    ensures r.Labelled?
  {
    if size < KiB then Labelled(Whole(size), Bytes)
    else if KiB <= size < MiB then Labelled(Whole(size / KiB), KB)
    else if MiB <= size < GiB then Labelled(Ratio(size, MiB), MB)
    else if GiB <= size then Labelled(Ratio(size, GiB), GB)
    else Unlabelled(size)
  }

  /** The exact text of a size string, where the program's output does not
      depend on the two-decimal numeric format. */
  function ExactText(s: SizeText): Option<string> {
    match s
    case Labelled(Whole(n), Bytes) => Some(Decimal(n) + Suffix(Bytes))
    case Unlabelled(n) => Some(Decimal(n))
    case _ => None
  }

  /** Every size below 1024, negative ones included, is written as its own
      decimal digits followed by " Bytes", and the number can be read back
      from the text. */
  lemma BytesBandText(size: Long)
    requires size < KiB
    ensures ExactText(ToFileSizeString(size)) == Some(Decimal(size) + " Bytes")
    ensures var t := ExactText(ToFileSizeString(size)).value;
      EndsWith(t, " Bytes") && ParseDecimal(t[..|t| - 6]) == Some(size)
  {
    var t := Decimal(size) + " Bytes";
    assert t[..|t| - 6] == Decimal(size);
    assert t[|t| - 6..] == " Bytes";
    DecimalRoundTrip(size);
  }

  /** The KB number is the whole number of kibibytes: between 1 and 1023,
      and the size lies in its 1024-wide bucket. */
  lemma KilobyteQuotient(size: Long)
    requires KiB <= size < MiB
    ensures ToFileSizeString(size).amount.Whole?
    ensures var q := ToFileSizeString(size).amount.n;
      1 <= q < KiB && q * KiB <= size < (q + 1) * KiB
  {
  }

  /** A larger size never lands in a smaller band. */
  lemma BandMonotone(a: Long, b: Long)
    requires a <= b
    ensures Rank(ToFileSizeString(a).unit) <= Rank(ToFileSizeString(b).unit)
  {
  }
}
