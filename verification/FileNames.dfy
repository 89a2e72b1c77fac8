/** The file names of a report bundle, and that no two of them ever coincide. */
module FileNames {
  import opened DecimalText

  datatype OutputFormat = Markdown | Pdf

  const TIMESTAMP_LENGTH: nat := 19

  /** The annex marker goes before the timestamp. */
  function AnnexBase(base: string): string {
    if |base| <= TIMESTAMP_LENGTH + 1 then base + "-annex-1"
    else
      var start := |base| - TIMESTAMP_LENGTH;
      if base[start - 1] != '-' then base + "-annex-1"
      else base[..start - 1] + "-annex-1-" + base[start..]
  }

  function Suffixed(stem: string, suffix: nat): string {
    if suffix > 1 then stem + "-" + Decimal(suffix) else stem
  }

  function BundleFilenames(format: OutputFormat, base: string, suffix: nat): (names: seq<string>)
    ensures names != []
  {
    match format
    case Markdown => [Suffixed(base, suffix) + ".md", Suffixed(AnnexBase(base), suffix) + ".md"]
    case Pdf => [Suffixed(base, suffix) + ".pdf"]
  }

  /** A file name stem: the timestamp comes last, after a dash, and starts with a digit. */
  predicate TimestampedBase(base: string) {
    |base| > TIMESTAMP_LENGTH + 1 && base[|base| - TIMESTAMP_LENGTH - 1] == '-' && IsDigit(base[|base| - TIMESTAMP_LENGTH])
  }

  /** Different suffixes give different names on the same stem. */
  lemma SuffixesDiffer(stem: string, extension: string, s: nat, t: nat)
    requires 1 <= s && 1 <= t && Suffixed(stem, s) + extension == Suffixed(stem, t) + extension
    ensures s == t
  {
    var a, b := Suffixed(stem, s), Suffixed(stem, t);
    assert a == (a + extension)[..|a|] && b == (b + extension)[..|b|];
    assert |a| == |b|;
    assert a == b;
    if s > 1 && t > 1 {
      assert a[|stem| + 1..] == Decimal(s) && b[|stem| + 1..] == Decimal(t);
      DecimalIsInjective(s, t);
    }
  }

  /** A name on the main stem is never a name on the annex stem, whatever the suffixes. */
  lemma AnnexNamesDiffer(base: string, s: nat, t: nat, extension: string)
    requires TimestampedBase(base)
    ensures Suffixed(base, s) + extension != Suffixed(AnnexBase(base), t) + extension
  {
    var k := |base| - TIMESTAMP_LENGTH;
    var a, b := Suffixed(base, s) + extension, Suffixed(AnnexBase(base), t) + extension;
    assert a[k] == base[k];
    assert AnnexBase(base)[k] == "-annex-1-"[1] == 'a';
    assert b[k] == AnnexBase(base)[k];
  }

  /** All names of all suffixes are distinct: within a bundle, and between bundles. */
  lemma BundleNamesAreDistinct(format: OutputFormat, base: string, s: nat, t: nat, i: nat, j: nat)
    requires TimestampedBase(base) && 1 <= s && 1 <= t
    requires i < |BundleFilenames(format, base, s)| && j < |BundleFilenames(format, base, t)|
    requires BundleFilenames(format, base, s)[i] == BundleFilenames(format, base, t)[j]
    ensures s == t && i == j
  {
    match format
    case Pdf => SuffixesDiffer(base, ".pdf", s, t);
    case Markdown =>
      AnnexNamesDiffer(base, s, t, ".md");
      AnnexNamesDiffer(base, t, s, ".md");
      if i == 0 {
        SuffixesDiffer(base, ".md", s, t);
      } else {
        SuffixesDiffer(AnnexBase(base), ".md", s, t);
      }
  }

  /** Nothing for the first bundle; for any later one a dash and its number. */
  predicate Numbered(tail: string, suffix: nat) {
    if suffix == 1 then tail == "" else tail != "" && tail[0] == '-' && IsNumeral(tail[1..]) && ReadDigits(tail[1..]) == suffix
  }

  function Extension(format: OutputFormat): string {
    match format
    case Markdown => ".md"
    case Pdf => ".pdf"
  }

  /** A bundle's first name is the stem's own, its second, if any, the annex's, with the marker in front of the timestamp;
      both end alike, without a number in the first bundle and with its number in a later one. */
  lemma BundleNamesAreReadable(format: OutputFormat, base: string, suffix: nat) returns (tail: string)
    requires TimestampedBase(base) && suffix >= 1
    ensures Numbered(tail, suffix)
    ensures var names, start := BundleFilenames(format, base, suffix), |base| - TIMESTAMP_LENGTH;
            && |names| == (if format == Markdown then 2 else 1)
            && names[0] == base + tail + Extension(format)
            && (format == Markdown ==> names[1] == base[..start - 1] + "-annex-1-" + base[start..] + tail + ".md")
  {
    hide DecimalText.Decimal, IsNumeral, ReadDigits;
    tail := if suffix > 1 then "-" + Decimal(suffix) else "";
    DecimalReadsBack(suffix);
    assert suffix > 1 ==> tail[1..] == Decimal(suffix);
    assert Suffixed(base, suffix) == base + tail;
    assert Suffixed(AnnexBase(base), suffix) == AnnexBase(base) + tail;
  }
}
