/**
 * The download side of the citation panel (src/components/CitationExport.tsx):
 * the table of formats with their labels, file extensions and media types,
 * and the file name a downloaded citation gets.
 */
module CitationExport {
  import opened Text

  datatype CitationFormat = BibTeX | RIS | EndNote | CSLJSON | RefWorks

  datatype Label = Label(title: string, ext: string, mime: string)

  /** `LABELS`. */
  function Labels(f: CitationFormat): Label
  {
    match f
    case BibTeX => Label("BibTeX", "bib", "application/x-bibtex")
    case RIS => Label("RIS", "ris", "application/x-research-info-systems")
    case EndNote => Label("EndNote", "enw", "application/x-endnote-refer")
    case CSLJSON => Label("CSL JSON", "json", "application/vnd.citationstyles.csl+json")
    case RefWorks => Label("RefWorks", "rwk", "text/plain")
  }

  predicate IsDot(c: char)
  {
    c == '.'
  }

  /** Every format has its own extension, and no extension holds a dot. */
  lemma ExtensionsDistinct(f: CitationFormat, g: CitationFormat)
    ensures f != g ==> Labels(f).ext != Labels(g).ext
    ensures Labels(f).ext != [] && NoneSatisfy(Labels(f).ext, IsDot)
  {
  }

  /** The characters a file name keeps: `[A-Za-z0-9._-]`. */
  predicate IsSafeChar(c: char)
  {
    ('A' <= c <= 'Z') || ('a' <= c <= 'z') || ('0' <= c <= '9') || c == '.' || c == '_' || c == '-'
  }

  predicate IsUnsafe(c: char)
  {
    !IsSafeChar(c)
  }

  const MaxTitleLength: nat := 60

  /**
   * `safeTitle`: every maximal run of other characters becomes one `_`, the
   * result is cut to 60 characters, and an empty result becomes "citation".
   * (The replaced text is ASCII, so cutting code units and cutting
   * characters agree.)
   */
  function SafeTitle(title: string): (r: string)
    ensures forall i :: 0 <= i < |r| ==> IsSafeChar(r[i])
    ensures 0 < |r| <= MaxTitleLength
    ensures title == "" ==> r == "citation"
    ensures title != "" ==> r <= ReplaceRuns(title, IsUnsafe, "_")
    ensures title != "" ==> var n := |ReplaceRuns(title, IsUnsafe, "_")|;
      |r| == if n <= MaxTitleLength then n else MaxTitleLength
  {
    var replaced := ReplaceRuns(title, IsUnsafe, "_");
    ReplaceRunsAvoids(title, IsUnsafe, "_");
    var cut := if |replaced| <= MaxTitleLength then replaced else replaced[..MaxTitleLength];
    assert forall i :: 0 <= i < |cut| ==> cut[i] == replaced[i];
    if cut == "" then "citation" else cut
  }

  /** A title that is already a safe name of at most 60 characters is kept as it is. */
  lemma SafeTitleKeepsSafe(title: string)
    requires title != [] && |title| <= MaxTitleLength
    requires forall i :: 0 <= i < |title| ==> IsSafeChar(title[i])
    ensures SafeTitle(title) == title
  {
    ReplaceRunsNoRuns(title, IsUnsafe, "_");
  }

  /** `${safeTitle}.${ext}`: the safe title, a dot, and nothing after the dot but the extension. */
  function DownloadName(title: string, f: CitationFormat): (r: string)
    ensures SafeTitle(title) + "." <= r
    ensures r[|SafeTitle(title)| + 1..] == Labels(f).ext
  {
    var name := SafeTitle(title) + ".";
    assert name <= name + Labels(f).ext;
    assert (name + Labels(f).ext)[|name|..] == Labels(f).ext;
    name + Labels(f).ext
  }

  /** The text after the last dot of the download name is the format's extension. */
  lemma DownloadNameExtension(title: string, f: CitationFormat)
    ensures AfterLast(DownloadName(title, f), IsDot) == Labels(f).ext
  {
    ExtensionsDistinct(f, f);
    AfterLastSeparator(SafeTitle(title) + ".", IsDot, Labels(f).ext);
  }
}
