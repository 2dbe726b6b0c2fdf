/**
 * The values a search-result card derives from one hit
 * (src/components/SearchResultItem.tsx): the publication date shown, the
 * visible part of the description, and the visible creators and subjects
 * with the counts behind their "+N more" labels.
 */
module SearchResultItem {
  import opened Wrappers

  /** One entry of `_source.dates`. */
  datatype DateEntry = DateEntry(date: string, dateType: string)

  /**
   * The fields of a hit the card reads. `None` stands for a field that is
   * absent or `null`. `publicationDate` is the root-level field the card reads.
   */
  datatype Hit = Hit(
    publicationDate: Option<string>,
    dates: Option<seq<DateEntry>>,
    publicationYear: Option<string>,
    creators: Option<seq<string>>,
    subjects: Option<seq<string>>)

  /** JavaScript truthiness of an optional string: present and not "". */
  predicate Truthy(s: Option<string>)
  {
    s.Some? && s.value != ""
  }

  /** `dates` as a list; an absent list behaves like an empty one. */
  function DatesOf(hit: Hit): seq<DateEntry>
  {
    if hit.dates.Some? then hit.dates.value else []
  }

  /** Entry `i` is the first entry of type `t`. */
  predicate IsFirstOfType(ds: seq<DateEntry>, t: string, i: int)
  {
    0 <= i < |ds| && ds[i].dateType == t && forall j :: 0 <= j < i ==> ds[j].dateType != t
  }

  /** No entry has type `t`. */
  predicate Lacks(ds: seq<DateEntry>, t: string)
  {
    forall j :: 0 <= j < |ds| ==> ds[j].dateType != t
  }

  /** No entry of `dates` has type "Issued", "Available" or "Created". */
  predicate LacksOfficialDates(hit: Hit)
  {
    Lacks(DatesOf(hit), "Issued") && Lacks(DatesOf(hit), "Available") && Lacks(DatesOf(hit), "Created")
  }

  /** `dates.find(d => d.dateType === t)`, as the index found. */
  function FindType(ds: seq<DateEntry>, t: string): (r: Option<nat>)
    ensures r.Some? ==> IsFirstOfType(ds, t, r.value)
    ensures r.None? ==> Lacks(ds, t)
  {
    if ds == [] then None
    else if ds[0].dateType == t then Some(0)
    else
      var rest := FindType(ds[1..], t);
      if rest.Some? then
        assert forall j :: 1 <= j <= rest.value ==> ds[j] == ds[1..][j - 1];
        Some(rest.value + 1)
      else
        assert forall j :: 1 <= j < |ds| ==> ds[j] == ds[1..][j - 1];
        None
  }

  /** The date of the first entry of type `t`, when there is one. */
  function DateOfType(ds: seq<DateEntry>, t: string): (r: Option<string>)
    ensures forall i :: IsFirstOfType(ds, t, i) ==> r == Some(ds[i].date)
    ensures r.None? <==> Lacks(ds, t)
  {
    FirstOfTypeUnique(ds, t);
    var i := FindType(ds, t);
    if i.Some? then Some(ds[i.value].date) else None
  }

  /**
   * `getPublicationDate`: the root `publicationDate`, else the date of the
   * first "Issued" entry, else of the first "Available" entry, else of the
   * first "Created" entry, else `publicationYear`, else `null` (`None`).
   * An entry that is found gives its date even when that date is "".
   */
  function PublicationDate(hit: Hit): (r: Option<string>)
    ensures Truthy(hit.publicationDate) ==> r == hit.publicationDate
    ensures !Truthy(hit.publicationDate) ==>
      forall i :: IsFirstOfType(DatesOf(hit), "Issued", i) ==> r == Some(DatesOf(hit)[i].date)
    ensures !Truthy(hit.publicationDate) && Lacks(DatesOf(hit), "Issued") ==>
      forall i :: IsFirstOfType(DatesOf(hit), "Available", i) ==> r == Some(DatesOf(hit)[i].date)
    ensures !Truthy(hit.publicationDate) && Lacks(DatesOf(hit), "Issued") && Lacks(DatesOf(hit), "Available") ==>
      forall i :: IsFirstOfType(DatesOf(hit), "Created", i) ==> r == Some(DatesOf(hit)[i].date)
    ensures !Truthy(hit.publicationDate) && LacksOfficialDates(hit) ==>
      r == (if Truthy(hit.publicationYear) then hit.publicationYear else None)
    ensures r.None? <==> (!Truthy(hit.publicationDate) && LacksOfficialDates(hit) && !Truthy(hit.publicationYear))
  {
    var ds := DatesOf(hit);
    FirstOfTypeUnique(ds, "Issued");
    FirstOfTypeUnique(ds, "Available");
    FirstOfTypeUnique(ds, "Created");
    if Truthy(hit.publicationDate) then hit.publicationDate
    else if DateOfType(ds, "Issued").Some? then DateOfType(ds, "Issued")
    else if DateOfType(ds, "Available").Some? then DateOfType(ds, "Available")
    else if DateOfType(ds, "Created").Some? then DateOfType(ds, "Created")
    else if Truthy(hit.publicationYear) then hit.publicationYear
    else None
  }

  /** At most one index is the first of a type. */
  lemma FirstOfTypeUnique(ds: seq<DateEntry>, t: string)
    ensures forall i, k :: IsFirstOfType(ds, t, i) && IsFirstOfType(ds, t, k) ==> i == k
  {
  }

  const DescLimit: nat := 300

  /** The description is cut when it is longer than the limit. */
  predicate IsDescTruncated(full: string)
  {
    |full| > DescLimit
  }

  /**
   * `visibleDescription`: the full text when expanded or not longer than
   * 300 characters, otherwise its first 300 characters followed by "...".
   */
  function VisibleDescription(full: string, expanded: bool): (r: string)
    ensures expanded || !IsDescTruncated(full) ==> r == full
    ensures !expanded && IsDescTruncated(full) ==>
      |r| == DescLimit + 3 && r[..DescLimit] == full[..DescLimit] && r[DescLimit..] == "..."
    ensures |r| <= |full| + 3
  {
    if expanded || !IsDescTruncated(full) then full else full[..DescLimit] + "..."
  }

  const BaseAuthorsToShow: nat := 3

  /** `showAllAuthors`: expanded, or no more creators than are shown by default. */
  predicate ShowAllAuthors(creators: seq<string>, expanded: bool)
  {
    expanded || |creators| <= BaseAuthorsToShow
  }

  /** `hit._source.creators || []`. */
  function CreatorsOf(hit: Hit): seq<string>
  {
    if hit.creators.Some? then hit.creators.value else []
  }

  /** `visibleCreators`: every creator when all are shown, otherwise the first three. */
  function VisibleCreators(creators: seq<string>, expanded: bool): (r: seq<string>)
    ensures r <= creators
    ensures |r| == if ShowAllAuthors(creators, expanded) then |creators| else BaseAuthorsToShow
  {
    if ShowAllAuthors(creators, expanded) then creators else creators[..BaseAuthorsToShow]
  }

  /** `remainingAuthors = Math.max(0, creators.length - 3)`. */
  function RemainingAuthors(creators: seq<string>): (r: nat)
    ensures r == 0 <==> |creators| <= BaseAuthorsToShow
    ensures |creators| > BaseAuthorsToShow ==> r + BaseAuthorsToShow == |creators|
  {
    if |creators| > BaseAuthorsToShow then |creators| - BaseAuthorsToShow else 0
  }

  /**
   * The number in the ", +N more" suffix after the names, when the suffix is
   * shown (`!showAllAuthors && remainingAuthors > 0`).
   */
  function MoreAuthors(creators: seq<string>, expanded: bool): (r: Option<nat>)
    ensures r.Some? <==> !expanded && |creators| > BaseAuthorsToShow
    ensures r.Some? ==> r.value + BaseAuthorsToShow == |creators|
  {
    if !ShowAllAuthors(creators, expanded) && RemainingAuthors(creators) > 0
    then Some(RemainingAuthors(creators)) else None
  }

  /**
   * The collapsed list accounts for every creator: the suffix appears
   * exactly when names are hidden, and the visible names plus the number in
   * the suffix is the number of creators.
   */
  lemma CreatorsAccounted(creators: seq<string>, expanded: bool)
    ensures MoreAuthors(creators, expanded).Some? <==> |VisibleCreators(creators, expanded)| < |creators|
    ensures MoreAuthors(creators, expanded).Some? ==>
      |VisibleCreators(creators, expanded)| + MoreAuthors(creators, expanded).value == |creators|
    ensures MoreAuthors(creators, expanded).None? ==> VisibleCreators(creators, expanded) == creators
  {
  }

  const MaxSubjects: nat := 5

  /** `hit._source.subjects.slice(0, 5)`: the subject chips. */
  function VisibleSubjects(subjects: seq<string>): (r: seq<string>)
    ensures r <= subjects
    ensures |r| == if |subjects| <= MaxSubjects then |subjects| else MaxSubjects
  {
    if |subjects| <= MaxSubjects then subjects else subjects[..MaxSubjects]
  }

  /** The number in the "+N more" label after the chips, shown only when there are more than five. */
  function MoreSubjects(subjects: seq<string>): (r: Option<nat>)
    ensures r.Some? <==> |subjects| > MaxSubjects
    ensures r.Some? ==> r.value > 0
  {
    if |subjects| > MaxSubjects then Some(|subjects| - MaxSubjects) else None
  }

  /** The chips and the label together account for every subject. */
  lemma SubjectsAccounted(subjects: seq<string>)
    ensures MoreSubjects(subjects).Some? ==> |VisibleSubjects(subjects)| + MoreSubjects(subjects).value == |subjects|
    ensures MoreSubjects(subjects).None? ==> VisibleSubjects(subjects) == subjects
  {
  }
}
