/**
 * Citation strings for one dataset (src/lib/citation.ts): brace
 * sanitising, the BibTeX key and field layout, and the line-by-line RIS,
 * EndNote and RefWorks records. The year, the RIS date part, the DOI and
 * today's date come from date and URL parsing and are parameters here.
 */
module Citation {
  import opened Wrappers
  import opened Text
  import opened Lists

  /**
   * The fields of a dataset the builders read. `url` may be missing, and a
   * missing value prints as "undefined" inside a template literal.
   */
  datatype Dataset = Dataset(
    creators: seq<string>,
    id: string,
    title: string,
    url: Option<string>,
    keywords: Option<seq<string>>)

  /** The year `extractYear` gives for a date it cannot parse. */
  const NoDate := "n.d."

  /** How a possibly missing value prints inside a template literal. */
  function Interpolate(v: Option<string>): string
  {
    if v.Some? then v.value else "undefined"
  }

  /** JavaScript truthiness of an optional string: present and not "". */
  predicate Truthy(v: Option<string>)
  {
    v.Some? && v.value != ""
  }

  predicate IsBrace(c: char)
  {
    c == '{' || c == '}'
  }

  /**
   * `sanitize`: every `{` and `}` removed, every other character kept in
   * order. With `SanitizeAppend` the single-character case determines the
   * result.
   */
  function Sanitize(value: string): (r: string)
    ensures NoneSatisfy(r, IsBrace)
    ensures |value| == 1 ==> r == (if IsBrace(value[0]) then "" else value)
    ensures forall i :: 0 <= i < |value| && !IsBrace(value[i]) ==> value[i] in r
    ensures forall c :: c in r ==> c in value
    ensures NoneSatisfy(value, IsBrace) ==> r == value
  {
    assert NoneSatisfy(value, IsBrace) ==> RemoveAll(value, IsBrace) == value by {
      if NoneSatisfy(value, IsBrace) { RemoveAllNone(value, IsBrace); }
    }
    RemoveAll(value, IsBrace)
  }

  /** Sanitising works part by part. */
  lemma SanitizeAppend(a: string, b: string)
    ensures Sanitize(a + b) == Sanitize(a) + Sanitize(b)
  {
    RemoveAllAppend(a, b, IsBrace);
  }

  /** Sanitising a sanitised value changes nothing. */
  lemma SanitizeIdempotent(value: string)
    ensures Sanitize(Sanitize(value)) == Sanitize(value)
  {
    RemoveAllIdempotent(value, IsBrace);
  }

  predicate IsComma(c: char)
  {
    c == ','
  }

  /**
   * `firstCreatorLastName`: "unknown" without creators; for "Last, First"
   * the words before the first comma joined by `_` (the trimmed part with
   * its whitespace runs replaced); otherwise the last word of the name, ""
   * for a blank one. The result never holds whitespace. (`split` always
   * yields at least one part, so the source's second "unknown" is never
   * reached.)
   */
  function FirstCreatorLastName(creators: seq<string>): (r: string)
    ensures creators == [] ==> r == "unknown"
    ensures creators != [] && Contains(creators[0], ",") ==>
      r == Join(Words(BeforeFirst(creators[0], IsComma)), "_")
    ensures creators != [] && !Contains(creators[0], ",") ==>
      var ws := Words(creators[0]); r == if ws == [] then "" else ws[|ws| - 1]
    ensures creators != [] ==> NoneSatisfy(r, IsWhitespace)
  {
    if creators == [] then "unknown"
    else if Contains(creators[0], ",") then InvertedLastName(creators[0])
    else PlainLastName(creators[0])
  }

  /**
   * The trimmed part of a "Last, First" name before its first comma, with
   * its whitespace runs replaced by `_`: the words of that part joined by `_`.
   */
  function InvertedLastName(first: string): (r: string)
    ensures r == Join(Words(BeforeFirst(first, IsComma)), "_")
    ensures NoneSatisfy(r, IsWhitespace)
  {
    JoinedWords(BeforeFirst(first, IsComma));
    ReplaceRuns(Trim(BeforeFirst(first, IsComma)), IsWhitespace, "_")
  }

  /** Trimming and then replacing the whitespace runs by `_` joins the words by `_`. */
  lemma JoinedWords(s: string)
    ensures ReplaceRuns(Trim(s), IsWhitespace, "_") == Join(Words(s), "_")
    ensures NoneSatisfy(ReplaceRuns(Trim(s), IsWhitespace, "_"), IsWhitespace)
  {
    ReplaceRunsAvoids(Trim(s), IsWhitespace, "_");
    StripReplaceFields(s, IsWhitespace, "_");
  }

  /** The last part of the trimmed name split at whitespace: its last word, or "" for a blank name. */
  function PlainLastName(first: string): (r: string)
    ensures var ws := Words(first); r == if ws == [] then "" else ws[|ws| - 1]
    ensures NoneSatisfy(r, IsWhitespace)
  {
    LastFieldOfStrip(first, IsWhitespace);
    AfterLast(Trim(first), IsWhitespace)
  }

  /** A "First Last" name without a comma gives its family name. */
  lemma LastNameOfGivenFamily(given: string, family: string)
    requires given != [] && !IsWhitespace(given[0])
    requires family != [] && NoneSatisfy(family, IsWhitespace)
    requires !Contains(given + " " + family, ",")
    ensures FirstCreatorLastName([given + " " + family]) == family
  {
    var full := given + " " + family;
    assert full[0] == given[0] && full[|full| - 1] == family[|family| - 1];
    assert Trim(full) == full;
    assert full == (given + " ") + family;
    AfterLastSeparator(given + " ", IsWhitespace, family);
  }

  /**
   * A "Last, First" name gives the words before the comma joined by `_`,
   * which is the family name itself when it is one word.
   */
  lemma LastNameOfInverted(family: string, rest: string)
    requires NoneSatisfy(family, IsComma)
    ensures FirstCreatorLastName([family + "," + rest]) == Join(Words(family), "_")
    ensures family != [] && NoneSatisfy(family, IsWhitespace) ==>
      FirstCreatorLastName([family + "," + rest]) == family
  {
    ContainsWithin(family, ",", rest);
    BeforeFirstSeparator(family, ',', rest, IsComma);
    if family != [] && NoneSatisfy(family, IsWhitespace) {
      FieldsOne(family, IsWhitespace);
    }
  }

  /**
   * One creator as BibTeX writes it (`c.replace(/\s+/g, ' ').trim()`): no
   * whitespace at either end, and whitespace inside only as single spaces.
   */
  function NormalizeAuthor(c: string): (r: string)
    ensures r == Join(Words(c), " ")
    ensures Collapsed(r)
    ensures r == [] || (!IsWhitespace(r[0]) && !IsWhitespace(r[|r| - 1]))
    ensures r == [] <==> forall i :: 0 <= i < |c| ==> IsWhitespace(c[i])
  {
    var spaced := ReplaceRuns(c, IsWhitespace, " ");
    ReplaceRunsCollapses(c);
    TrimKeepsCollapsed(spaced);
    NormalizeBlank(c);
    NormalizeWords(c);
    Trim(spaced)
  }

  /** Collapsing and trimming a name gives its words separated by single spaces. */
  lemma NormalizeWords(c: string)
    ensures Trim(ReplaceRuns(c, IsWhitespace, " ")) == Join(Words(c), " ")
  {
    assert AllSatisfy(" ", IsWhitespace);
    CollapseFields(c, IsWhitespace, " ");
  }

  /** Collapsing and trimming leave nothing exactly when the name is blank. */
  lemma NormalizeBlank(c: string)
    ensures Trim(ReplaceRuns(c, IsWhitespace, " ")) == [] <==> forall i :: 0 <= i < |c| ==> IsWhitespace(c[i])
  {
    var spaced := ReplaceRuns(c, IsWhitespace, " ");
    TrimEmpty(spaced);
    TrimEmpty(c);
    if forall i :: 0 <= i < |c| ==> IsWhitespace(c[i]) {
      assert Trim(c) == [];
      BlankSpaced(c);
    } else {
      var k :| 0 <= k < |c| && !IsWhitespace(c[k]);
      SpacedKeeps(c, k);
    }
  }

  /** A blank name collapses to at most one space. */
  lemma BlankSpaced(c: string)
    requires forall i :: 0 <= i < |c| ==> IsWhitespace(c[i])
    ensures forall i :: 0 <= i < |ReplaceRuns(c, IsWhitespace, " ")| ==> IsWhitespace(ReplaceRuns(c, IsWhitespace, " ")[i])
  {
    if c != [] {
      var d := DropWhile(c, IsWhitespace);
      assert d == [];
    }
  }

  /** A non-whitespace character survives the collapsing of whitespace runs. */
  lemma SpacedKeeps(c: string, k: nat)
    requires k < |c| && !IsWhitespace(c[k])
    ensures exists j :: 0 <= j < |ReplaceRuns(c, IsWhitespace, " ")| && !IsWhitespace(ReplaceRuns(c, IsWhitespace, " ")[j])
  {
    ReplaceRunsKeeps(c, IsWhitespace, " ", k);
  }

  /** The creators as BibTeX writes them, in order. */
  function NormalizedAuthors(creators: seq<string>): (r: seq<string>)
    ensures |r| == |creators|
    ensures forall i :: 0 <= i < |r| ==> r[i] == NormalizeAuthor(creators[i]) && Collapsed(r[i])
  {
    seq(|creators|, i requires 0 <= i < |creators| => NormalizeAuthor(creators[i]))
  }

  /** `formatAuthorsBibTeX`: the normalised creators joined with " and ". */
  function FormatAuthorsBibTeX(creators: seq<string>): (r: string)
    ensures creators == [] ==> r == ""
    ensures |creators| == 1 ==> r == NormalizeAuthor(creators[0])
    ensures creators != [] ==> NormalizeAuthor(creators[0]) <= r
    ensures r == Join(NormalizedAuthors(creators), " and ")
  {
    var names := NormalizedAuthors(creators);
    if names == [] then "" else JoinEnds(names, " and "); Join(names, " and ")
  }

  /** One more creator adds " and " and that creator's normalised name. */
  lemma FormatAuthorsSnoc(creators: seq<string>, c: string)
    requires creators != []
    ensures FormatAuthorsBibTeX(creators + [c]) == FormatAuthorsBibTeX(creators) + " and " + NormalizeAuthor(c)
  {
    var names := NormalizedAuthors(creators);
    assert NormalizedAuthors(creators + [c]) == names + [NormalizeAuthor(c)];
    JoinSnoc(names, NormalizeAuthor(c), " and ");
  }

  predicate IsKeyChar(c: char)
  {
    ('A' <= c <= 'Z') || ('a' <= c <= 'z') || ('0' <= c <= '9') || c == '_'
  }

  predicate IsNotKeyChar(c: char)
  {
    !IsKeyChar(c)
  }

  /**
   * The citation key: `<last name>_<year>_<id>` with every character outside
   * `[A-Za-z0-9_]` removed.
   */
  function BibTeXKey(ds: Dataset, year: string): (r: string)
    ensures forall i :: 0 <= i < |r| ==> IsKeyChar(r[i])
    ensures var base := FirstCreatorLastName(ds.creators) + "_" + year + "_" + ds.id;
      forall i :: 0 <= i < |base| && IsKeyChar(base[i]) ==> base[i] in r
  {
    RemoveAll(FirstCreatorLastName(ds.creators) + "_" + year + "_" + ds.id, IsNotKeyChar)
  }

  /** A named BibTeX field whose value may be missing. */
  datatype FieldName = Title | Author | Year | Url | Note | Doi

  /** The key a field is written with. */
  function KeyOf(n: FieldName): string
  {
    match n
    case Title => "title"
    case Author => "author"
    case Year => "year"
    case Url => "url"
    case Note => "note"
    case Doi => "doi"
  }

  datatype Field = Field(name: FieldName, value: Option<string>)

  /** The six BibTeX fields, in the order the `fields` record declares them. */
  function FieldsOf(title: Option<string>, author: Option<string>, year: Option<string>,
                    url: Option<string>, note: Option<string>, doi: Option<string>): seq<Field>
  {
    [Field(Title, title), Field(Author, author), Field(Year, year),
     Field(Url, url), Field(Note, note), Field(Doi, doi)]
  }

  /** The `fields` record of `generateBibTeX`. */
  function BibTeXFields(ds: Dataset, year: string, doi: Option<string>, today: string): seq<Field>
  {
    var authors := FormatAuthorsBibTeX(ds.creators);
    FieldsOf(Some(Sanitize(ds.title)), if authors != "" then Some(authors) else None,
             if year != NoDate then Some(year) else None, ds.url, Some("Accessed: " + today), doi)
  }

  /**
   * `Object.entries(fields).filter(([, v]) => !!v)`: the fields with a truthy
   * value, in order. With `PresentAppend` the one-field case determines the
   * result.
   */
  function Present(fields: seq<Field>): (r: seq<(FieldName, string)>)
    ensures |r| <= |fields|
    ensures forall i :: 0 <= i < |r| ==> r[i].1 != "" && Field(r[i].0, Some(r[i].1)) in fields
    ensures forall f :: f in fields && Truthy(f.value) ==> (f.name, f.value.value) in r
    ensures |fields| == 1 ==> r == if Truthy(fields[0].value) then [(fields[0].name, fields[0].value.value)] else []
  {
    if fields == [] then []
    else
      var rest := Present(fields[1..]);
      assert forall f :: f in fields[1..] ==> f in fields;
      assert forall f :: f in fields ==> f == fields[0] || f in fields[1..];
      (if Truthy(fields[0].value) then [(fields[0].name, fields[0].value.value)] else []) + rest
  }

  /** Filtering keeps the order: the entries of `a + b` are those of `a`, then those of `b`. */
  lemma {:induction false} PresentAppend(a: seq<Field>, b: seq<Field>)
    ensures Present(a + b) == Present(a) + Present(b)
  {
    if a == [] {
      assert a + b == b;
    } else {
      assert (a + b)[0] == a[0] && (a + b)[1..] == a[1..] + b;
      PresentAppend(a[1..], b);
      var head := if Truthy(a[0].value) then [(a[0].name, a[0].value.value)] else [];
      AppendAssoc(head, Present(a[1..]), Present(b));
    }
  }

  predicate EndsWith(s: string, c: char)
  {
    s != [] && s[|s| - 1] == c
  }

  /** One line of the body: `  k = {v}`, with a comma unless it is the last line. */
  function FieldLine(name: FieldName, value: string, isLast: bool): (r: string)
    ensures isLast ==> EndsWith(r, '}')
    ensures !isLast ==> EndsWith(r, ',')
    ensures ("  " + KeyOf(name) + " = {") <= r
  {
    var line := "  " + KeyOf(name) + " = {" + Sanitize(value) + "}";
    assert ("  " + KeyOf(name) + " = {") <= line;
    if isLast then line else line + ","
  }

  /** The body lines: one per entry, every line but the last ending with a comma. */
  function FieldLines(entries: seq<(FieldName, string)>): (r: seq<string>)
    ensures |r| == |entries|
    ensures forall i :: 0 <= i < |r| - 1 ==> EndsWith(r[i], ',')
    ensures r != [] ==> EndsWith(r[|r| - 1], '}')
  {
    seq(|entries|, i requires 0 <= i < |entries| => FieldLine(entries[i].0, entries[i].1, i == |entries| - 1))
  }

  /** The lines between the opening and the closing line of the BibTeX record. */
  function BibTeXLines(ds: Dataset, year: string, doi: Option<string>, today: string): seq<string>
  {
    FieldLines(Present(BibTeXFields(ds, year, doi, today)))
  }

  /** `generateBibTeX`: `@misc{key,`, the field lines joined by newlines, and `}`. */
  function GenerateBibTeX(ds: Dataset, year: string, doi: Option<string>, today: string): (r: string)
    ensures ("@misc{" + BibTeXKey(ds, year) + ",\n") <= r
    ensures |r| >= 2 && r[|r| - 2..] == "\n}"
  {
    var head := "@misc{" + BibTeXKey(ds, year) + ",\n";
    var body := Join(BibTeXLines(ds, year, doi, today), "\n");
    FrameParts(head, body, "\n}");
    head + body + "\n}"
  }

  /**
   * The BibTeX body keeps the truthy fields: the access note always, the
   * sanitised title when it is not empty, and the year unless it is "n.d.".
   */
  lemma BibTeXEntries(ds: Dataset, year: string, doi: Option<string>, today: string)
    ensures var es := Present(BibTeXFields(ds, year, doi, today));
      (Note, "Accessed: " + today) in es
      && (Sanitize(ds.title) != "" ==> (Title, Sanitize(ds.title)) in es)
      && (year != NoDate && year != "" ==> (Year, year) in es)
  {
    var fs := BibTeXFields(ds, year, doi, today);
    assert fs[4] == Field(Note, Some("Accessed: " + today)) && fs[4] in fs;
    if Sanitize(ds.title) != "" {
      assert fs[0] == Field(Title, Some(Sanitize(ds.title))) && fs[0] in fs;
    }
    if year != NoDate && year != "" {
      assert fs[2] == Field(Year, Some(year)) && fs[2] in fs;
    }
  }

  /**
   * Nothing else enters the body: every entry has a non-empty value, the
   * year entry only for a year other than "n.d.", and the author entry is
   * the formatted author list.
   */
  lemma BibTeXEntriesOnly(ds: Dataset, year: string, doi: Option<string>, today: string)
    ensures var es := Present(BibTeXFields(ds, year, doi, today));
      (forall e :: e in es ==> e.1 != "")
      && (forall e :: e in es && e.0 == Year ==> e.1 == year && year != NoDate)
      && (forall e :: e in es && e.0 == Author ==> e.1 == FormatAuthorsBibTeX(ds.creators))
  {
    var authors := FormatAuthorsBibTeX(ds.creators);
    PresentFieldsOf(Some(Sanitize(ds.title)), if authors != "" then Some(authors) else None,
                    if year != NoDate then Some(year) else None, ds.url, Some("Accessed: " + today), doi);
  }

  /** Each kept entry carries the value of the field of its name. */
  lemma PresentFieldsOf(title: Option<string>, author: Option<string>, year: Option<string>,
                        url: Option<string>, note: Option<string>, doi: Option<string>)
    ensures var es := Present(FieldsOf(title, author, year, url, note, doi));
      (forall e :: e in es ==> e.1 != "")
      && (forall e :: e in es && e.0 == Year ==> year == Some(e.1))
      && (forall e :: e in es && e.0 == Author ==> author == Some(e.1))
  {
    var fs := FieldsOf(title, author, year, url, note, doi);
    var es := Present(fs);
    forall e | e in es ensures e.1 != "" && (e.0 == Year ==> year == Some(e.1)) && (e.0 == Author ==> author == Some(e.1)) {
      var i :| 0 <= i < |es| && es[i] == e;
      assert Field(e.0, Some(e.1)) in fs;
      InFieldsOf(title, author, year, url, note, doi, Field(e.0, Some(e.1)));
    }
  }

  /** A field of the record carries the value given for its name. */
  lemma InFieldsOf(title: Option<string>, author: Option<string>, year: Option<string>,
                   url: Option<string>, note: Option<string>, doi: Option<string>, f: Field)
    requires f in FieldsOf(title, author, year, url, note, doi)
    ensures f.name == Year ==> f.value == year
    ensures f.name == Author ==> f.value == author
  {
  }

  /** A BibTeX record has one body line per truthy field, every one but the last ending with a comma. */
  lemma BibTeXLayout(ds: Dataset, year: string, doi: Option<string>, today: string)
    ensures var ls := BibTeXLines(ds, year, doi, today);
      1 <= |ls| <= 6
      && (forall i :: 0 <= i < |ls| - 1 ==> EndsWith(ls[i], ','))
      && EndsWith(ls[|ls| - 1], '}')
  {
    BibTeXEntries(ds, year, doi, today);
  }

  /** The lines `tag + x` for each `x`, in order. */
  function Tagged(tag: string, xs: seq<string>): (r: seq<string>)
    ensures |r| == |xs|
    ensures forall i :: 0 <= i < |xs| ==> r[i] == tag + xs[i]
  {
    seq(|xs|, i requires 0 <= i < |xs| => tag + xs[i])
  }

  /** Tagging one more value appends one line. */
  lemma TaggedSnoc(tag: string, xs: seq<string>, i: nat)
    requires i < |xs|
    ensures Tagged(tag, xs[..i + 1]) == Tagged(tag, xs[..i]) + [tag + xs[i]]
  {
  }

  /** The number of lines starting with `tag`. */
  function CountTagged(lines: seq<string>, tag: string): (r: nat)
    ensures r <= |lines|
  {
    if lines == [] then 0 else (if tag <= lines[0] then 1 else 0) + CountTagged(lines[1..], tag)
  }

  lemma {:induction false} CountTaggedAppend(a: seq<string>, b: seq<string>, tag: string)
    ensures CountTagged(a + b, tag) == CountTagged(a, tag) + CountTagged(b, tag)
    decreases |a|
  {
    if a == [] {
      assert a + b == b;
    } else {
      assert (a + b)[1..] == a[1..] + b;
      CountTaggedAppend(a[1..], b, tag);
    }
  }

  /** Every tagged line counts. */
  lemma {:induction false} CountTaggedAll(tag: string, xs: seq<string>)
    ensures CountTagged(Tagged(tag, xs), tag) == |xs|
    decreases |xs|
  {
    if xs != [] {
      assert Tagged(tag, xs)[1..] == Tagged(tag, xs[1..]);
      CountTaggedAll(tag, xs[1..]);
    }
  }

  /** Lines that differ from `tag` at a position inside both do not count. */
  lemma {:induction false} CountTaggedNone(lines: seq<string>, tag: string, k: nat)
    requires forall i :: 0 <= i < |lines| ==> k < |tag| && k < |lines[i]| && lines[i][k] != tag[k]
    ensures CountTagged(lines, tag) == 0
    decreases |lines|
  {
    if lines != [] {
      assert !(tag <= lines[0]) by { assert lines[0][k] != tag[k]; }
      CountTaggedNone(lines[1..], tag, k);
    }
  }

  /** One optional line: present exactly when the condition holds. */
  function Opt(present: bool, line: string): (r: seq<string>)
    ensures present ==> r == [line]
    ensures !present ==> r == []
  {
    if present then [line] else []
  }

  /** Appending lines that do not count leaves the count unchanged. */
  lemma CountTaggedKeeps(a: seq<string>, b: seq<string>, tag: string, k: nat)
    requires forall i :: 0 <= i < |b| ==> k < |tag| && k < |b[i]| && b[i][k] != tag[k]
    ensures CountTagged(a + b, tag) == CountTagged(a, tag)
  {
    CountTaggedAppend(a, b, tag);
    CountTaggedNone(b, tag, k);
  }

  /** A conditional line `head + x` whose head differs from the tag at `k` leaves the count unchanged. */
  lemma OptKeeps(a: seq<string>, present: bool, head: string, x: string, tag: string, k: nat)
    requires k < |head| && k < |tag| && head[k] != tag[k]
    ensures CountTagged(a + Opt(present, head + x), tag) == CountTagged(a, tag)
  {
    assert (head + x)[k] == head[k];
    CountTaggedKeeps(a, Opt(present, head + x), tag, k);
  }

  /** So does an unconditional line `head + x`. */
  lemma LineKeeps(a: seq<string>, head: string, x: string, tag: string, k: nat)
    requires k < |head| && k < |tag| && head[k] != tag[k]
    ensures CountTagged(a + [head + x], tag) == CountTagged(a, tag)
  {
    assert (head + x)[k] == head[k];
    CountTaggedKeeps(a, [head + x], tag, k);
  }

  /** So does a single line that differs from the tag at `k`. */
  lemma LiteralKeeps(a: seq<string>, line: string, tag: string, k: nat)
    requires k < |line| && k < |tag| && line[k] != tag[k]
    ensures CountTagged(a + [line], tag) == CountTagged(a, tag)
  {
    CountTaggedKeeps(a, [line], tag, k);
  }

  /** Appending tagged lines adds one to the count per line. */
  lemma CountTaggedAdds(a: seq<string>, tag: string, xs: seq<string>)
    ensures CountTagged(a + Tagged(tag, xs), tag) == CountTagged(a, tag) + |xs|
  {
    CountTaggedAppend(a, Tagged(tag, xs), tag);
    CountTaggedAll(tag, xs);
  }

  /** The RIS record, line by line, in the order `generateRIS` pushes them. */
  function RisLines(ds: Dataset, year: string, datePart: string, doi: Option<string>): seq<string>
  {
    ["TY  - DATA"] + ["TI  - " + Sanitize(ds.title)]
    + Tagged("AU  - ", ds.creators)
    + Opt(year != NoDate, "PY  - " + year)
    + Opt(datePart != "", "DA  - " + datePart)
    + Opt(Truthy(doi), "DO  - " + Interpolate(doi))
    + ["UR  - " + Interpolate(ds.url)]
    + ["ER  - "]
  }

  /** `generateRIS`: pushes the record lines one by one and joins them with newlines. */
  method GenerateRIS(ds: Dataset, year: string, datePart: string, doi: Option<string>) returns (r: string)
    ensures r == Join(RisLines(ds, year, datePart, doi), "\n")
  {
    var lines: seq<string> := [];
    lines := lines + ["TY  - DATA"];
    lines := lines + ["TI  - " + Sanitize(ds.title)];
    assert lines == ["TY  - DATA"] + ["TI  - " + Sanitize(ds.title)];
    ghost var prev := lines;
    var i := 0;
    while i < |ds.creators|
      invariant 0 <= i <= |ds.creators|
      invariant lines == prev + Tagged("AU  - ", ds.creators[..i])
    {
      TaggedSnoc("AU  - ", ds.creators, i);
      lines := lines + ["AU  - " + ds.creators[i]];
      i := i + 1;
    }
    assert ds.creators[..i] == ds.creators;
    prev := lines;
    if year != NoDate {
      lines := lines + ["PY  - " + year];
    }
    assert lines == prev + Opt(year != NoDate, "PY  - " + year);
    prev := lines;
    if datePart != "" {
      lines := lines + ["DA  - " + datePart];
    }
    assert lines == prev + Opt(datePart != "", "DA  - " + datePart);
    prev := lines;
    if Truthy(doi) {
      lines := lines + ["DO  - " + doi.value];
    }
    assert lines == prev + Opt(Truthy(doi), "DO  - " + Interpolate(doi));
    lines := lines + ["UR  - " + Interpolate(ds.url)];
    lines := lines + ["ER  - "];
    r := Join(lines, "\n");
  }

  /**
   * A RIS record starts with `TY  - DATA`, ends with `ER  - `, and has one
   * `AU` line per creator, in input order, right after the title.
   */
  lemma RisShape(ds: Dataset, year: string, datePart: string, doi: Option<string>)
    ensures var ls := RisLines(ds, year, datePart, doi);
      ls[0] == "TY  - DATA" && ls[|ls| - 1] == "ER  - "
      && (forall i :: 0 <= i < |ds.creators| ==> ls[2 + i] == "AU  - " + ds.creators[i])
      && CountTagged(ls, "AU  - ") == |ds.creators|
  {
    RisAuthorCount(ds, year, datePart, doi);
    var l1 := ["TY  - DATA"] + ["TI  - " + Sanitize(ds.title)] + Tagged("AU  - ", ds.creators);
    assert forall i :: 0 <= i < |ds.creators| ==> l1[2 + i] == "AU  - " + ds.creators[i];
  }

  /** The `AU` lines of a RIS record are exactly the creators. */
  lemma RisAuthorCount(ds: Dataset, year: string, datePart: string, doi: Option<string>)
    ensures CountTagged(RisLines(ds, year, datePart, doi), "AU  - ") == |ds.creators|
  {
    var tag := "AU  - ";
    var l0 := ["TY  - DATA"] + ["TI  - " + Sanitize(ds.title)];
    CountTaggedKeeps([], l0, tag, 0);
    assert [] + l0 == l0;
    var l1 := l0 + Tagged(tag, ds.creators);
    CountTaggedAdds(l0, tag, ds.creators);
    var l2 := l1 + Opt(year != NoDate, "PY  - " + year);
    OptKeeps(l1, year != NoDate, "PY  - ", year, tag, 0);
    var l3 := l2 + Opt(datePart != "", "DA  - " + datePart);
    OptKeeps(l2, datePart != "", "DA  - ", datePart, tag, 0);
    var l4 := l3 + Opt(Truthy(doi), "DO  - " + Interpolate(doi));
    OptKeeps(l3, Truthy(doi), "DO  - ", Interpolate(doi), tag, 0);
    var l5 := l4 + ["UR  - " + Interpolate(ds.url)];
    LineKeeps(l4, "UR  - ", Interpolate(ds.url), tag, 0);
    LiteralKeeps(l5, "ER  - ", tag, 0);
  }

  /** The RIS text opens with the type line and closes with the end-of-record line. */
  lemma RisText(ds: Dataset, year: string, datePart: string, doi: Option<string>)
    ensures var t := Join(RisLines(ds, year, datePart, doi), "\n");
      "TY  - DATA" <= t && |t| >= 6 && t[|t| - 6..] == "ER  - "
  {
    var ls := RisLines(ds, year, datePart, doi);
    RisShape(ds, year, datePart, doi);
    JoinEnds(ls, "\n");
  }

  /** The EndNote record, line by line, in the order `generateEndNote` pushes them. */
  function EndNoteLines(ds: Dataset, year: string, doi: Option<string>, today: string): seq<string>
  {
    ["%0 Dataset"] + ["%T " + Sanitize(ds.title)]
    + Tagged("%A ", ds.creators)
    + Opt(year != NoDate, "%D " + year)
    + Opt(Truthy(doi), "%R " + Interpolate(doi))
    + ["%U " + Interpolate(ds.url)]
    + ["%~ Accessed " + today]
  }

  /** `generateEndNote`: pushes the record lines one by one and joins them with newlines. */
  method GenerateEndNote(ds: Dataset, year: string, doi: Option<string>, today: string) returns (r: string)
    ensures r == Join(EndNoteLines(ds, year, doi, today), "\n")
  {
    var lines: seq<string> := [];
    lines := lines + ["%0 Dataset"];
    lines := lines + ["%T " + Sanitize(ds.title)];
    assert lines == ["%0 Dataset"] + ["%T " + Sanitize(ds.title)];
    ghost var prev := lines;
    var i := 0;
    while i < |ds.creators|
      invariant 0 <= i <= |ds.creators|
      invariant lines == prev + Tagged("%A ", ds.creators[..i])
    {
      TaggedSnoc("%A ", ds.creators, i);
      lines := lines + ["%A " + ds.creators[i]];
      i := i + 1;
    }
    assert ds.creators[..i] == ds.creators;
    prev := lines;
    if year != NoDate {
      lines := lines + ["%D " + year];
    }
    assert lines == prev + Opt(year != NoDate, "%D " + year);
    prev := lines;
    if Truthy(doi) {
      lines := lines + ["%R " + doi.value];
    }
    assert lines == prev + Opt(Truthy(doi), "%R " + Interpolate(doi));
    lines := lines + ["%U " + Interpolate(ds.url)];
    lines := lines + ["%~ Accessed " + today];
    r := Join(lines, "\n");
  }

  /** An EndNote record opens with `%0 Dataset` and has one `%A` line per creator, in input order. */
  lemma EndNoteShape(ds: Dataset, year: string, doi: Option<string>, today: string)
    ensures var ls := EndNoteLines(ds, year, doi, today);
      ls[0] == "%0 Dataset" && ls[|ls| - 1] == "%~ Accessed " + today
      && (forall i :: 0 <= i < |ds.creators| ==> ls[2 + i] == "%A " + ds.creators[i])
      && CountTagged(ls, "%A ") == |ds.creators|
  {
    EndNoteAuthorCount(ds, year, doi, today);
    var l1 := ["%0 Dataset"] + ["%T " + Sanitize(ds.title)] + Tagged("%A ", ds.creators);
    assert forall i :: 0 <= i < |ds.creators| ==> l1[2 + i] == "%A " + ds.creators[i];
  }

  /** The `%A` lines of an EndNote record are exactly the creators. */
  lemma EndNoteAuthorCount(ds: Dataset, year: string, doi: Option<string>, today: string)
    ensures CountTagged(EndNoteLines(ds, year, doi, today), "%A ") == |ds.creators|
  {
    var tag := "%A ";
    var l0 := ["%0 Dataset"] + ["%T " + Sanitize(ds.title)];
    CountTaggedKeeps([], l0, tag, 1);
    assert [] + l0 == l0;
    var l1 := l0 + Tagged(tag, ds.creators);
    CountTaggedAdds(l0, tag, ds.creators);
    var l2 := l1 + Opt(year != NoDate, "%D " + year);
    OptKeeps(l1, year != NoDate, "%D ", year, tag, 1);
    EndNoteTailKeeps(l2, Interpolate(doi), Truthy(doi), Interpolate(ds.url), today);
  }

  /** None of the lines an EndNote record ends with is an author line. */
  lemma EndNoteTailKeeps(l2: seq<string>, doi: string, hasDoi: bool, url: string, today: string)
    ensures CountTagged(l2 + Opt(hasDoi, "%R " + doi) + ["%U " + url] + ["%~ Accessed " + today], "%A ")
      == CountTagged(l2, "%A ")
  {
    var l3 := l2 + Opt(hasDoi, "%R " + doi);
    OptKeeps(l2, hasDoi, "%R ", doi, "%A ", 1);
    var l4 := l3 + ["%U " + url];
    LineKeeps(l3, "%U ", url, "%A ", 1);
    LineKeeps(l4, "%~ Accessed ", today, "%A ", 1);
  }

  const MaxKeywords: nat := 15

  /** `ds.keywords.slice(0, 15)` when the keywords are present. */
  function KeywordsShown(ds: Dataset): (r: seq<string>)
    ensures |r| <= MaxKeywords
    ensures ds.keywords.Some? ==> r <= ds.keywords.value
    ensures ds.keywords.Some? && |ds.keywords.value| >= MaxKeywords ==> |r| == MaxKeywords
    ensures ds.keywords.Some? && |ds.keywords.value| < MaxKeywords ==> r == ds.keywords.value
    ensures ds.keywords.None? ==> r == []
  {
    if ds.keywords.None? then []
    else if |ds.keywords.value| <= MaxKeywords then ds.keywords.value
    else ds.keywords.value[..MaxKeywords]
  }

  /** The RefWorks record, line by line, in the order `generateRefWorks` pushes them. */
  function RefWorksLines(ds: Dataset, year: string, today: string): seq<string>
  {
    ["RT Dataset"] + ["SR Electronic"]
    + Tagged("A1 ", ds.creators)
    + ["T1 " + ds.title]
    + Opt(year != NoDate, "YR " + year)
    + Tagged("K1 ", KeywordsShown(ds))
    + ["UL " + Interpolate(ds.url)]
    + ["NO Accessed " + today]
    + ["ER"]
  }

  /** `generateRefWorks`: pushes the record lines one by one and joins them with newlines. */
  method GenerateRefWorks(ds: Dataset, year: string, today: string) returns (r: string)
    ensures r == Join(RefWorksLines(ds, year, today), "\n")
  {
    var lines: seq<string> := [];
    lines := lines + ["RT Dataset"];
    lines := lines + ["SR Electronic"];
    assert lines == ["RT Dataset"] + ["SR Electronic"];
    ghost var prev := lines;
    var i := 0;
    while i < |ds.creators|
      invariant 0 <= i <= |ds.creators|
      invariant lines == prev + Tagged("A1 ", ds.creators[..i])
    {
      TaggedSnoc("A1 ", ds.creators, i);
      lines := lines + ["A1 " + ds.creators[i]];
      i := i + 1;
    }
    assert ds.creators[..i] == ds.creators;
    lines := lines + ["T1 " + ds.title];
    prev := lines;
    if year != NoDate {
      lines := lines + ["YR " + year];
    }
    assert lines == prev + Opt(year != NoDate, "YR " + year);
    prev := lines;
    var shown: seq<string> := [];
    if ds.keywords.Some? {
      shown := if |ds.keywords.value| <= MaxKeywords then ds.keywords.value else ds.keywords.value[..MaxKeywords];
    }
    var j := 0;
    while j < |shown|
      invariant 0 <= j <= |shown|
      invariant lines == prev + Tagged("K1 ", shown[..j])
    {
      TaggedSnoc("K1 ", shown, j);
      lines := lines + ["K1 " + shown[j]];
      j := j + 1;
    }
    assert shown[..j] == shown;
    lines := lines + ["UL " + Interpolate(ds.url)];
    lines := lines + ["NO Accessed " + today];
    lines := lines + ["ER"];
    r := Join(lines, "\n");
  }

  /**
   * A RefWorks record opens with `RT Dataset`, ends with `ER`, has one `A1`
   * line per creator and one `K1` line per shown keyword: the first fifteen,
   * so at most fifteen.
   */
  lemma RefWorksShape(ds: Dataset, year: string, today: string)
    ensures var ls := RefWorksLines(ds, year, today);
      ls[0] == "RT Dataset" && ls[|ls| - 1] == "ER"
      && CountTagged(ls, "K1 ") == |KeywordsShown(ds)| <= MaxKeywords
      && CountTagged(ls, "A1 ") == |ds.creators|
  {
    RefWorksKeywordCount(ds, year, today);
    RefWorksCreatorCount(ds, year, today);
  }

  lemma RefWorksKeywordCount(ds: Dataset, year: string, today: string)
    ensures CountTagged(RefWorksLines(ds, year, today), "K1 ") == |KeywordsShown(ds)|
  {
    var tag := "K1 ";
    var l0 := ["RT Dataset"] + ["SR Electronic"];
    CountTaggedKeeps([], l0, tag, 0);
    assert [] + l0 == l0;
    var l1 := l0 + Tagged("A1 ", ds.creators);
    CountTaggedKeeps(l0, Tagged("A1 ", ds.creators), tag, 0);
    var l2 := l1 + ["T1 " + ds.title];
    LineKeeps(l1, "T1 ", ds.title, tag, 0);
    var l3 := l2 + Opt(year != NoDate, "YR " + year);
    OptKeeps(l2, year != NoDate, "YR ", year, tag, 0);
    var l4 := l3 + Tagged(tag, KeywordsShown(ds));
    CountTaggedAdds(l3, tag, KeywordsShown(ds));
    var l5 := l4 + ["UL " + Interpolate(ds.url)];
    LineKeeps(l4, "UL ", Interpolate(ds.url), tag, 0);
    var l6 := l5 + ["NO Accessed " + today];
    LineKeeps(l5, "NO Accessed ", today, tag, 0);
    LiteralKeeps(l6, "ER", tag, 0);
  }

  lemma RefWorksCreatorCount(ds: Dataset, year: string, today: string)
    ensures CountTagged(RefWorksLines(ds, year, today), "A1 ") == |ds.creators|
  {
    var tag := "A1 ";
    var l0 := ["RT Dataset"] + ["SR Electronic"];
    CountTaggedKeeps([], l0, tag, 0);
    assert [] + l0 == l0;
    var l1 := l0 + Tagged(tag, ds.creators);
    CountTaggedAdds(l0, tag, ds.creators);
    var l2 := l1 + ["T1 " + ds.title];
    LineKeeps(l1, "T1 ", ds.title, tag, 0);
    var l3 := l2 + Opt(year != NoDate, "YR " + year);
    OptKeeps(l2, year != NoDate, "YR ", year, tag, 0);
    var l4 := l3 + Tagged("K1 ", KeywordsShown(ds));
    CountTaggedKeeps(l3, Tagged("K1 ", KeywordsShown(ds)), tag, 0);
    var l5 := l4 + ["UL " + Interpolate(ds.url)];
    LineKeeps(l4, "UL ", Interpolate(ds.url), tag, 0);
    var l6 := l5 + ["NO Accessed " + today];
    LineKeeps(l5, "NO Accessed ", today, tag, 0);
    LiteralKeeps(l6, "ER", tag, 0);
  }
}
