/** The per-cell extractors of the docket spider (`extract_docket_id`, `extract_filer`,
    `extract_description`, `extract_filing_date`, `extract_links`). */
module Extractors {
  import opened Wrappers
  import opened Text
  import opened Regex

  /** A `td` cell of the docket table: its content once `remove_tags` has removed the
      markup, and the first `href` attribute of an anchor inside it, if any. */
  datatype Cell = Cell(text: string, href: Option<string>)

  /** `DocketSpider.base_url`, against which document links are resolved. */
  const BaseUrl: string := "http://www.ripuc.ri.gov/eventsactions/"

  /** The exceptions `extract_filing_date` can raise. */
  datatype DateError =
    | UnknownMonth(name: string)  // KeyError: the word after "filed" is not a full month name
    | MissingDateField            // IndexError: the matched text splits into fewer than four words

  // ---------------------------------------------------------------------------
  // Identifier, filer and description

  /** `extract_docket_id`: the stripped text when it is a non-empty run of digits. */
  function ExtractDocketId(c: Cell): (r: Option<string>)
    ensures r.Some? <==> IsNumeric(Strip(c.text))
    ensures r.Some? ==> r.value == Strip(c.text) && IsNumeric(r.value)
  {
    var id := Strip(c.text);
    if IsNumeric(id) then Some(id) else None
  }

  /** `extract_filer`: absent only for an empty cell; the emptiness test comes before the
      strip, so a cell holding only whitespace yields the empty filer. */
  function ExtractFiler(c: Cell): (r: Option<string>)
    ensures r.None? <==> c.text == []
    ensures r.Some? ==> r.value == Strip(c.text)
  {
    if c.text != [] then Some(Strip(c.text)) else None
  }

  /** `extract_description`: stripped text with runs of spaces collapsed; absent when the
      cell holds only whitespace. */
  function ExtractDescription(c: Cell): (r: Option<string>)
    ensures r.None? <==> forall k :: 0 <= k < |c.text| ==> IsSpace(c.text[k])
    ensures r.Some? ==> r.value != [] && !IsSpace(r.value[0]) && !IsSpace(r.value[|r.value| - 1])
    ensures r.Some? ==> NoDoubleSpace(r.value)
    ensures r.Some? ==> WithoutBlanks(r.value) == WithoutBlanks(Strip(c.text))
  {
    var d := CollapseSpaces(Strip(c.text));
    CollapseShape(Strip(c.text));
    CollapseKeepsText(Strip(c.text));
    if d != [] then Some(d) else None
  }

  /** A run of spaces inside a description becomes exactly one space: two space-free-ended
      pieces separated by spaces read back joined by a single space. */
  lemma DescriptionCollapsesGap(a: string, gap: string, b: string, href: Option<string>)
    requires a != [] && !IsSpace(a[0]) && a[|a| - 1] != ' ' && NoDoubleSpace(a)
    requires b != [] && b[0] != ' ' && !IsSpace(b[|b| - 1]) && NoDoubleSpace(b)
    requires gap != [] && forall k :: 0 <= k < |gap| ==> gap[k] == ' '
    ensures ExtractDescription(Cell(a + (gap + b), href)) == Some(a + (" " + b))
  {
    var s := a + (gap + b);
    StripBare(s);
    CollapseGap(a, gap, b);
    CollapseIdentity(a);
    CollapseIdentity(b);
  }

  /** A text with no whitespace at either end is its own strip. */
  lemma StripBare(s: string)
    requires s != [] && !IsSpace(s[0]) && !IsSpace(s[|s| - 1])
    ensures Strip(s) == s
  {
    StripPadded([], s, []);
    assert [] + s + [] == s;
  }

  /** Surrounding whitespace does not change an identifier: digits padded with whitespace
      on both sides are read back as exactly those digits. */
  lemma DocketIdOfPaddedDigits(before: string, digits: string, after: string, href: Option<string>)
    requires forall k :: 0 <= k < |before| ==> IsSpace(before[k])
    requires forall k :: 0 <= k < |after| ==> IsSpace(after[k])
    requires IsNumeric(digits)
    ensures ExtractDocketId(Cell(before + digits + after, href)) == Some(digits)
  {
    StripPadded(before, digits, after);
  }

  /** A cell of whitespace only has an empty filer, not an absent one. */
  lemma FilerOfBlankCell(c: Cell)
    requires c.text != [] && forall k :: 0 <= k < |c.text| ==> IsSpace(c.text[k])
    ensures ExtractFiler(c) == Some([])
    ensures ExtractDescription(c) == None
  {
  }

  lemma StripPadded(before: string, core: string, after: string)
    requires forall k :: 0 <= k < |before| ==> IsSpace(before[k])
    requires forall k :: 0 <= k < |after| ==> IsSpace(after[k])
    requires core != [] && !IsSpace(core[0]) && !IsSpace(core[|core| - 1])
    ensures Strip(before + core + after) == core
  {
    var s := before + core + after;
    assert s[|before|] == core[0];
    assert s[|before| + |core| - 1] == core[|core| - 1];
    assert s[|before|..|before| + |core|] == core;
  }

  // ---------------------------------------------------------------------------
  // Links

  /** `^.*(.pdf)$`: `re.match` anchors at the start, so the leading `^` adds nothing. */
  const PdfLinkPattern: Pattern :=
    [Repeat(AnyButNewline, 0, None), Repeat(AnyButNewline, 1, Some(1)), Alternatives(["pdf"]), EndOfText]

  /** `^.*.(.html)$`. */
  const HtmlLinkPattern: Pattern :=
    [Repeat(AnyButNewline, 0, None), Repeat(AnyButNewline, 1, Some(1)),
     Repeat(AnyButNewline, 1, Some(1)), Alternatives(["html"]), EndOfText]

  /** The link without the one final newline that `$` allows before the end. */
  function Body(link: string): (b: string)
    ensures |b| <= |link| && b == link[..|b|]
    ensures |link| - |b| <= 1 && (|b| < |link| ==> link[|b|] == '\n')
  {
    if |link| > 0 && link[|link| - 1] == '\n' then link[..|link| - 1] else link
  }

  /** What the link patterns accept, stated without the engine: apart from one optional
      final newline, the link has no newline, ends with `ext`, and has at least `lead`
      characters before it (the unescaped dots of the patterns match any character). The
      comparison is case-sensitive. */
  predicate EndsWithDocSuffix(link: string, ext: string, lead: nat) {
    var body := Body(link);
    (forall k :: 0 <= k < |body| ==> body[k] != '\n')
    && |body| >= lead + |ext| && body[|body| - |ext|..] == ext
  }

  /** A newline-free run of `m >= lead` characters, then `ext`, then the end: the shape of
      a link both patterns accept. */
  lemma DocSuffixFromParts(link: string, m: nat, ext: string, lead: nat)
    requires Run(link, 0, m, AnyButNewline) && LiteralAt(ext, link, m) && AtEnd(link, m + |ext|)
    requires '\n' !in ext && m >= lead
    ensures EndsWithDocSuffix(link, ext, lead)
  {
    NoNewlineBefore(link, m, ext);
    var body := Body(link);
    assert |body| == m + |ext|;
    assert body[|body| - |ext|..] == link[m..m + |ext|];
  }

  /** Conversely, a link with the suffix splits into that shape. */
  lemma DocSuffixParts(link: string, ext: string, lead: nat)
    requires EndsWithDocSuffix(link, ext, lead)
    ensures var m := |Body(link)| - |ext|;
      m >= lead && Run(link, 0, m, AnyButNewline) && LiteralAt(ext, link, m) && AtEnd(link, m + |ext|)
  {
    var body := Body(link);
    var m := |body| - |ext|;
    assert link[m..m + |ext|] == body[|body| - |ext|..];
    forall k | 0 <= k < m ensures link[k] != '\n' {
      assert link[k] == body[k];
    }
  }

  /** Two newline-free runs side by side make one. */
  lemma RunJoin(s: string, i: nat, m: nat, n: nat)
    requires Run(s, i, m, AnyButNewline) && Run(s, i + m, n, AnyButNewline)
    ensures Run(s, i, m + n, AnyButNewline)
  {
  }

  lemma PdfLinkMatches(link: string)
    ensures MatchAt(PdfLinkPattern, link, 0).Some? <==> EndsWithDocSuffix(link, "pdf", 1)
  {
    if MatchAt(PdfLinkPattern, link, 0).Some? {
      PdfLinkSound(link, MatchAt(PdfLinkPattern, link, 0).value);
    }
    if EndsWithDocSuffix(link, "pdf", 1) {
      PdfLinkComplete(link);
    }
  }

  lemma PdfLinkSound(link: string, t: seq<nat>)
    requires Fits(PdfLinkPattern, link, 0, t)
    ensures EndsWithDocSuffix(link, "pdf", 1)
  {
    var p0 := PdfLinkPattern;
    var n := t[0];
    FitsHead(p0, link, 0, t);
    var p1, t1 := p0[1..], t[1..];
    FitsHead(p1, link, n, t1);
    var p2, t2 := p1[1..], t1[1..];
    FitsHead(p2, link, n + 1, t2);
    FitsHead(p2[1..], link, n + 4, t2[1..]);
    RunJoin(link, 0, n, 1);
    DocSuffixFromParts(link, n + 1, "pdf", 1);
  }

  lemma PdfLinkComplete(link: string)
    requires EndsWithDocSuffix(link, "pdf", 1)
    ensures MatchAt(PdfLinkPattern, link, 0).Some?
  {
    var p0 := PdfLinkPattern;
    var p1 := p0[1..];
    var p2 := p1[1..];
    var p3 := p2[1..];
    DocSuffixParts(link, "pdf", 1);
    var n := |Body(link)| - 4;
    FitsCons(p3, link, n + 4, 0, []);
    FitsCons(p2, link, n + 1, 0, [0]);
    FitsCons(p1, link, n, 1, [0, 0]);
    FitsCons(p0, link, 0, n, [1, 0, 0]);
    MatchAtBest(p0, link, 0, [n, 1, 0, 0]);
  }

  lemma HtmlLinkMatches(link: string)
    ensures MatchAt(HtmlLinkPattern, link, 0).Some? <==> EndsWithDocSuffix(link, "html", 2)
  {
    if MatchAt(HtmlLinkPattern, link, 0).Some? {
      HtmlLinkSound(link, MatchAt(HtmlLinkPattern, link, 0).value);
    }
    if EndsWithDocSuffix(link, "html", 2) {
      HtmlLinkComplete(link);
    }
  }

  lemma HtmlLinkSound(link: string, t: seq<nat>)
    requires Fits(HtmlLinkPattern, link, 0, t)
    ensures EndsWithDocSuffix(link, "html", 2)
  {
    HtmlLinkParts(link, t);
    DocSuffixFromParts(link, t[0] + 2, "html", 2);
  }

  /** The items of a match of the html pattern, read one by one. */
  lemma HtmlLinkParts(link: string, t: seq<nat>)
    requires Fits(HtmlLinkPattern, link, 0, t)
    ensures Run(link, 0, t[0] + 2, AnyButNewline) && LiteralAt("html", link, t[0] + 2)
    ensures AtEnd(link, t[0] + 6)
  {
    var p0 := HtmlLinkPattern;
    var n := t[0];
    FitsHead(p0, link, 0, t);
    var p1, t1 := p0[1..], t[1..];
    FitsHead(p1, link, n, t1);
    var p2, t2 := p1[1..], t1[1..];
    FitsHead(p2, link, n + 1, t2);
    var p3, t3 := p2[1..], t2[1..];
    FitsHead(p3, link, n + 2, t3);
    FitsHead(p3[1..], link, n + 6, t3[1..]);
    RunJoin(link, 0, n, 1);
    RunJoin(link, 0, n + 1, 1);
  }

  lemma HtmlLinkComplete(link: string)
    requires EndsWithDocSuffix(link, "html", 2)
    ensures MatchAt(HtmlLinkPattern, link, 0).Some?
  {
    var p0 := HtmlLinkPattern;
    var p1 := p0[1..];
    var p2 := p1[1..];
    var p3 := p2[1..];
    var p4 := p3[1..];
    DocSuffixParts(link, "html", 2);
    var n := |Body(link)| - 6;
    FitsCons(p4, link, n + 6, 0, []);
    FitsCons(p3, link, n + 2, 0, [0]);
    FitsCons(p2, link, n + 1, 1, [0, 0]);
    FitsCons(p1, link, n, 1, [1, 0, 0]);
    FitsCons(p0, link, 0, n, [1, 1, 0, 0]);
    MatchAtBest(p0, link, 0, [n, 1, 1, 0, 0]);
  }

  /** A literal without newline that follows a newline-free run leaves no newline before
      its end. */
  lemma NoNewlineBefore(s: string, i: nat, w: string)
    requires Run(s, 0, i, AnyButNewline) && LiteralAt(w, s, i) && '\n' !in w
    ensures forall k :: 0 <= k < i + |w| ==> s[k] != '\n'
  {
    forall k | i <= k < i + |w| ensures s[k] != '\n' {
      assert s[k] == s[i..i + |w|][k - i];
    }
  }

  /** `extract_links`: the first anchor's `href`, resolved against `BaseUrl` by `join`
      (`urllib.parse.urljoin`), when it names a `pdf` or `html` document. */
  function ExtractLinks(c: Cell, join: (string, string) -> string): (r: Option<string>)
    ensures r.Some? <==> c.href.Some? && c.href.value != []
                         && (EndsWithDocSuffix(c.href.value, "pdf", 1) || EndsWithDocSuffix(c.href.value, "html", 2))
    ensures r.Some? ==> r.value == join(BaseUrl, c.href.value)
  {
    match c.href
    case None => None
    case Some(link) =>
      PdfLinkMatches(link);
      HtmlLinkMatches(link);
      if link == [] then None
      else if MatchAt(PdfLinkPattern, link, 0).Some? then Some(join(BaseUrl, link))
      else if MatchAt(HtmlLinkPattern, link, 0).Some? then Some(join(BaseUrl, link))
      else None
  }

  // ---------------------------------------------------------------------------
  // Filing date

  /** `[0-9]{1,2}/{1,2}[0-9|X]{1,2}/{0,2}[0-9]{2,4}`. */
  const NumericDatePattern: Pattern :=
    [Repeat(Digit, 1, Some(2)), Repeat(Slash, 1, Some(2)), Repeat(DigitBarOrX, 1, Some(2)),
     Repeat(Slash, 0, Some(2)), Repeat(Digit, 2, Some(4))]

  /** The alternation `Jan(?:uary)?|Feb(?:ruary)?|...|(Nov|Dec)(?:ember)?`, flattened in
      the order the engine tries it: the optional suffix is greedy, so the full name of
      each month is tried before its abbreviation. */
  const MonthWords: seq<string> :=
    ["January", "Jan", "February", "Feb", "March", "Mar", "April", "Apr", "May",
     "June", "Jun", "July", "Jul", "August", "Aug", "September", "Sep",
     "October", "Oct", "November", "Nov", "December", "Dec"]

  /** `(filed )(?:<months>) ?([0-9]{1,2}),? *([0-9]{2,4})`. */
  const MonthDatePattern: Pattern :=
    [Alternatives(["filed "]), Alternatives(MonthWords), Repeat(Blank, 0, Some(1)),
     Repeat(Digit, 1, Some(2)), Repeat(Comma, 0, Some(1)), Repeat(Blank, 0, None),
     Repeat(Digit, 2, Some(4))]

  /** The `months` lookup table: full names only. */
  const MonthNumbers: map<string, nat> :=
    map["January" := 1, "February" := 2, "March" := 3, "April" := 4, "May" := 5, "June" := 6,
        "July" := 7, "August" := 8, "September" := 9, "October" := 10, "November" := 11,
        "December" := 12]

  /** The month number as the f-string prints it: its decimal digits. */
  function MonthDigits(w: string): string
    requires w in MonthNumbers
  {
    DecimalString(MonthNumbers[w])
  }

  /** The digits printed for a month denote its number in the table. */
  lemma MonthDigitsDenote(w: string)
    requires w in MonthNumbers
    ensures DigitsValue(MonthDigits(w)) == MonthNumbers[w]
  {
    DecimalValue(MonthNumbers[w]);
  }

  /** The month branch after the match: split the matched text on whitespace, look the
      second word up in `MonthNumbers`, drop the commas of the third, and join
      `month/day/year`. A missing key or a missing word raises. */
  function FormatMonthDate(m: string): (r: Result<Option<string>, DateError>)
    ensures r != Success(None)
    ensures r.Failure? <==> |Split(m)| < 4 || Split(m)[1] !in MonthNumbers
    ensures |Split(m)| >= 2 && Split(m)[1] !in MonthNumbers ==> r == Failure(UnknownMonth(Split(m)[1]))
    ensures |Split(m)| < 2 ==> r == Failure(MissingDateField)
    ensures |Split(m)| >= 2 && Split(m)[1] in MonthNumbers && |Split(m)| < 4 ==> r == Failure(MissingDateField)
  {
    var words := Split(m);
    if |words| < 2 then Failure(MissingDateField)
    else if words[1] !in MonthNumbers then Failure(UnknownMonth(words[1]))
    else if |words| < 4 then Failure(MissingDateField)
    else Success(Some(MonthDigits(words[1]) + "/" + RemoveCommas(words[2]) + "/" + words[3]))
  }

  /** The body of `extract_filing_date` once the description is known: the first numeric
      date if there is one, otherwise the first "filed <month> <day>, <year>" reformatted. */
  function FilingDate(d: string): (r: Result<Option<string>, DateError>)
    ensures Search(NumericDatePattern, d, 0).Some? ==> r.Success? && r.value.Some?
    ensures r == Success(None) <==> Search(NumericDatePattern, d, 0).None? && Search(MonthDatePattern, d, 0).None?
  {
    if Search(NumericDatePattern, d, 0).Some? then Success(Some(Matched(NumericDatePattern, d, 0)))
    else if Search(MonthDatePattern, d, 0).Some? then FormatMonthDate(Matched(MonthDatePattern, d, 0))
    else Success(None)
  }

  /** `extract_filing_date`: the date is looked for in the normalized description of the
      cell; a cell without description has no date and raises nothing. */
  function ExtractFilingDate(c: Cell): (r: Result<Option<string>, DateError>)
    ensures ExtractDescription(c).None? ==> r == Success(None)
    ensures r.Success? && r.value.Some? ==> ExtractDescription(c).Some?
  {
    match ExtractDescription(c)
    case None => Success(None)
    case Some(d) => FilingDate(d)
  }

  /** A numeric date wins whenever one occurs: the result is the text of the leftmost
      numeric-date match, a slice of the description, and no numeric date starts earlier. */
  lemma NumericDateFirst(d: string, q: nat, t: seq<nat>)
    requires Fits(NumericDatePattern, d, q, t)
    ensures Search(NumericDatePattern, d, 0).Some?
    ensures var (q0, t0) := Search(NumericDatePattern, d, 0).value;
      q0 <= q && Fits(NumericDatePattern, d, q0, t0) && End(NumericDatePattern, q0, t0) <= |d|
      && FilingDate(d) == Success(Some(d[q0..End(NumericDatePattern, q0, t0)]))
      && (forall q1: nat, t1: seq<nat> :: q1 < q0 ==> !Fits(NumericDatePattern, d, q1, t1))
      && (forall t1 :: Fits(NumericDatePattern, d, q0, t1) ==> !Preferred(NumericDatePattern, t1, t0))
  {
    SearchLeftmost(NumericDatePattern, d, 0, q, t);
    var (q0, t0) := Search(NumericDatePattern, d, 0).value;
    forall t1 | Fits(NumericDatePattern, d, q0, t1)
      ensures !Preferred(NumericDatePattern, t1, t0)
    {
      SearchLeftmost(NumericDatePattern, d, 0, q0, t1);
    }
    FitsEnd(NumericDatePattern, d, q0, t0);
    forall q1: nat, t1: seq<nat> | q1 < q0 ensures !Fits(NumericDatePattern, d, q1, t1) {
      if Fits(NumericDatePattern, d, q1, t1) {
        MatchAtBest(NumericDatePattern, d, q1, t1);
      }
    }
  }

  /** There is no date and nothing is raised exactly when neither pattern fits anywhere. */
  lemma NoDate(d: string)
    ensures FilingDate(d) == Success(None) <==>
      !FitsSomewhere(NumericDatePattern, d) && !FitsSomewhere(MonthDatePattern, d)
  {
    SearchFindsFit(NumericDatePattern, d);
    SearchFindsFit(MonthDatePattern, d);
  }

  /** How a month-date match reads: "filed ", a month word, an optional blank, the day,
      an optional comma, blanks, and the year. */
  lemma MonthMatchParts(d: string, q: nat, t: seq<nat>)
    requires Fits(MonthDatePattern, d, q, t)
    ensures |t| == 7 && t[0] == 0 && t[1] < |MonthWords| && t[2] <= 1 && 1 <= t[3] <= 2
    ensures t[4] <= 1 && 2 <= t[6] <= 4
    ensures var p2 := q + 6 + |MonthWords[t[1]]|; var p3 := p2 + t[2]; var p4 := p3 + t[3];
      var p5 := p4 + t[4]; var p6 := p5 + t[5]; var p7 := p6 + t[6];
      p7 == End(MonthDatePattern, q, t) && p7 <= |d|
      && LiteralAt("filed ", d, q) && LiteralAt(MonthWords[t[1]], d, q + 6)
      && Run(d, p2, t[2], Blank) && Run(d, p3, t[3], Digit) && Run(d, p4, t[4], Comma)
      && Run(d, p5, t[5], Blank) && Run(d, p6, t[6], Digit)
  {
    var p := MonthDatePattern;
    var st := Starts(p, q, t);
    FitsAt(p, d, q, t, 0);
    FitsAt(p, d, q, t, 1);
    FitsAt(p, d, q, t, 2);
    FitsAt(p, d, q, t, 3);
    FitsAt(p, d, q, t, 4);
    FitsAt(p, d, q, t, 5);
    FitsAt(p, d, q, t, 6);
  }

  lemma SliceSplit(s: string, i: nat, j: nat, k: nat)
    requires i <= j <= k <= |s|
    ensures s[i..k] == s[i..j] + s[j..k]
  {
  }

  lemma SevenSlices(s: string, i0: nat, i1: nat, i2: nat, i3: nat, i4: nat, i5: nat, i6: nat, i7: nat)
    requires i0 <= i1 <= i2 <= i3 <= i4 <= i5 <= i6 <= i7 <= |s|
    ensures s[i0..i7] == s[i0..i1] + (s[i1..i2] + (s[i2..i3] + (s[i3..i4] + (s[i4..i5] + (s[i5..i6] + s[i6..i7])))))
  {
    SliceSplit(s, i5, i6, i7);
    SliceSplit(s, i4, i5, i7);
    SliceSplit(s, i3, i4, i7);
    SliceSplit(s, i2, i3, i7);
    SliceSplit(s, i1, i2, i7);
    SliceSplit(s, i0, i1, i7);
  }

  lemma DigitRun(d: string, i: nat, n: nat)
    requires Run(d, i, n, Digit) && n >= 1
    ensures IsNumeric(d[i..i + n])
  {
  }

  lemma CommaRun(d: string, i: nat, n: nat)
    requires Run(d, i, n, Comma) && n <= 1
    ensures d[i..i + n] == [] || d[i..i + n] == [',']
  {
  }

  /** The month branch is the one taken when no numeric date occurs, and it works on the
      text of the leftmost month-date match. */
  lemma MonthBranchTaken(d: string, q: nat, t: seq<nat>)
    requires forall q1, t1 :: !Fits(NumericDatePattern, d, q1, t1)
    requires Search(MonthDatePattern, d, 0) == Some((q, t))
    ensures Fits(MonthDatePattern, d, q, t) && q <= End(MonthDatePattern, q, t) <= |d|
    ensures FilingDate(d) == FormatMonthDate(d[q..End(MonthDatePattern, q, t)])
  {
    SearchFits(NumericDatePattern, d, 0);
    SearchFits(MonthDatePattern, d, 0);
    FitsEnd(MonthDatePattern, d, q, t);
  }

  /** Where the pieces of a month-date match lie: the month word, then the day in
      `[day, comma)`, the optional comma in `[comma, gap)`, the blanks before the year in
      `[gap, year)` and the year in `[year, end)`. */
  datatype MonthSpans = MonthSpans(word: string, day: nat, comma: nat, gap: nat, year: nat, end: nat)

  function SpansOf(q: nat, t: seq<nat>): (sp: MonthSpans)
    requires |t| == 7 && t[1] < |MonthWords|
    ensures sp.word == MonthWords[t[1]] && q + 6 + |sp.word| <= sp.day
    ensures sp.day <= sp.comma <= sp.gap <= sp.year <= sp.end
  {
    var w := MonthWords[t[1]];
    var day := q + 6 + |w| + t[2];
    MonthSpans(w, day, day + t[3], day + t[3] + t[4], day + t[3] + t[4] + t[5],
               day + t[3] + t[4] + t[5] + t[6])
  }

  /** Where such a match ends. */
  lemma MonthEnd(d: string, q: nat, t: seq<nat>, sp: MonthSpans)
    requires Fits(MonthDatePattern, d, q, t) && |t| == 7 && t[1] < |MonthWords| && sp == SpansOf(q, t)
    ensures End(MonthDatePattern, q, t) == sp.end <= |d|
  {
    MonthMatchParts(d, q, t);
  }

  /** The pieces of a month-date match with a blank after the month word and at least
      one blank before the year: the day is digits, the comma optional, the gap blanks
      and the year digits. */
  lemma MonthFields(d: string, q: nat, t: seq<nat>, sp: MonthSpans)
    requires Fits(MonthDatePattern, d, q, t) && |t| == 7 && t[1] < |MonthWords| && t[2] == 1 && t[5] >= 1
    requires sp == SpansOf(q, t)
    ensures sp.end <= |d|
    ensures IsNumeric(d[sp.day..sp.comma]) && (d[sp.comma..sp.gap] == [] || d[sp.comma..sp.gap] == [','])
    ensures sp.gap < sp.year && (forall k :: sp.gap <= k < sp.year ==> d[k] == ' ')
    ensures IsNumeric(d[sp.year..sp.end])
  {
    MonthMatchParts(d, q, t);
    DigitRun(d, sp.day, t[3]);
    CommaRun(d, sp.comma, t[4]);
    DigitRun(d, sp.year, t[6]);
  }

  /** Where the literal parts of such a match lie. */
  lemma MonthLayout(d: string, q: nat, t: seq<nat>, sp: MonthSpans)
    requires Fits(MonthDatePattern, d, q, t) && |t| == 7 && t[1] < |MonthWords| && t[2] == 1
    requires sp == SpansOf(q, t)
    ensures sp.end <= |d| && sp.day == q + 6 + |sp.word| + 1
    ensures LiteralAt("filed ", d, q) && LiteralAt(sp.word, d, q + 6) && d[sp.day - 1] == ' '
  {
    MonthMatchParts(d, q, t);
  }

  /** The same match, as text: "filed ", the month word, a blank, then the day, the
      optional comma, the gap and the year. */
  lemma MonthText(d: string, q: nat, t: seq<nat>, sp: MonthSpans)
    requires Fits(MonthDatePattern, d, q, t) && |t| == 7 && t[1] < |MonthWords| && t[2] == 1
    requires sp == SpansOf(q, t)
    ensures sp.end <= |d|
    ensures d[q..sp.end] == "filed " + (sp.word + (" " + (d[sp.day..sp.comma]
      + (d[sp.comma..sp.gap] + (d[sp.gap..sp.year] + d[sp.year..sp.end])))))
  {
    MonthLayout(d, q, t, sp);
    AssembleMonthText(d, q, sp.word, sp.day, sp.comma, sp.gap, sp.year, sp.end);
  }

  lemma AssembleMonthText(d: string, q: nat, w: string, a: nat, b: nat, g: nat, c: nat, e: nat)
    requires q + 6 + |w| + 1 == a && a <= b <= g <= c <= e <= |d|
    requires LiteralAt("filed ", d, q) && LiteralAt(w, d, q + 6) && d[a - 1] == ' '
    ensures d[q..e] == "filed " + (w + (" " + (d[a..b] + (d[b..g] + (d[g..c] + d[c..e])))))
  {
    SevenSlices(d, q, q + 6, a - 1, a, b, g, c, e);
    assert d[a - 1..a] == " ";
  }

  lemma MonthWordsAreWords()
    ensures forall k :: 0 <= k < |MonthWords| ==> MonthWords[k] != [] && NoSpace(MonthWords[k])
  {
  }

  lemma FullNamesAreWords(w: string)
    requires w in MonthNumbers
    ensures w != [] && NoSpace(w) && 1 <= MonthNumbers[w] <= 12
  {
  }

  lemma FiledPrefix(rest: string)
    ensures Split("filed " + rest) == ["filed"] + Split(rest)
  {
    assert "filed " + rest == "filed" + (" " + rest);
    SplitWord("filed", " ", rest);
  }

  lemma FourWords(a: string, b: string, c: string, e: string,
                  s0: seq<string>, s1: seq<string>, s2: seq<string>, s3: seq<string>)
    requires s0 == [a] + s1 && s1 == [b] + s2 && s2 == [c] + s3 && s3 == [e]
    ensures s0 == [a, b, c, e]
  {
  }

  /** The matched text of a month date splits into exactly four words. */
  lemma SplitMonthDate(w: string, dc: string, gap: string, year: string)
    requires w != [] && NoSpace(w) && dc != [] && NoSpace(dc) && year != [] && NoSpace(year)
    requires gap != [] && forall k :: 0 <= k < |gap| ==> IsSpace(gap[k])
    ensures Split("filed " + (w + (" " + (dc + (gap + year))))) == ["filed", w, dc, year]
  {
    var tail := dc + (gap + year);
    FiledPrefix(w + (" " + tail));
    SplitWord(w, " ", tail);
    SplitWord(dc, gap, year);
    SplitSingle(year);
    FourWords("filed", w, dc, year,
              Split("filed " + (w + (" " + tail))), Split(w + (" " + tail)), Split(tail), Split(year));
  }

  lemma FormatFourWords(m: string, w: string, dc: string, year: string)
    requires Split(m) == ["filed", w, dc, year] && w in MonthNumbers
    ensures FormatMonthDate(m)
         == Success(Some(MonthDigits(w) + "/" + RemoveCommas(dc) + "/" + year))
  {
  }

  lemma DayIsWord(day: string, comma: string)
    requires IsNumeric(day) && (comma == [] || comma == [','])
    ensures day + comma != [] && NoSpace(day + comma)
  {
    var dc := day + comma;
    forall k | 0 <= k < |dc| ensures !IsSpace(dc[k]) {
      if k < |day| { assert dc[k] == day[k]; } else { assert dc[k] == ','; }
    }
  }

  lemma {:induction false} RemoveTrailingComma(day: string, comma: string)
    requires IsNumeric(day) && (comma == [] || comma == [','])
    ensures RemoveCommas(day + comma) == day
    decreases |day|
  {
    if |day| == 1 {
      assert day + comma == [day[0]] + comma;
    } else {
      assert (day + comma)[1..] == day[1..] + comma;
      RemoveTrailingComma(day[1..], comma);
      assert day == [day[0]] + day[1..];
    }
  }

  /** A full month name followed by a blank, the day, an optional comma, at least one
      blank and the year is reformatted as `<1..12>/<day>/<year>`. */
  lemma FormatFullMonth(w: string, day: string, comma: string, gap: string, year: string)
    requires w in MonthNumbers
    requires IsNumeric(day) && (comma == [] || comma == [',']) && IsNumeric(year)
    requires gap != [] && forall k :: 0 <= k < |gap| ==> gap[k] == ' '
    ensures 1 <= MonthNumbers[w] <= 12
    ensures FormatMonthDate("filed " + (w + (" " + (day + (comma + (gap + year))))))
         == Success(Some(MonthDigits(w) + "/" + day + "/" + year))
  {
    FullNamesAreWords(w);
    DayIsWord(day, comma);
    DigitsAreWord(year);
    BlanksAreSpace(gap);
    assert day + (comma + (gap + year)) == (day + comma) + (gap + year);
    SplitMonthDate(w, day + comma, gap, year);
    FormatFourWords("filed " + (w + (" " + ((day + comma) + (gap + year)))), w, day + comma, year);
    RemoveTrailingComma(day, comma);
  }

  /** An abbreviated month name passes the pattern but is not a key of the lookup table,
      so the extraction raises instead of producing a date. */
  lemma AbbreviatedMonthRaises(w: string, rest: string)
    requires w in MonthWords && w !in MonthNumbers
    ensures FormatMonthDate("filed " + (w + (" " + rest))) == Failure(UnknownMonth(w))
  {
    MonthWordsAreWords();
    FiledPrefix(w + (" " + rest));
    SplitWord(w, " ", rest);
  }

  /** `FormatFullMonth` read on slices of the description. */
  lemma FormatSlices(d: string, q: nat, w: string, a: nat, b: nat, g: nat, c: nat, e: nat)
    requires q <= a <= b <= g <= c <= e <= |d| && w in MonthNumbers
    requires d[q..e] == "filed " + (w + (" " + (d[a..b] + (d[b..g] + (d[g..c] + d[c..e])))))
    requires IsNumeric(d[a..b]) && (d[b..g] == [] || d[b..g] == [',']) && IsNumeric(d[c..e])
    requires g < c && forall k :: g <= k < c ==> d[k] == ' '
    ensures FormatMonthDate(d[q..e]) == Success(Some(MonthDigits(w) + "/" + d[a..b] + "/" + d[c..e]))
  {
    var gap := d[g..c];
    assert forall k :: 0 <= k < |gap| ==> gap[k] == d[g + k];
    FormatFullMonth(w, d[a..b], d[b..g], gap, d[c..e]);
  }

  /** The text of a month-date match with a full month name, a blank after it and a
      blank before the year is reformatted from its pieces. */
  lemma FullMonthMatch(d: string, q: nat, t: seq<nat>, sp: MonthSpans)
    requires Fits(MonthDatePattern, d, q, t) && |t| == 7 && t[1] < |MonthWords| && t[2] == 1 && t[5] >= 1
    requires sp == SpansOf(q, t) && sp.word in MonthNumbers
    ensures sp.end <= |d|
    ensures FormatMonthDate(d[q..sp.end])
         == Success(Some(MonthDigits(sp.word) + "/" + d[sp.day..sp.comma] + "/" + d[sp.year..sp.end]))
  {
    MonthFields(d, q, t, sp);
    MonthText(d, q, t, sp);
    FormatSlices(d, q, sp.word, sp.day, sp.comma, sp.gap, sp.year, sp.end);
  }

  /** The same match with an abbreviated month name raises. */
  lemma AbbreviatedMonthMatch(d: string, q: nat, t: seq<nat>, sp: MonthSpans)
    requires Fits(MonthDatePattern, d, q, t) && |t| == 7 && t[1] < |MonthWords| && t[2] == 1
    requires sp == SpansOf(q, t) && sp.word !in MonthNumbers
    ensures sp.end <= |d|
    ensures FormatMonthDate(d[q..sp.end]) == Failure(UnknownMonth(sp.word))
  {
    MonthText(d, q, t, sp);
    AbbreviatedMonthRaises(sp.word, d[sp.day..sp.comma]
      + (d[sp.comma..sp.gap] + (d[sp.gap..sp.year] + d[sp.year..sp.end])));
  }

  /** The month fallback, as the spider runs it: when no numeric date occurs and the
      month-date match found has a full month name, a blank after it and a blank before
      the year, the date is `<1..12>/<day without comma>/<year>`. */
  lemma FullMonthFallback(d: string, q: nat, t: seq<nat>)
    requires forall q1, t1 :: !Fits(NumericDatePattern, d, q1, t1)
    requires Search(MonthDatePattern, d, 0) == Some((q, t))
    requires |t| == 7 && t[1] < |MonthWords| && t[2] == 1 && t[5] >= 1
    requires MonthWords[t[1]] in MonthNumbers
    ensures SpansOf(q, t).end <= |d|
    ensures FilingDate(d) == Success(Some(MonthDigits(MonthWords[t[1]]) + "/"
      + d[SpansOf(q, t).day..SpansOf(q, t).comma] + "/" + d[SpansOf(q, t).year..SpansOf(q, t).end]))
  {
    var sp := SpansOf(q, t);
    MonthBranchTaken(d, q, t);
    MonthEnd(d, q, t, sp);
    FullMonthMatch(d, q, t, sp);
  }

  /** The same fallback with an abbreviated month name raises KeyError. */
  lemma AbbreviatedMonthFallback(d: string, q: nat, t: seq<nat>)
    requires forall q1, t1 :: !Fits(NumericDatePattern, d, q1, t1)
    requires Search(MonthDatePattern, d, 0) == Some((q, t))
    requires |t| == 7 && t[1] < |MonthWords| && t[2] == 1
    requires MonthWords[t[1]] !in MonthNumbers
    ensures FilingDate(d) == Failure(UnknownMonth(MonthWords[t[1]]))
  {
    var sp := SpansOf(q, t);
    MonthBranchTaken(d, q, t);
    MonthEnd(d, q, t, sp);
    AbbreviatedMonthMatch(d, q, t, sp);
  }
}
