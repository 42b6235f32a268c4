/** The data logic of the listing page (src/app/page.js): `parseDate`, the
    newest-first sort of the fetched tools, the subject and rating filters,
    and the "latest additions" slice, with the component's state slots as
    the fields of a class. */
module HomePage {
  import opened Wrappers
  import opened Seqs
  import opened JsStrings
  import opened JsDate
  import opened StableSort
  import opened ToolsRoute

  // ---------------------------------------------------------------------------
  // parseDate

  /** `parseDate(dateStr)`: the empty string is `new Date(0)`; otherwise the
      string is split on `-` and its pieces are read as a date. */
  function ParseDate(dateStr: string): (d: DateValue)
    ensures dateStr == "" ==> d == Epoch
  {
    if dateStr == "" then Epoch else DateOfPieces(Split(dateStr, '-'))
  }

  /** `const [day, month, year] = pieces.map(Number)` followed by
      `new Date(year, month - 1, day)`: the first three pieces are read with
      `Number` as day, month and year. Fewer than three pieces, or a piece
      that is not a number, give an invalid date. */
  function DateOfPieces(pieces: seq<string>): (d: DateValue)
    ensures |pieces| < 3 ==> d == InvalidDate
  {
    if |pieces| < 3 then InvalidDate
    else
      var day, month, year := NumberOf(pieces[0]), NumberOf(pieces[1]), NumberOf(pieces[2]);
      if day.Some? && month.Some? && year.Some? then NewDate(year.value, month.value - 1, day.value)
      else InvalidDate
  }

  /** Pieces that read as numbers give the date of those numbers, month
      counted from 1, whatever pieces follow the third. */
  lemma DateOfNumbers(pieces: seq<string>, day: nat, month: nat, year: nat)
    requires |pieces| >= 3
    requires NumberOf(pieces[0]) == Some(day) && NumberOf(pieces[1]) == Some(month) && NumberOf(pieces[2]) == Some(year)
    ensures DateOfPieces(pieces) == NewDate(year, month - 1, day)
  {
  }

  /** The `dd-mm-yyyy` spelling of a day: two-digit day and month, four-digit year. */
  function FormatDate(day: nat, month: nat, year: nat): string {
    PaddedDecimal(day, 2) + "-" + PaddedDecimal(month, 2) + "-" + PaddedDecimal(year, 4)
  }

  /** A `dd-mm-yyyy` string of a real calendar day parses to that day (month
      `mm` is month index `mm - 1`), whatever follows a further `-`. */
  lemma ParseFormatted(day: nat, month: nat, year: nat, rest: string)
    requires 100 <= year <= 9999 && 1 <= month <= 12 && IsCalendarDate(year, month - 1, day)
    requires rest == "" || rest[0] == '-'
    ensures ParseDate(FormatDate(day, month, year) + rest) == DateAt(MakeDay(year, month - 1, day))
  {
    var dd, mm, yyyy := PaddedDecimal(day, 2), PaddedDecimal(month, 2), PaddedDecimal(year, 4);
    NumberOfPadded(day, 2);
    NumberOfPadded(month, 2);
    NumberOfPadded(year, 4);
    ParseNumbers(dd, mm, yyyy, rest, day, month, year);
    assert FormatDate(day, month, year) + rest == dd + "-" + mm + "-" + yyyy + rest;
  }

  /** Three digit strings joined by `-` parse to the date of their numbers. */
  lemma ParseNumbers(dd: string, mm: string, yyyy: string, rest: string, day: nat, month: nat, year: nat)
    requires AllDigits(dd) && AllDigits(mm) && AllDigits(yyyy)
    requires NumberOf(dd) == Some(day) && NumberOf(mm) == Some(month) && NumberOf(yyyy) == Some(year)
    requires rest == "" || rest[0] == '-'
    ensures ParseDate(dd + "-" + mm + "-" + yyyy + rest) == NewDate(year, month - 1, day)
  {
    NoSeparatorInDigits(dd);
    NoSeparatorInDigits(mm);
    NoSeparatorInDigits(yyyy);
    var s := dd + "-" + mm + "-" + yyyy + rest;
    var pieces := SplitDate(dd, mm, yyyy, rest);
    assert s != "" by {
      assert s[|dd|] == '-';
    }
    DateOfNumbers(pieces, day, month, year);
  }

  /** Three separator-free pieces joined by `-` are the first three pieces of
      the split, whatever follows a further `-`. */
  lemma SplitDate(dd: string, mm: string, yyyy: string, rest: string) returns (pieces: seq<string>)
    requires '-' !in dd && '-' !in mm && '-' !in yyyy
    requires rest == "" || rest[0] == '-'
    ensures pieces == Split(dd + "-" + mm + "-" + yyyy + rest, '-')
    ensures |pieces| >= 3 && pieces[0] == dd && pieces[1] == mm && pieces[2] == yyyy
  {
    var tail := if rest == "" then [] else Split(rest[1..], '-');
    assert Split(yyyy + rest, '-') == [yyyy] + tail by {
      if rest == "" {
        assert yyyy + rest == yyyy;
        SplitWhole(yyyy, '-');
      } else {
        assert yyyy + rest == yyyy + ['-'] + rest[1..];
        SplitAt(yyyy, '-', rest[1..]);
      }
    }
    var later := mm + ['-'] + (yyyy + rest);
    assert Split(later, '-') == [mm, yyyy] + tail by {
      SplitAt(mm, '-', yyyy + rest);
    }
    var whole := dd + "-" + mm + "-" + yyyy + rest;
    assert whole == dd + ['-'] + later by {
      var front := dd + ['-'];
      Associative(front + mm + ['-'], yyyy, rest);
      Associative(front + mm, ['-'], yyyy + rest);
      Associative(front, mm, ['-'] + (yyyy + rest));
      Associative(mm, ['-'], yyyy + rest);
    }
    SplitAt(dd, '-', later);
    pieces := [dd] + ([mm, yyyy] + tail);
    assert pieces == Split(whole, '-');
  }

  lemma NoSeparatorInDigits(s: string)
    requires AllDigits(s)
    ensures '-' !in s
  {
    forall i | 0 <= i < |s|
      ensures s[i] != '-'
    {
      assert IsDigit(s[i]);
    }
  }

  /** `"05-03-2024"` parses to 5 March 2024. */
  lemma ParseDateExample()
    ensures ParseDate("05-03-2024") == DateAt(MakeDay(2024, 2, 5))
  {
    assert FormatDate(5, 3, 2024) == "05-03-2024" by {
      assert Decimal(5) == "5" && Decimal(3) == "3";
      assert Decimal(2024) == "2024" by {
        assert Decimal(2) == "2" && Decimal(20) == "20" && Decimal(202) == "202";
      }
    }
    ParseFormatted(5, 3, 2024, "");
    assert FormatDate(5, 3, 2024) + "" == FormatDate(5, 3, 2024);
  }

  // ---------------------------------------------------------------------------
  // Sorting by date, newest first

  /** The sort compares parsed dates: a record is dated when its date parses. */
  predicate Dated(t: ToolRecord) {
    ParseDate(t.date).DateAt?
  }

  predicate AllDated(s: seq<ToolRecord>) {
    forall i :: 0 <= i < |s| ==> Dated(s[i])
  }

  function DayOf(t: ToolRecord): int
    requires Dated(t)
  {
    ParseDate(t.date).day
  }

  /** The comparator `parseDate(b.date) - parseDate(a.date)` orders records by
      the day number of their date, largest first. Only dated records are
      sorted, so the 0 an undated record would get is never compared. */
  function SortKey(t: ToolRecord): (k: int)
    ensures Dated(t) ==> k == DayOf(t)
    ensures t.date == "" ==> k == Epoch.day
  {
    match ParseDate(t.date)
    case DateAt(d) => d
    case InvalidDate => 0
  }

  /** Non-increasing by parsed date. */
  predicate NewestFirst(s: seq<ToolRecord>) {
    NonIncreasing(s, SortKey)
  }

  /** The records whose date parses to `k`. */
  function DatedAs(k: DateValue): ToolRecord -> bool {
    (t: ToolRecord) => ParseDate(t.date) == k
  }

  /** `tools.sort((a, b) => parseDate(b.date) - parseDate(a.date))` on dated
      records: the same records, newest first, and records with the same date
      in their original order. */
  lemma SortedByDate(s: seq<ToolRecord>, k: int)
    requires AllDated(s)
    ensures multiset(SortDesc(s, SortKey)) == multiset(s)
    ensures AllDated(SortDesc(s, SortKey))
    ensures forall i, j :: 0 <= i < j < |SortDesc(s, SortKey)| ==>
      DayOf(SortDesc(s, SortKey)[i]) >= DayOf(SortDesc(s, SortKey)[j])
    ensures Filter(SortDesc(s, SortKey), DatedAs(DateAt(k))) == Filter(s, DatedAs(DateAt(k)))
  {
    var r := SortDesc(s, SortKey);
    SortDescPermutes(s, SortKey);
    SortKeepsDated(s);
    SortByDay(s);
    SortDescStable(s, SortKey, k);
    FilterAgree(s, KeyIs(SortKey, k), DatedAs(DateAt(k)));
    FilterAgree(r, KeyIs(SortKey, k), DatedAs(DateAt(k)));
  }

  lemma SortKeepsDated(s: seq<ToolRecord>)
    requires AllDated(s)
    ensures AllDated(SortDesc(s, SortKey))
  {
    var r := SortDesc(s, SortKey);
    SortDescPermutes(s, SortKey);
    forall i | 0 <= i < |r|
      ensures Dated(r[i])
    {
      assert r[i] in multiset(s);
    }
  }

  lemma SortByDay(s: seq<ToolRecord>)
    requires AllDated(SortDesc(s, SortKey))
    ensures forall i, j :: 0 <= i < j < |SortDesc(s, SortKey)| ==>
      DayOf(SortDesc(s, SortKey)[i]) >= DayOf(SortDesc(s, SortKey)[j])
  {
    SortDescOrdered(s, SortKey);
  }

  // ---------------------------------------------------------------------------
  // The filters

  /** `tool.subject.split(',').map(s => s.trim())`: one tag per
      comma-separated piece, none with a comma or whitespace at either end;
      a subject without a comma is the single tag of its trim. */
  function SubjectTags(subject: string): (tags: seq<string>)
    ensures |tags| == |Split(subject, ',')|
    ensures forall i :: 0 <= i < |tags| ==> IsTrimmed(tags[i]) && ',' !in tags[i]
    ensures ',' !in subject ==> tags == [Trim(subject)]
  {
    var pieces := Split(subject, ',');
    TrimKeepsOut(pieces, ',');
    SingleTag(subject);
    seq(|pieces|, i requires 0 <= i < |pieces| => Trim(pieces[i]))
  }

  lemma SingleTag(subject: string)
    ensures ',' !in subject ==> Split(subject, ',') == [subject]
  {
    if ',' !in subject {
      SplitWhole(subject, ',');
    }
  }

  /** The subject filter's test, `toolSubjects.includes(subjectFilter)`: the
      wanted value is one of the trimmed comma-separated pieces, compared
      exactly. A value with a comma or with whitespace at either end never
      matches. */
  predicate HasSubject(t: ToolRecord, wanted: string): (b: bool)
    ensures b <==> exists i :: 0 <= i < |Split(t.subject, ',')| && Trim(Split(t.subject, ',')[i]) == wanted
    ensures b ==> IsTrimmed(wanted) && ',' !in wanted
  {
    var pieces, tags := Split(t.subject, ','), SubjectTags(t.subject);
    assert forall i :: 0 <= i < |tags| ==> tags[i] == Trim(pieces[i]);
    wanted in tags
  }

  function SubjectIs(wanted: string): ToolRecord -> bool {
    (t: ToolRecord) => HasSubject(t, wanted)
  }

  /** The rating filter's test, `tool.rating === ratingFilter`. */
  function RatingIs(wanted: string): ToolRecord -> bool {
    (t: ToolRecord) => t.rating == wanted
  }

  /** A record is listed when it passes every active filter; an empty filter
      value is inactive. */
  predicate Shown(t: ToolRecord, subjectFilter: string, ratingFilter: string): (b: bool)
    ensures subjectFilter == "" && ratingFilter == "" ==> b
    ensures b && subjectFilter != "" ==> HasSubject(t, subjectFilter)
    ensures b && ratingFilter != "" ==> t.rating == ratingFilter
    ensures !b ==> (subjectFilter != "" && !HasSubject(t, subjectFilter)) || (ratingFilter != "" && t.rating != ratingFilter)
  {
    && (subjectFilter == "" || HasSubject(t, subjectFilter))
    && (ratingFilter == "" || t.rating == ratingFilter)
  }

  function ShownBy(subjectFilter: string, ratingFilter: string): ToolRecord -> bool {
    (t: ToolRecord) => Shown(t, subjectFilter, ratingFilter)
  }

  /** The listed records: those of `tools` that pass both active filters. */
  function Visible(tools: seq<ToolRecord>, subjectFilter: string, ratingFilter: string): (listed: seq<ToolRecord>)
    ensures |listed| <= |tools|
    ensures forall i :: 0 <= i < |listed| ==> Shown(listed[i], subjectFilter, ratingFilter)
  {
    Filter(tools, ShownBy(subjectFilter, ratingFilter))
  }

  /** The listing is an order-preserving subsequence of the tools holding
      exactly the records that pass both active filters, every copy of a
      record that passes included. */
  lemma VisibleRecords(tools: seq<ToolRecord>, subjectFilter: string, ratingFilter: string)
    ensures IsSubsequence(Visible(tools, subjectFilter, ratingFilter), tools)
    ensures forall t :: t in Visible(tools, subjectFilter, ratingFilter) <==>
      t in tools && Shown(t, subjectFilter, ratingFilter)
    ensures forall t ::
      multiset(Visible(tools, subjectFilter, ratingFilter))[t] ==
        (if Shown(t, subjectFilter, ratingFilter) then multiset(tools)[t] else 0)
  {
    FilterIsSubsequence(tools, ShownBy(subjectFilter, ratingFilter));
    FilterCounts(tools, ShownBy(subjectFilter, ratingFilter));
  }

  /** With both filters empty, every tool is listed. */
  lemma UnfilteredListsAll(tools: seq<ToolRecord>)
    ensures Visible(tools, "", "") == tools
  {
    FilterAllPass(tools, ShownBy("", ""));
  }

  /** A subject cell written as a comma-separated list matches a filter value
      exactly when the value is one of the listed tags, whatever whitespace
      surrounds each tag. */
  lemma SubjectListMatches(pieces: seq<string>, tags: seq<string>, t: ToolRecord, wanted: string)
    requires |pieces| == |tags| >= 1
    requires forall i :: 0 <= i < |pieces| ==> ',' !in pieces[i] && Trim(pieces[i]) == tags[i]
    requires t.subject == Join(pieces, ',')
    ensures SubjectTags(t.subject) == tags
    ensures HasSubject(t, wanted) <==> wanted in tags
  {
    SplitJoin(pieces, ',');
  }

  /** Ratings compare as strings: `"5"` passes `"5"` but not `"05"`, and an
      empty rating filter lets every record through. */
  lemma RatingMatchExample(t: ToolRecord)
    requires t.rating == "5"
    ensures Shown(t, "", "5") && !Shown(t, "", "05") && Shown(t, "", "")
  {
  }

  // ---------------------------------------------------------------------------
  // The component's state

  /** The page component's state slots. The invariant: the tools are dated
      and newest first, and the listing is always the filtered tools. */
  class Home {
    var tools: seq<ToolRecord>
    var subjects: seq<string>
    var filteredTools: seq<ToolRecord>
    var subjectFilter: string
    var ratingFilter: string

    ghost predicate Valid()
      reads this
    {
      && AllDated(tools)
      && NewestFirst(tools)
      && filteredTools == Visible(tools, subjectFilter, ratingFilter)
    }

    /** The initial `useState` values: all lists and both filters empty. */
    constructor ()
      ensures Valid()
      ensures tools == [] && subjects == [] && filteredTools == []
      ensures subjectFilter == "" && ratingFilter == ""
    {
      tools, subjects, filteredTools := [], [], [];
      subjectFilter, ratingFilter := "", "";
    }

    /** The filter effect: start from the tools, apply each active filter in
        turn, and store the result as the listing. */
    method Recompute()
      modifies this`filteredTools
      ensures filteredTools == Visible(tools, subjectFilter, ratingFilter)
    {
      var filtered := tools;
      if subjectFilter != "" {
        filtered := Filter(filtered, SubjectIs(subjectFilter));
      }
      if ratingFilter != "" {
        filtered := Filter(filtered, RatingIs(ratingFilter));
      }
      var shown := ShownBy(subjectFilter, ratingFilter);
      if subjectFilter != "" && ratingFilter != "" {
        FilterFilter(tools, SubjectIs(subjectFilter), RatingIs(ratingFilter));
        FilterAgree(tools, And(SubjectIs(subjectFilter), RatingIs(ratingFilter)), shown);
      } else if subjectFilter != "" {
        FilterAgree(tools, SubjectIs(subjectFilter), shown);
      } else if ratingFilter != "" {
        FilterAgree(tools, RatingIs(ratingFilter), shown);
      } else {
        FilterAllPass(tools, shown);
      }
      filteredTools := filtered;
    }

    /** A successful fetch: the fetched array is sorted in place, stored as
        the tools and as the listing, the subjects are stored as fetched, and
        the filter effect runs again because the tools changed. */
    method Load(fetched: array<ToolRecord>, fetchedSubjects: seq<string>)
      requires AllDated(fetched[..])
      modifies this, fetched
      ensures Valid()
      ensures fetched[..] == SortDesc(old(fetched[..]), SortKey)
      ensures tools == fetched[..] && subjects == fetchedSubjects
      ensures subjectFilter == old(subjectFilter) && ratingFilter == old(ratingFilter)
      ensures subjectFilter == "" && ratingFilter == "" ==> filteredTools == tools
    {
      ghost var input := fetched[..];
      SortDescInPlace(fetched, SortKey);
      assert AllDated(fetched[..]) && NewestFirst(fetched[..]) by {
        SortedByDate(input, 0);
        SortDescOrdered(input, SortKey);
      }
      tools := fetched[..];
      subjects := fetchedSubjects;
      filteredTools := tools;
      Recompute();
      if subjectFilter == "" && ratingFilter == "" {
        UnfilteredListsAll(tools);
      }
    }

    /** Choosing a subject: the filter changes and the effect re-runs. */
    method SetSubjectFilter(value: string)
      requires Valid()
      modifies this
      ensures Valid()
      ensures subjectFilter == value && ratingFilter == old(ratingFilter)
      ensures tools == old(tools) && subjects == old(subjects)
    {
      subjectFilter := value;
      Recompute();
    }

    /** Choosing a rating: the filter changes and the effect re-runs. */
    method SetRatingFilter(value: string)
      requires Valid()
      modifies this
      ensures Valid()
      ensures ratingFilter == value && subjectFilter == old(subjectFilter)
      ensures tools == old(tools) && subjects == old(subjects)
    {
      ratingFilter := value;
      Recompute();
    }

    /** `tools.slice(0, 3)`: the first three tools, or all when there are
        fewer, whatever the filters; in a valid state, none older than a tool
        it leaves out. */
    function LatestTools(): (latest: seq<ToolRecord>)
      reads this
      ensures |latest| == (if |tools| < 3 then |tools| else 3)
      ensures forall i :: 0 <= i < |latest| ==> latest[i] == tools[i]
      ensures Valid() ==> forall i, j :: 0 <= i < |latest| <= j < |tools| ==> DayOf(tools[i]) >= DayOf(tools[j])
    {
      tools[..if |tools| < 3 then |tools| else 3]
    }
  }

  /** Records dated `01-01-2020`, `31-12-2023` and
      `15-06-2022` sort as 2023, 2022, 2020. */
  lemma SortExample(a: ToolRecord, b: ToolRecord, c: ToolRecord)
    requires a.date == FormatDate(1, 1, 2020)
    requires b.date == FormatDate(31, 12, 2023)
    requires c.date == FormatDate(15, 6, 2022)
    ensures SortDesc([a, b, c], SortKey) == [b, c, a]
  {
    ParsesAsFormatted(a.date, 1, 1, 2020);
    ParsesAsFormatted(b.date, 31, 12, 2023);
    ParsesAsFormatted(c.date, 15, 6, 2022);
    CalendarOrder(2020, 0, 1, 2022, 5, 15);
    CalendarOrder(2022, 5, 15, 2023, 11, 31);
    SortThree(a, b, c, SortKey);
  }

  lemma ParsesAsFormatted(date: string, day: nat, month: nat, year: nat)
    requires 100 <= year <= 9999 && 1 <= month <= 12 && IsCalendarDate(year, month - 1, day)
    requires date == FormatDate(day, month, year)
    ensures ParseDate(date) == DateAt(MakeDay(year, month - 1, day))
  {
    ParseFormatted(day, month, year, "");
    assert FormatDate(day, month, year) + "" == date;
  }
}
