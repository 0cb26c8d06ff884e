/** A to-do item and its one-line text form (anyrun-todo/src/todo.rs). A
    parse either returns (an item or nothing) or panics, where the Rust code
    would slice a string with its start past its end. */
module Todos {
  import opened Prelude
  import opened Strings
  import opened Dates

  datatype Todo = Todo(title: string, createdAt: Date, completedAt: Option<Date>)

  const OpenTag := "- ["
  const CloseTag := "] "
  const CreatedTag := " (created at: "
  const CompletedTag := ", completed at: "

  /** The checkbox: `x` for a completed item, a space otherwise. */
  function Checkbox(completed: bool): (r: string)
    ensures |r| == 1 && (r[0] == 'x' <==> completed)
  {
    if completed then "x" else " "
  }

  /** The completed-at field: `None`, or the date. */
  function CompletedText(d: Option<Date>): (r: string)
    ensures r == "None" <==> d.None?
    ensures NoWhitespace(r) && ',' !in r && |r| > 0
  {
    match d
    case None => "None"
    case Some(date) => FormatDateIsPlain(date); FormatDate(date)
  }

  /** `- [s]`: the five characters before the title's leading space. */
  function Head(completed: bool): (r: string)
    ensures |r| == 5 && r[0] == '-' && r[1] == ' ' && r[2] == '[' && r[4] == ']'
    ensures r[3] == 'x' <==> completed
  {
    OpenTag + Checkbox(completed) + "]"
  }

  /** ` T (created at: `: the title between its two marker spaces. */
  function Middle(title: string): string {
    " " + title + CreatedTag
  }

  /** `C, completed at: X`: the timestamps. */
  function Stamps(created: Date, completed: Option<Date>): string {
    FormatDate(created) + CompletedTag + CompletedText(completed)
  }

  /** A line in the formatted shape, `- [s] T (created at: X)`, for any
      timestamps text `X`. */
  function Line(completed: bool, title: string, stamps: string): (r: string)
    ensures |r| > 6 && r[0] == '-' && r[|r| - 1] == ')'
    ensures r[3] == 'x' <==> completed
  {
    Head(completed) + Middle(title) + stamps + ")"
  }

  /** `impl Display for Todo`: `- [s] T (created at: C, completed at: X)`. */
  function ToString(t: Todo): (r: string)
    ensures StartsWith(r, OpenTag) && r[|r| - 1] == ')'
    ensures r[3] == 'x' <==> t.completedAt.Some?
  {
    var r := Line(t.completedAt.Some?, t.title, Stamps(t.createdAt, t.completedAt));
    assert r[..3] == Head(t.completedAt.Some?)[..3] == OpenTag;
    r
  }

  /** The slice of the title runs backwards: the line starts like an item
      and has both markers, but the created-at marker begins before the
      title does. */
  predicate TitleSliceReversed(s: string) {
    StartsWith(s, OpenTag) && Find(s, CloseTag).Some? && Find(s, CreatedTag).Some?
    && Find(s, CloseTag).value + |CloseTag| > Find(s, CreatedTag).value
  }

  /** `Todo::from_str`. */
  function FromStr(line: string): (r: Outcome<Option<Todo>>)
    ensures !StartsWith(Trim(line), OpenTag) ==> r == Returns(None)
    ensures r == Panics <==> TitleSliceReversed(Trim(line))
    ensures r.Returns? && r.value.Some? ==> IsTrimmed(r.value.value.title)
  {
    var s := Trim(line);
    match Locate(s)
    case Panics => Panics
    case Returns(None) => Returns(None)
    case Returns(Some(slices)) => Returns(ParseFields(Trim(slices.0), slices.1))
  }

  /** The marker search of `from_str` on the trimmed line: the title slice,
      between `] ` and the created-at marker, and the timestamps slice,
      between that marker and the last character. */
  function Locate(s: string): (r: Outcome<Option<(string, string)>>)
    requires |s| == 0 || !IsWhitespace(s[|s| - 1])
    ensures !StartsWith(s, OpenTag) ==> r == Returns(None)
    ensures r == Panics <==> TitleSliceReversed(s)
  {
    if !StartsWith(s, OpenTag) then Returns(None)
    else match Find(s, CloseTag)
      case None => Returns(None)
      case Some(b) =>
        match Find(s, CreatedTag)
        case None => Returns(None)
        case Some(p) =>
          if b + |CloseTag| > p then Panics
          else
            TagEndsBeforeLast(s, p);
            Returns(Some((s[b + |CloseTag|..p], s[p + |CreatedTag|..|s| - 1])))
  }

  /** The timestamps part: the created date, then after `, completed at: `
      either `None` or the completed date, each trimmed. An item is read
      exactly when there is a second piece, the created text is a date and
      the completed text is `None` or a date; `None` means not completed. */
  function ParseFields(title: string, times: string): (r: Option<Todo>)
    ensures r.Some? ==> r.value.title == title && Contains(times, CompletedTag)
    ensures var parts := Split(times, CompletedTag);
      r.Some? <==> |parts| >= 2 && ParseDate(Trim(parts[0])).Some?
                   && (Trim(parts[1]) == "None" || ParseDate(Trim(parts[1])).Some?)
    ensures var parts := Split(times, CompletedTag);
      r.Some? ==> Some(r.value.createdAt) == ParseDate(Trim(parts[0]))
                  && (r.value.completedAt.None? <==> Trim(parts[1]) == "None")
                  && (r.value.completedAt.Some? ==> r.value.completedAt == ParseDate(Trim(parts[1])))
  {
    var parts := Split(times, CompletedTag);
    if |parts| < 2 then None
    else
      match ParseDate(Trim(parts[0]))
      case None => None
      case Some(created) =>
        var completed := Trim(parts[1]);
        if completed == "None" then Some(Todo(title, created, None))
        else
          match ParseDate(completed)
          case None => None
          case Some(done) => Some(Todo(title, created, Some(done)))
  }

  /** In a line that ends in a non-space character, the created-at marker
      (which ends in a space) ends before the last character, so the
      timestamps slice never starts past its end. */
  lemma TagEndsBeforeLast(s: string, p: nat)
    requires |s| > 0 && !IsWhitespace(s[|s| - 1])
    requires OccursAt(s, CreatedTag, p)
    ensures p + |CreatedTag| < |s|
  {
    assert s[p..p + |CreatedTag|][|CreatedTag| - 1] == s[p + |CreatedTag| - 1];
  }

  /** What `Locate` finds it found between the markers. */
  lemma LocateFindsMarkers(s: string)
    requires |s| == 0 || !IsWhitespace(s[|s| - 1])
    requires Locate(s).Returns? && Locate(s).value.Some?
    ensures Contains(s, CloseTag) && Contains(s, CreatedTag)
    ensures Contains(Locate(s).value.value.1, CompletedTag) ==> Contains(s, CompletedTag)
  {
    var p := Find(s, CreatedTag).value;
    TagEndsBeforeLast(s, p);
    var times := s[p + |CreatedTag|..|s| - 1];
    assert Locate(s).value.value.1 == times;
    if Contains(times, CompletedTag) {
      var k := Find(times, CompletedTag).value;
      OccursInSlice(s, p + |CreatedTag|, |s| - 1, CompletedTag, k);
      ContainsAt(s, CompletedTag, p + |CreatedTag| + k);
    }
  }

  /** A parsed item was found between the three markers: the line holds
      `] `, ` (created at: ` and `, completed at: `. */
  lemma FromStrNeedsMarkers(line: string)
    requires FromStr(line).Returns? && FromStr(line).value.Some?
    ensures Contains(Trim(line), CloseTag) && Contains(Trim(line), CreatedTag)
    ensures Contains(Trim(line), CompletedTag)
  {
    LocateFindsMarkers(Trim(line));
  }

  /** A formatted item is read back exactly when its title is already
      trimmed and the created-at marker does not start inside it. */
  predicate TitleSurvives(title: string) {
    IsTrimmed(title) && Find(Middle(title), CreatedTag) == Some(|title| + 1)
  }

  /** In a line whose first six characters read `- [c] `, `] ` is first
      found at 4 and the created-at marker does not start before 5. */
  lemma HeaderMarkers(s: string)
    requires |s| >= 6 && s[0] == '-' && s[1] == ' ' && s[2] == '[' && s[4] == ']' && s[5] == ' '
    ensures Find(s, CloseTag) == Some(4)
    ensures forall q :: 0 <= q < 5 ==> !OccursAt(s, CreatedTag, q)
  {
    DiffersAt(s, CloseTag, 0, 0);
    DiffersAt(s, CloseTag, 1, 0);
    DiffersAt(s, CloseTag, 2, 0);
    DiffersAt(s, CloseTag, 3, 1);
    assert s[4..6] == CloseTag;
    FindIsFirst(s, CloseTag, 4);
    DiffersAt(s, CreatedTag, 0, 0);
    DiffersAt(s, CreatedTag, 1, 1);
    DiffersAt(s, CreatedTag, 2, 0);
    DiffersAt(s, CreatedTag, 3, 1);
    DiffersAt(s, CreatedTag, 4, 0);
  }

  /** The created-at marker ends the middle part, so it is found there no
      later than right after the title. */
  lemma MiddleEndsInMarker(title: string)
    ensures Find(Middle(title), CreatedTag).Some?
    ensures Find(Middle(title), CreatedTag).value <= |title| + 1
  {
    var u := Middle(title);
    assert u[|title| + 1..] == CreatedTag;
    ContainsAt(u, CreatedTag, |title| + 1);
  }

  /** `Locate` on a line whose markers are known. */
  lemma LocateAt(s: string, b: nat, p: nat)
    requires |s| > 0 && !IsWhitespace(s[|s| - 1]) && StartsWith(s, OpenTag)
    requires Find(s, CloseTag) == Some(b) && Find(s, CreatedTag) == Some(p)
    ensures b + |CloseTag| > p ==> Locate(s) == Panics
    ensures b + |CloseTag| <= p ==>
      (p + |CreatedTag| < |s|
       && Locate(s) == Returns(Some((s[b + |CloseTag|..p], s[p + |CreatedTag|..|s| - 1]))))
  {
    TagEndsBeforeLast(s, p);
  }

  /** The title sits at positions 6 onwards of a formatted line. */
  lemma LineTitle(completed: bool, title: string, stamps: string)
    ensures Line(completed, title, stamps)[6..6 + |title|] == title
  {
    var s := Line(completed, title, stamps);
    forall x | 0 <= x < |title|
      ensures s[6..6 + |title|][x] == title[x]
    {
      assert s[6 + x] == title[x];
    }
  }

  /** The timestamps sit between the created-at marker after the title and
      the last character. */
  lemma LineStamps(completed: bool, title: string, stamps: string)
    ensures Line(completed, title, stamps)[20 + |title|..|Line(completed, title, stamps)| - 1] == stamps
  {
    var s := Line(completed, title, stamps);
    forall x | 0 <= x < |stamps|
      ensures s[20 + |title|..|s| - 1][x] == stamps[x]
    {
      assert s[20 + |title| + x] == stamps[x];
    }
  }

  /** Where the markers of a formatted line are. */
  lemma LineMarkers(completed: bool, title: string, stamps: string)
    ensures IsTrimmed(Line(completed, title, stamps))
    ensures StartsWith(Line(completed, title, stamps), OpenTag)
    ensures Find(Line(completed, title, stamps), CloseTag) == Some(4)
    ensures Find(Middle(title), CreatedTag).Some?
    ensures Find(Line(completed, title, stamps), CreatedTag)
         == Some(5 + Find(Middle(title), CreatedTag).value)
  {
    var h := Head(completed);
    var u := Middle(title);
    var rest := stamps + ")";
    var s := Line(completed, title, stamps);
    assert s == h + u + rest;
    assert s[..3] == OpenTag;
    assert u[0] == ' ' && s[5] == u[0];
    HeaderMarkers(s);
    MiddleEndsInMarker(title);
    FindShifted(h, u, rest, CreatedTag);
  }

  /** What `Locate` finds in a line of the formatted shape: with `k` the
      first position of the created-at marker in the middle part, a panic
      when it is 0, otherwise a title slice of `k - 1` characters, which are
      the title and the timestamps when the marker is the one after the
      title. */
  lemma LineLocate(completed: bool, title: string, stamps: string)
    ensures IsTrimmed(Line(completed, title, stamps))
    ensures Find(Middle(title), CreatedTag).Some?
    ensures Find(Middle(title), CreatedTag).value == 0 ==> Locate(Line(completed, title, stamps)) == Panics
    ensures Find(Middle(title), CreatedTag).value > 0 ==>
      Locate(Line(completed, title, stamps)).Returns? && Locate(Line(completed, title, stamps)).value.Some?
      && |Locate(Line(completed, title, stamps)).value.value.0| == Find(Middle(title), CreatedTag).value - 1
    ensures Find(Middle(title), CreatedTag) == Some(|title| + 1) ==>
      Locate(Line(completed, title, stamps)) == Returns(Some((title, stamps)))
  {
    var s := Line(completed, title, stamps);
    LineMarkers(completed, title, stamps);
    var k := Find(Middle(title), CreatedTag).value;
    LocateAt(s, 4, 5 + k);
    if k == |title| + 1 {
      LineTitle(completed, title, stamps);
      LineStamps(completed, title, stamps);
    }
  }

  /** The timestamps split at the completed-at marker into the two dates'
      texts. */
  lemma StampsSplit(created: Date, completed: Option<Date>)
    ensures Split(Stamps(created, completed), CompletedTag) == [FormatDate(created), CompletedText(completed)]
  {
    var d := FormatDate(created);
    var x := CompletedText(completed);
    FormatDateIsPlain(created);
    SplitAfter(d, CompletedTag, x);
    SplitAbsent(x, CompletedTag);
  }

  /** Both dates' texts are their own trim. */
  lemma StampsTrimmed(created: Date, completed: Option<Date>)
    ensures Trim(FormatDate(created)) == FormatDate(created)
    ensures Trim(CompletedText(completed)) == CompletedText(completed)
  {
    var d, x := FormatDate(created), CompletedText(completed);
    FormatDateIsPlain(created);
    assert !IsWhitespace(d[0]) && !IsWhitespace(d[|d| - 1]);
    assert !IsWhitespace(x[0]) && !IsWhitespace(x[|x| - 1]);
    TrimFixpoint(d);
    TrimFixpoint(x);
  }

  /** The timestamps of a formatted line read back as its two dates. */
  lemma StampsRoundTrip(title: string, created: Date, completed: Option<Date>)
    ensures ParseFields(title, Stamps(created, completed)) == Some(Todo(title, created, completed))
  {
    StampsSplit(created, completed);
    StampsTrimmed(created, completed);
    ParseFormat(created);
    if completed.Some? {
      ParseFormat(completed.value);
    }
  }

  /** A formatted item whose title survives is parsed back to itself. */
  lemma FormattedParses(t: Todo)
    requires TitleSurvives(t.title)
    ensures FromStr(ToString(t)) == Returns(Some(t))
  {
    var s := ToString(t);
    LineLocate(t.completedAt.Some?, t.title, Stamps(t.createdAt, t.completedAt));
    TrimFixpoint(s);
    TrimFixpoint(t.title);
    StampsRoundTrip(t.title, t.createdAt, t.completedAt);
  }

  /** A parsed item's title is the trimmed title slice `Locate` found. */
  lemma FromStrTitle(line: string)
    requires FromStr(line).Returns? && FromStr(line).value.Some?
    ensures Locate(Trim(line)).Returns? && Locate(Trim(line)).value.Some?
    ensures FromStr(line).value.value.title == Trim(Locate(Trim(line)).value.value.0)
  {
  }

  /** A line of the formatted shape, for any timestamps, that parses back
      with its own title has a surviving title: the slice `Locate` takes is
      no longer than the title, so the marker is not found inside it. */
  lemma LineTitleSurvives(completed: bool, title: string, stamps: string)
    requires FromStr(Line(completed, title, stamps)).Returns?
    requires FromStr(Line(completed, title, stamps)).value.Some?
    requires FromStr(Line(completed, title, stamps)).value.value.title == title
    ensures TitleSurvives(title)
  {
    var s := Line(completed, title, stamps);
    FromStrTitle(s);
    LineLocate(completed, title, stamps);
    MiddleEndsInMarker(title);
    TrimFixpoint(s);
    SliceTitle(title, Locate(s).value.value.0, Find(Middle(title), CreatedTag).value);
  }

  /** A title read from a slice one shorter than the marker's position,
      with the marker no later than right after the title, ends right
      before the marker. */
  lemma SliceTitle(title: string, slice: string, k: nat)
    requires Trim(slice) == title && |slice| == k - 1 && 0 < k <= |title| + 1
    ensures k == |title| + 1 && IsTrimmed(title)
  {
  }

  /** A formatted item that is parsed back to itself has a surviving
      title. */
  lemma ParsedTitleSurvives(t: Todo)
    requires FromStr(ToString(t)) == Returns(Some(t))
    ensures TitleSurvives(t.title)
  {
    LineTitleSurvives(t.completedAt.Some?, t.title, Stamps(t.createdAt, t.completedAt));
  }

  /** Round trip: a formatted item, completed or open, is parsed back to
      itself exactly when its title survives. */
  lemma RoundTrip(t: Todo)
    ensures FromStr(ToString(t)) == Returns(Some(t)) <==> TitleSurvives(t.title)
  {
    if TitleSurvives(t.title) {
      FormattedParses(t);
    }
    if FromStr(ToString(t)) == Returns(Some(t)) {
      ParsedTitleSurvives(t);
    }
  }

  /** A trimmed title without an opening parenthesis survives. */
  lemma PlainTitleSurvives(title: string)
    requires IsTrimmed(title) && '(' !in title
    ensures TitleSurvives(title)
  {
    var u := Middle(title);
    forall q | 0 <= q < |title| + 1
      ensures !OccursAt(u, CreatedTag, q)
    {
      if q < |title| {
        assert u[q + 1] == title[q];
      } else {
        assert u[q + 1] == ' ';
      }
      DiffersAt(u, CreatedTag, q, 1);
    }
    assert u[|title| + 1..] == CreatedTag;
    FindIsFirst(u, CreatedTag, |title| + 1);
  }

  lemma FixtureCreated()
    ensures FormatDate(DateValue(2024, 6, 1)) == "2024-06-01"
  {
    assert Padded(2024, 4) == "2024";
    assert Padded(6, 2) == "06" && Padded(1, 2) == "01";
  }

  lemma FixtureCompleted()
    ensures FormatDate(DateValue(2025, 6, 1)) == "2025-06-01"
  {
    assert Padded(2025, 4) == "2025";
    assert Padded(6, 2) == "06" && Padded(1, 2) == "01";
  }

  /** The open fixture item of the source's tests formats to the expected
      line (written here in its pieces). */
  lemma OpenFixtureLine()
    ensures ToString(Todo("Buy milk", DateValue(2024, 6, 1), None))
         == "- [ ] " + "Buy milk" + " (created at: " + "2024-06-01" + ", completed at: " + "None" + ")"
  {
    FixtureCreated();
  }

  /** The completed fixture item formats to the expected line. */
  lemma CompletedFixtureLine()
    ensures ToString(Todo("Buy milk", DateValue(2024, 6, 1), Some(DateValue(2025, 6, 1))))
         == "- [x] " + "Buy milk" + " (created at: " + "2024-06-01" + ", completed at: " + "2025-06-01" + ")"
  {
    FixtureCreated();
    FixtureCompleted();
  }

  /** Both fixture items are parsed back from their lines. */
  lemma FixtureRoundTrips(created: Date, completed: Date)
    requires created == DateValue(2024, 6, 1) && completed == DateValue(2025, 6, 1)
    ensures FromStr(ToString(Todo("Buy milk", created, None))) == Returns(Some(Todo("Buy milk", created, None)))
    ensures FromStr(ToString(Todo("Buy milk", created, Some(completed))))
         == Returns(Some(Todo("Buy milk", created, Some(completed))))
  {
    assert "Buy milk"[0] == 'B' && "Buy milk"[7] == 'k';
    PlainTitleSurvives("Buy milk");
    FormattedParses(Todo("Buy milk", created, None));
    FormattedParses(Todo("Buy milk", created, Some(completed)));
  }

  /** A title that starts with the created-at marker's text makes the parse
      of its own line panic. */
  lemma MarkerInTitlePanics(d: Date)
    ensures FromStr(ToString(Todo("(created at: x", d, None))) == Panics
  {
    var title := "(created at: x";
    var u := Middle(title);
    assert u[..|CreatedTag|] == CreatedTag;
    FindIsFirst(u, CreatedTag, 0);
    LineLocate(false, title, Stamps(d, None));
    TrimFixpoint(ToString(Todo(title, d, None)));
  }

  /** The title and timestamps slices of two lines agree, wherever the
      markers of the first are. */
  predicate SlicesAgree(s1: string, s2: string) {
    Find(s1, CloseTag).Some? && Find(s1, CreatedTag).Some? ==>
      var b, p := Find(s1, CloseTag).value, Find(s1, CreatedTag).value;
      b + |CloseTag| <= p && p + |CreatedTag| < |s1| && p + |CreatedTag| < |s2| ==>
        s1[b + |CloseTag|..p] == s2[b + |CloseTag|..p]
        && s1[p + |CreatedTag|..|s1| - 1] == s2[p + |CreatedTag|..|s2| - 1]
  }

  /** `Locate` reads a line only through its prefix, its two markers and
      the two slices between them. */
  lemma LocateSame(s1: string, s2: string)
    requires |s1| > 0 && !IsWhitespace(s1[|s1| - 1]) && |s2| > 0 && !IsWhitespace(s2[|s2| - 1])
    requires StartsWith(s1, OpenTag) <==> StartsWith(s2, OpenTag)
    requires Find(s1, CloseTag) == Find(s2, CloseTag) && Find(s1, CreatedTag) == Find(s2, CreatedTag)
    requires SlicesAgree(s1, s2)
    ensures Locate(s1) == Locate(s2)
  {
    if Find(s1, CreatedTag).Some? {
      TagEndsBeforeLast(s1, Find(s1, CreatedTag).value);
      TagEndsBeforeLast(s2, Find(s1, CreatedTag).value);
    }
  }

  /** The checkbox character is never read: two lines that differ only
      there parse alike, so completion comes only from the completed-at
      field. */
  lemma FromStrIgnoresCheckbox(s1: string, s2: string)
    requires |s1| == |s2| >= 6 && !IsWhitespace(s1[|s1| - 1])
    requires s1[..3] == OpenTag && s1[4..6] == CloseTag
    requires forall x :: 0 <= x < |s1| && x != 3 ==> s1[x] == s2[x]
    ensures FromStr(s1) == FromStr(s2)
  {
    LocateIgnoresCheckbox(s1, s2);
    TrimFixpoint(s1);
    TrimFixpoint(s2);
  }

  lemma LocateIgnoresCheckbox(s1: string, s2: string)
    requires |s1| == |s2| >= 6 && !IsWhitespace(s1[|s1| - 1])
    requires s1[..3] == OpenTag && s1[4..6] == CloseTag
    requires forall x :: 0 <= x < |s1| && x != 3 ==> s1[x] == s2[x]
    ensures IsTrimmed(s1) && IsTrimmed(s2)
    ensures Locate(s1) == Locate(s2)
  {
    assert s1[0] == OpenTag[0] && s1[1] == OpenTag[1] && s1[2] == OpenTag[2];
    assert s1[4] == CloseTag[0] && s1[5] == CloseTag[1];
    HeaderMarkers(s1);
    HeaderMarkers(s2);
    SameSlice(s1, s2, 0, 3);
    SameMarkersPast(s1, s2, CreatedTag);
    CheckboxSlices(s1, s2);
    LocateSame(s1, s2);
  }

  lemma CheckboxSlices(s1: string, s2: string)
    requires |s1| == |s2| && Find(s1, CloseTag) == Some(4)
    requires forall x :: 0 <= x < |s1| && x != 3 ==> s1[x] == s2[x]
    ensures SlicesAgree(s1, s2)
  {
    var fp := Find(s1, CreatedTag);
    if fp.Some? && 6 <= fp.value && fp.value + |CreatedTag| < |s1| {
      var p := fp.value;
      SameSlice(s1, s2, 6, p);
      SameSlice(s1, s2, p + |CreatedTag|, |s1| - 1);
    }
  }

  /** Two lines that differ only before position 4, where `pat` does not
      start in either, have the same first occurrence of `pat`. */
  lemma SameMarkersPast(s1: string, s2: string, pat: string)
    requires |s1| == |s2| && |pat| > 0
    requires forall x :: 4 <= x < |s1| ==> s1[x] == s2[x]
    requires forall q :: 0 <= q < 4 ==> !OccursAt(s1, pat, q) && !OccursAt(s2, pat, q)
    ensures Find(s1, pat) == Find(s2, pat)
  {
    forall q | 0 <= q
      ensures OccursAt(s1, pat, q) <==> OccursAt(s2, pat, q)
    {
      if 4 <= q && q + |pat| <= |s1| {
        SameSlice(s1, s2, q, q + |pat|);
      }
    }
    FindSameOccurrences(s1, s2, pat);
  }

  /** The last character of the line is dropped unchecked: two item lines
      that differ only in a last character that is not a space parse
      alike. */
  lemma FromStrIgnoresLastChar(s1: string, s2: string)
    requires |s1| == |s2| > |OpenTag| && StartsWith(s1, OpenTag)
    requires !IsWhitespace(s1[|s1| - 1]) && !IsWhitespace(s2[|s2| - 1])
    requires forall x :: 0 <= x < |s1| - 1 ==> s1[x] == s2[x]
    ensures FromStr(s1) == FromStr(s2)
  {
    LocateIgnoresLastChar(s1, s2);
    TrimFixpoint(s1);
    TrimFixpoint(s2);
  }

  lemma LocateIgnoresLastChar(s1: string, s2: string)
    requires |s1| == |s2| > |OpenTag| && StartsWith(s1, OpenTag)
    requires !IsWhitespace(s1[|s1| - 1]) && !IsWhitespace(s2[|s2| - 1])
    requires forall x :: 0 <= x < |s1| - 1 ==> s1[x] == s2[x]
    ensures IsTrimmed(s1) && IsTrimmed(s2)
    ensures Locate(s1) == Locate(s2)
  {
    SameSlice(s1, s2, 0, 3);
    assert s1[0] == '-';
    LastCharNotInMarker(s1, s2, CloseTag);
    LastCharNotInMarker(s1, s2, CreatedTag);
    LastCharSlices(s1, s2);
    LocateSame(s1, s2);
  }

  lemma LastCharSlices(s1: string, s2: string)
    requires |s1| == |s2| > 0
    requires forall x :: 0 <= x < |s1| - 1 ==> s1[x] == s2[x]
    ensures SlicesAgree(s1, s2)
  {
    var fb := Find(s1, CloseTag);
    var fp := Find(s1, CreatedTag);
    if fb.Some? && fp.Some? && fb.value + |CloseTag| <= fp.value && fp.value + |CreatedTag| < |s1| {
      var b, p := fb.value, fp.value;
      SameSlice(s1, s2, b + |CloseTag|, p);
      SameSlice(s1, s2, p + |CreatedTag|, |s1| - 1);
    }
  }

  /** A pattern ending in a space cannot use a non-space last character, so
      two strings that differ only there have the same first occurrence. */
  lemma LastCharNotInMarker(s1: string, s2: string, pat: string)
    requires |pat| > 0 && pat[|pat| - 1] == ' '
    requires |s1| == |s2| > 0 && !IsWhitespace(s1[|s1| - 1]) && !IsWhitespace(s2[|s2| - 1])
    requires forall x :: 0 <= x < |s1| - 1 ==> s1[x] == s2[x]
    ensures Find(s1, pat) == Find(s2, pat)
  {
    forall q | 0 <= q
      ensures OccursAt(s1, pat, q) <==> OccursAt(s2, pat, q)
    {
      if q + |pat| < |s1| {
        SameSlice(s1, s2, q, q + |pat|);
      } else if q + |pat| == |s1| {
        assert s1[q..q + |pat|][|pat| - 1] == s1[|s1| - 1];
        assert s2[q..q + |pat|][|pat| - 1] == s2[|s2| - 1];
      }
    }
    FindSameOccurrences(s1, s2, pat);
  }
}
