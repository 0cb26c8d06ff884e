/** The string and sequence logic of anyrun-watson/src/watson.rs, with the
    `watson` command's output given as a parameter: the relative-time
    parser, the tag-list cleanup, the status-line parser and the history
    deduplicator. */
module Watson {
  import opened Prelude
  import opened Strings
  import opened Dates

  predicate IsDigits(s: string) {
    forall i :: 0 <= i < |s| ==> IsAsciiDigit(s[i])
  }

  // ---------------------------------------------------------------------
  // parse_relative_time
  // ---------------------------------------------------------------------

  /** The loop state of `parse_relative_time`: `total_minutes` and the
      digits of `current_num`. */
  datatype Tally = Tally(total: nat, run: string)

  /** One character of the loop: a digit extends the run, `h` adds the run
      as hours and `m` as minutes (each clears the run), anything else is
      skipped. */
  function Step(t: Tally, c: char): (r: Tally)
    requires IsDigits(t.run)
    ensures IsDigits(r.run)
  {
    if IsAsciiDigit(c) then Tally(t.total, t.run + [c])
    else if c == 'h' then Tally(t.total + DigitsValue(t.run) * 60, "")
    else if c == 'm' then Tally(t.total + DigitsValue(t.run), "")
    else t
  }

  /** The loop run over `s` from the state `t`. */
  function Scan(t: Tally, s: string): (r: Tally)
    requires IsDigits(t.run)
    ensures IsDigits(r.run)
    decreases |s|
  {
    if |s| == 0 then t else Step(Scan(t, s[..|s| - 1]), s[|s| - 1])
  }

  const Start := Tally(0, "")

  /** The minute total of a relative time such as `1h30m`, after
      lower-casing. */
  function Minutes(relative: string): nat {
    Scan(Start, ToLower(relative)).total
  }

  /** `Local::now() - Duration::minutes(back)` formatted `%H:%M`, where
      `now` is the local time of day in minutes since midnight. */
  function ClockReading(now: nat, back: nat): (r: string)
    ensures |r| == 5 && r[2] == ':'
  {
    var t := (now - back) % 1440;
    Padded(t / 60, 2) + ":" + Padded(t % 60, 2)
  }

  /** The reading is a valid `HH:MM` showing the time of day `back` minutes
      before `now`, on whichever day that falls. */
  lemma ClockReadingValue(now: nat, back: nat)
    ensures var r := ClockReading(now, back);
      DigitsValue(r[..2]) < 24 && DigitsValue(r[3..]) < 60
      && DigitsValue(r[..2]) * 60 + DigitsValue(r[3..]) == (now - back) % 1440
  {
    var t := (now - back) % 1440;
    var r := ClockReading(now, back);
    assert r[..2] == Padded(t / 60, 2) && r[3..] == Padded(t % 60, 2);
    assert Pow10(2) == 100;
    PaddedValue(t / 60, 2);
    PaddedValue(t % 60, 2);
  }

  /** `parse_relative_time`: nothing for a zero total, otherwise the clock
      reading that many minutes before `now`. */
  function RelativeTime(relative: string, now: nat): Option<string> {
    var m := Minutes(relative);
    if m == 0 then None else Some(ClockReading(now, m))
  }

  /** `parse_relative_time` as the source runs it: one pass over the
      lower-cased characters. */
  method ParseRelativeTime(relative: string, now: nat) returns (r: Option<string>)
    ensures r == RelativeTime(relative, now)
    ensures r.None? <==> Minutes(relative) == 0
  {
    var lowered := ToLower(relative);
    var totalMinutes: nat := 0;
    var currentNum := "";
    var i := 0;
    while i < |lowered|
      invariant 0 <= i <= |lowered|
      invariant Tally(totalMinutes, currentNum) == Scan(Start, lowered[..i])
    {
      var ch := lowered[i];
      if IsAsciiDigit(ch) {
        currentNum := currentNum + [ch];
      } else if ch == 'h' {
        totalMinutes := totalMinutes + DigitsValue(currentNum) * 60;
        currentNum := "";
      } else if ch == 'm' {
        totalMinutes := totalMinutes + DigitsValue(currentNum);
        currentNum := "";
      }
      assert lowered[..i + 1][..i] == lowered[..i];
      i := i + 1;
    }
    assert lowered[..i] == lowered;
    if totalMinutes == 0 {
      return None;
    }
    r := Some(ClockReading(now, totalMinutes));
  }

  /** Scanning a concatenation is scanning the second part from where the
      first left off. */
  lemma {:induction false} ScanAppend(t: Tally, a: string, b: string)
    requires IsDigits(t.run)
    ensures Scan(t, a + b) == Scan(Scan(t, a), b)
    decreases |b|
  {
    if |b| == 0 {
      assert a + b == a;
    } else {
      var ab := a + b;
      assert ab[..|ab| - 1] == a + b[..|b| - 1];
      assert ab[|ab| - 1] == b[|b| - 1];
      ScanAppend(t, a, b[..|b| - 1]);
    }
  }

  /** Digits only extend the run. */
  lemma {:induction false} ScanDigits(t: Tally, d: string)
    requires IsDigits(t.run) && IsDigits(d)
    ensures Scan(t, d) == Tally(t.total, t.run + d)
    decreases |d|
  {
    if |d| > 0 {
      var init := d[..|d| - 1];
      ScanDigits(t, init);
      assert t.run + init + [d[|d| - 1]] == t.run + d;
    } else {
      assert t.run + d == t.run;
    }
  }

  lemma ToLowerAppend(a: string, b: string)
    ensures ToLower(a + b) == ToLower(a) + ToLower(b)
  {
    var l, r := ToLower(a + b), ToLower(a) + ToLower(b);
    ToLowerChars(a + b);
    ToLowerChars(a);
    ToLowerChars(b);
    forall i | 0 <= i < |l|
      ensures l[i] == r[i]
    {
      if i < |a| {
        assert (a + b)[i] == a[i];
        assert r[i] == ToLower(a)[i];
      } else {
        assert (a + b)[i] == b[i - |a|];
        assert r[i] == ToLower(b)[i - |a|];
      }
    }
    assert l == r;
  }

  lemma ToLowerDigits(d: string)
    requires IsDigits(d)
    ensures ToLower(d) == d
  {
    ToLowerFixed(d);
  }

  /** Digits after the last unit are never counted. */
  lemma TrailingDigitsIgnored(s: string, d: string)
    requires IsDigits(d)
    ensures Minutes(s + d) == Minutes(s)
  {
    ToLowerAppend(s, d);
    ToLowerDigits(d);
    ScanAppend(Start, ToLower(s), d);
    ScanDigits(Scan(Start, ToLower(s)), d);
  }

  /** A character that is neither a digit nor a unit (after lower-casing)
      is skipped without clearing the run, wherever it stands. */
  lemma OtherCharSkipped(a: string, c: char, b: string)
    requires !IsAsciiDigit(LowerChar(c)) && LowerChar(c) != 'h' && LowerChar(c) != 'm'
    ensures Minutes(a + [c] + b) == Minutes(a + b)
  {
    ToLowerAppend(a + [c], b);
    ToLowerAppend(a, [c]);
    ToLowerAppend(a, b);
    var la, lb := ToLower(a), ToLower(b);
    assert ToLower([c]) == [LowerChar(c)];
    ScanAppend(Start, la + [LowerChar(c)], lb);
    ScanAppend(Start, la, [LowerChar(c)]);
    assert Scan(Scan(Start, la), [LowerChar(c)]) == Scan(Start, la) by {
      assert [LowerChar(c)][..0] == [];
    }
    ScanAppend(Start, la, lb);
  }

  /** A run of digits closed by a unit, from a state with no pending
      digits. */
  lemma ScanUnit(t: Tally, d: string, u: char)
    requires t.run == "" && IsDigits(d) && !IsAsciiDigit(u)
    ensures Scan(t, d + [u]) == Step(Tally(t.total, d), u)
  {
    ScanAppend(t, d, [u]);
    ScanDigits(t, d);
    assert t.run + d == d;
    assert [u][..0] == [];
  }

  lemma ToLowerFixed(s: string)
    requires forall i :: 0 <= i < |s| ==> LowerChar(s[i]) == s[i]
    ensures ToLower(s) == s
  {
    ToLowerChars(s);
  }

  /** `<h>h<m>m` is `h` hours and `m` minutes. */
  lemma HoursAndMinutes(h: string, m: string)
    requires IsDigits(h) && IsDigits(m)
    ensures Minutes(h + "h" + m + "m") == 60 * DigitsValue(h) + DigitsValue(m)
  {
    var a, b := h + ['h'], m + ['m'];
    var s := a + b;
    assert h + "h" + m + "m" == s;
    forall i | 0 <= i < |s|
      ensures LowerChar(s[i]) == s[i]
    {
      if i < |h| {
        assert s[i] == h[i];
      } else if |a| <= i < |a| + |m| {
        assert s[i] == m[i - |a|];
      }
    }
    ToLowerFixed(s);
    ScanHoursMinutes(h, m);
  }

  lemma ScanHoursMinutes(h: string, m: string)
    requires IsDigits(h) && IsDigits(m)
    ensures Scan(Start, h + ['h'] + (m + ['m'])) == Tally(60 * DigitsValue(h) + DigitsValue(m), "")
  {
    var n := DigitsValue(h) * 60;
    ScanHours(h);
    ScanMinutesFrom(n, m);
    ScanThen(h + ['h'], m + ['m'], Tally(n, ""), Tally(n + DigitsValue(m), ""));
  }

  /** From the start, `<h>h` closes with `h` hours and no pending run. */
  lemma ScanHours(h: string)
    requires IsDigits(h)
    ensures Scan(Start, h + ['h']) == Tally(DigitsValue(h) * 60, "")
  {
    ScanUnit(Start, h, 'h');
    StepUnits(0, h);
  }

  /** From a closed state, `<m>m` adds `m` minutes and leaves no pending
      run. */
  lemma ScanMinutesFrom(n: nat, m: string)
    requires IsDigits(m)
    ensures Scan(Tally(n, ""), m + ['m']) == Tally(n + DigitsValue(m), "")
  {
    ScanUnit(Tally(n, ""), m, 'm');
    StepUnits(n, m);
  }

  /** `h` adds the pending run as hours, `m` as minutes, and both clear
      it. */
  lemma StepUnits(total: nat, d: string)
    requires IsDigits(d)
    ensures Step(Tally(total, d), 'h') == Tally(total + DigitsValue(d) * 60, "")
    ensures Step(Tally(total, d), 'm') == Tally(total + DigitsValue(d), "")
  {
  }

  /** Two scans in a row are one scan of the concatenation. */
  lemma ScanThen(a: string, b: string, t1: Tally, t2: Tally)
    requires IsDigits(t1.run) && Scan(Start, a) == t1 && Scan(t1, b) == t2
    ensures Scan(Start, a + b) == t2
  {
    ScanAppend(Start, a, b);
  }

  /** A single number and unit: `<d>h` is `d` hours, `<d>m` is `d`
      minutes. */
  lemma SingleUnit(d: string, u: char)
    requires IsDigits(d) && (u == 'h' || u == 'm')
    ensures Minutes(d + [u]) == DigitsValue(d) * (if u == 'h' then 60 else 1)
  {
    var s := d + [u];
    forall i | 0 <= i < |s|
      ensures LowerChar(s[i]) == s[i]
    {
      if i < |d| {
        assert s[i] == d[i];
      }
    }
    ToLowerFixed(s);
    ScanUnit(Start, d, u);
  }

  /** Worked cases of the relative-time syntax the launcher accepts
      after `-`. Each literal fact is kept in a small lemma of its own so
      that the worked case itself only composes them. */
  lemma HoursMinutesLiterals()
    ensures "1" + "h" + "30" + "m" == "1h30m" && DigitsValue("1") == 1 && DigitsValue("30") == 30
  { }

  lemma HoursMinutesExample()
    ensures Minutes("1h30m") == 90
  {
    HoursMinutesLiterals();
    HoursAndMinutes("1", "30");
  }

  lemma UpperCaseLiterals()
    ensures ToLower("2H") == ToLower("2h") && "2" + ['h'] == "2h"
  { }

  lemma UpperCaseExample()
    ensures Minutes("2H") == 120
  {
    UpperCaseLiterals();
    SingleUnit("2", 'h');
  }

  lemma SkippedCharLiterals()
    ensures "1" + ['x'] + "2h" == "1x2h" && "1" + "2h" == "12" + ['h']
  { }

  lemma SkippedCharExample()
    ensures Minutes("1x2h") == 720
  {
    SkippedCharLiterals();
    OtherCharSkipped("1", 'x', "2h");
    SingleUnit("12", 'h');
  }

  /** No unit at all: no time. */
  lemma NoUnitExample()
    ensures Minutes("30") == 0 && Minutes("") == 0
  {
    TrailingDigitsIgnored("", "30");
    assert "" + "30" == "30";
  }

  /** A zero or an empty number before the unit: no time. */
  lemma ZeroHoursExample()
    ensures Minutes("0h") == 0 && Minutes("h") == 0
  {
    SingleUnit("0", 'h');
    assert "0" + ['h'] == "0h";
  }

  // ---------------------------------------------------------------------
  // get_tags
  // ---------------------------------------------------------------------

  /** Each piece trimmed, the empty ones dropped, in order. */
  function TrimmedNonEmpty(pieces: seq<string>): seq<string> {
    if |pieces| == 0 then []
    else
      var t := Trim(pieces[0]);
      (if t == "" then [] else [t]) + TrimmedNonEmpty(pieces[1..])
  }

  /** Every string is non-empty and trimmed. */
  predicate AllTrimmedNonEmpty(r: seq<string>) {
    forall i :: 0 <= i < |r| ==> r[i] != "" && IsTrimmed(r[i])
  }

  lemma TrimmedNonEmptyStep(t: string, rest: seq<string>)
    requires AllTrimmedNonEmpty(rest) && IsTrimmed(t)
    ensures AllTrimmedNonEmpty((if t == "" then [] else [t]) + rest)
  {
    var hd: seq<string> := if t == "" then [] else [t];
    var r := hd + rest;
    forall i | 0 <= i < |r|
      ensures r[i] != "" && IsTrimmed(r[i])
    {
      if i >= |hd| {
        assert r[i] == rest[i - |hd|];
      }
    }
  }

  /** What is kept is non-empty and trimmed, and there is no more of it
      than there were pieces. */
  lemma {:induction false} TrimmedNonEmptyTrimmed(pieces: seq<string>)
    ensures |TrimmedNonEmpty(pieces)| <= |pieces|
    ensures AllTrimmedNonEmpty(TrimmedNonEmpty(pieces))
  {
    if |pieces| > 0 {
      TrimmedNonEmptyTrimmed(pieces[1..]);
      TrimmedNonEmptyStep(Trim(pieces[0]), TrimmedNonEmpty(pieces[1..]));
    }
  }

  /** Some piece trims to `x`. */
  predicate TrimsTo(pieces: seq<string>, x: string) {
    exists i :: 0 <= i < |pieces| && Trim(pieces[i]) == x
  }

  /** The kept strings are exactly the non-empty trims of the pieces. */
  lemma {:induction false} TrimmedNonEmptyMembers(pieces: seq<string>, x: string)
    ensures x in TrimmedNonEmpty(pieces) <==> x != "" && TrimsTo(pieces, x)
  {
    if |pieces| > 0 {
      var t, rest := Trim(pieces[0]), pieces[1..];
      TrimmedNonEmptyMembers(rest, x);
      var hd: seq<string> := if t == "" then [] else [t];
      assert TrimmedNonEmpty(pieces) == hd + TrimmedNonEmpty(rest);
      assert x in hd <==> x != "" && t == x;
      TrimsToCons(pieces, x);
    }
  }

  lemma TrimsToCons(pieces: seq<string>, x: string)
    requires |pieces| > 0
    ensures TrimsTo(pieces, x) <==> Trim(pieces[0]) == x || TrimsTo(pieces[1..], x)
  {
    if TrimsTo(pieces, x) {
      var i :| 0 <= i < |pieces| && Trim(pieces[i]) == x;
      if i > 0 {
        assert pieces[1..][i - 1] == pieces[i];
      }
    }
    if TrimsTo(pieces[1..], x) {
      var j :| 0 <= j < |pieces[1..]| && Trim(pieces[1..][j]) == x;
      assert pieces[j + 1] == pieces[1..][j];
    }
  }

  /** Pieces that are already non-empty and trimmed are kept as they are. */
  lemma {:induction false} TrimmedNonEmptyKeeps(pieces: seq<string>)
    requires forall i :: 0 <= i < |pieces| ==> pieces[i] != "" && IsTrimmed(pieces[i])
    ensures TrimmedNonEmpty(pieces) == pieces
  {
    if |pieces| > 0 {
      TrimFixpoint(pieces[0]);
      TrimmedNonEmptyKeeps(pieces[1..]);
      HeadTail(pieces);
    }
  }

  /** The line cleanup of `get_tags` on the output of `watson tags`:
      every non-blank line, trimmed. `str::lines` also strips a `\r`
      before each `\n` and drops a final empty line; trimming and dropping
      blank lines absorb both, so splitting at `\n` gives the same tags. */
  function TagLines(stdout: string): seq<string> {
    TrimmedNonEmpty(Split(stdout, "\n"))
  }

  /** Writing tags one per line and reading them back gives the tags. */
  lemma TagLinesOfJoin(tags: seq<string>)
    requires forall i :: 0 <= i < |tags| ==> tags[i] != "" && IsTrimmed(tags[i]) && '\n' !in tags[i]
    ensures TagLines(Join(tags, "\n")) == tags
  {
    if |tags| == 0 {
      assert Split("", "\n") == [""] by { FindAbsent("", "\n", 0); }
    } else {
      SplitJoin(tags, "\n");
      TrimmedNonEmptyKeeps(tags);
    }
  }

  // ---------------------------------------------------------------------
  // get_current_status
  // ---------------------------------------------------------------------

  /** What `get_current_status` returns: project, tags and the elapsed
      description. */
  datatype Status = Status(project: string, tags: seq<string>, elapsed: string)

  const NoProject := "No project started"
  const ProjectTag := "Project "
  const StartedTag := "started "

  /** The tag slice runs backwards: the first `]` comes before the first
      `[`. */
  predicate TagSliceReversed(after: string) {
    Find(after, " [").Some? && Find(after, "[").Some? && Find(after, "]").Some?
    && Find(after, "[").value + 1 > Find(after, "]").value
  }

  /** The project and its tags, from the text after `Project `: the project
      ends at the first ` [` (then the tags are the comma-separated pieces
      between the first `[` and the first `]`), or else at the first
      ` started`. */
  function ProjectAndTags(after: string): Outcome<Option<(string, seq<string>)>> {
    match Find(after, " [")
    case Some(b) =>
      var project := after[..b];
      (match Find(after, "[")
       case None => Returns(Some((project, [])))
       case Some(ts) =>
         match Find(after, "]")
         case None => Returns(Some((project, [])))
         case Some(te) =>
           if ts + 1 > te then Panics
           else Returns(Some((project, TrimmedNonEmpty(Split(after[ts + 1..te], ","))))))
    case None =>
      match Find(after, " started")
      case Some(sp) => Returns(Some((after[..sp], [])))
      case None => Returns(None)
  }

  /** The only panic is the reversed tag slice. */
  lemma ProjectAndTagsPanics(after: string)
    ensures ProjectAndTags(after) == Panics <==> TagSliceReversed(after)
  {
  }

  /** The project is the text up to the first ` [`, or, when there is
      none, up to the first ` started`. */
  lemma ProjectAndTagsProject(after: string)
    requires ProjectAndTags(after).Returns? && ProjectAndTags(after).value.Some?
    ensures var project := ProjectAndTags(after).value.value.0;
      |project| <= |after| && after[..|project|] == project
      && (Find(after, " [") == Some(|project|)
          || (Find(after, " [").None? && Find(after, " started") == Some(|project|)))
  {
  }

  /** The elapsed description after `started `: up to the first ` (`, or
      empty when there is none. */
  function Elapsed(afterStarted: string): (r: string)
    ensures |r| <= |afterStarted| && afterStarted[..|r|] == r
    ensures !Contains(afterStarted, " (") ==> r == ""
    ensures Contains(afterStarted, " (") ==>
      OccursAt(afterStarted, " (", |r|) && forall q :: 0 <= q < |r| ==> !OccursAt(afterStarted, " (", q)
  {
    match Find(afterStarted, " (")
    case Some(pp) => afterStarted[..pp]
    case None => ""
  }

  /** `get_current_status` on the output of `watson status`. */
  function CurrentStatus(stdout: string): Outcome<Option<Status>> {
    var output := Trim(stdout);
    if Contains(output, NoProject) || |output| == 0 then Returns(None)
    else
      match Find(output, ProjectTag)
      case None => Returns(None)
      case Some(ps) =>
        match ProjectAndTags(output[ps + |ProjectTag|..])
        case Panics => Panics
        case Returns(None) => Returns(None)
        case Returns(Some(found)) =>
          match Find(output, StartedTag)
          case None => Returns(None)
          case Some(sp) =>
            Returns(Some(Status(found.0, found.1, Elapsed(output[sp + |StartedTag|..]))))
  }

  /** Blank output, the no-project message or no `Project ` marker: no
      status. */
  lemma CurrentStatusNone(stdout: string)
    requires var output := Trim(stdout);
      |output| == 0 || Contains(output, NoProject) || !Contains(output, ProjectTag)
    ensures CurrentStatus(stdout) == Returns(None)
  {
  }

  /** A status is only found in output with a `started ` marker, and its
      tags are non-empty and trimmed. */
  lemma CurrentStatusFound(stdout: string)
    requires CurrentStatus(stdout).Returns? && CurrentStatus(stdout).value.Some?
    ensures Contains(Trim(stdout), StartedTag)
    ensures var tags := CurrentStatus(stdout).value.value.tags;
      forall i :: 0 <= i < |tags| ==> tags[i] != "" && IsTrimmed(tags[i])
  {
    var output := Trim(stdout);
    var ps := Find(output, ProjectTag).value;
    ProjectAndTagsTrimmed(output[ps + |ProjectTag|..]);
  }

  /** The tags the project parser finds are non-empty and trimmed. */
  lemma ProjectAndTagsTrimmed(after: string)
    requires ProjectAndTags(after).Returns? && ProjectAndTags(after).value.Some?
    ensures var tags := ProjectAndTags(after).value.value.1;
      forall i :: 0 <= i < |tags| ==> tags[i] != "" && IsTrimmed(tags[i])
  {
    if Find(after, " [").Some? && Find(after, "[").Some? && Find(after, "]").Some? {
      var ts, te := Find(after, "[").value, Find(after, "]").value;
      if ts + 1 <= te {
        TrimmedNonEmptyTrimmed(Split(after[ts + 1..te], ","));
      }
    }
  }

  /** The status line `watson status` prints for a running frame:
      `Project <project> [<tag>, <tag>] started <elapsed> (<stamp>)`. */
  function StatusLine(s: Status, stamp: string): string {
    ProjectTag + s.project + " [" + Join(s.tags, ", ") + "]" + StartedText(s.elapsed, stamp)
  }

  /** The end of a status line: ` started <elapsed> (<stamp>)`. */
  function StartedText(elapsed: string, stamp: string): string {
    " " + StartedTag + elapsed + " (" + stamp + ")"
  }

  /** A name the status parser reads back unchanged: no brackets, which
      would move the tag markers. */
  predicate IsPlainName(s: string) {
    '[' !in s && ']' !in s
  }

  predicate PlainTags(tags: seq<string>) {
    forall i :: 0 <= i < |tags| ==> IsPlainTag(tags[i])
  }

  /** A tag the parser reads back: bracket-free, non-empty, trimmed and
      without the comma that separates tags. */
  predicate IsPlainTag(t: string) {
    IsPlainName(t) && t != "" && IsTrimmed(t) && ',' !in t
  }

  /** The status line up to its `started ` marker. */
  function StatusHead(s: Status): string {
    ProjectTag + s.project + " [" + Join(s.tags, ", ") + "] "
  }

  /** A status whose line parses back to it: plain project and tags, no
      ` (` in the elapsed text (the parser stops there), no `started `
      before the real marker (the parser takes the first), and no
      no-project text anywhere in the line. */
  predicate ReadsBack(s: Status, stamp: string) {
    IsPlainName(s.project) && PlainTags(s.tags) && !Contains(s.elapsed, " (")
    && !Contains(StatusHead(s), StartedTag)
    && !Contains(StatusLine(s, stamp), NoProject)
  }

  /** Splitting `a, b, c` at the commas and trimming gives the tags. */
  lemma TagsReadBack(tags: seq<string>)
    requires PlainTags(tags)
    ensures TrimmedNonEmpty(Split(Join(tags, ", "), ",")) == tags
  {
    if |tags| == 0 {
      assert Split("", ",") == [""] by { FindAbsent("", ",", 0); }
    } else {
      JoinSpacedTail(tags);
      SplitSpacedTail(tags);
      TrimSpacedTail(tags);
    }
  }

  /** The pieces `a, b, c` splits into at the commas: `a`, ` b`, ` c`. */
  function SpacedTail(tags: seq<string>): seq<string>
    requires |tags| > 0
  {
    [tags[0]] + Spaced(tags[1..])
  }

  lemma JoinSpacedTail(tags: seq<string>)
    requires |tags| > 0
    ensures Join(tags, ", ") == Join(SpacedTail(tags), ",")
  {
    JoinSpaced(tags[0], tags[1..], ",", ", ");
    HeadTail(tags);
  }

  lemma SplitSpacedTail(tags: seq<string>)
    requires |tags| > 0 && PlainTags(tags)
    ensures Split(Join(SpacedTail(tags), ","), ",") == SpacedTail(tags)
  {
    SpacedPiecesPlain(tags[0], tags[1..], ',');
    SplitJoin(SpacedTail(tags), ",");
  }


  /** Each string with a space in front. */
  function Spaced(ts: seq<string>): (r: seq<string>)
    ensures |r| == |ts| && forall i :: 0 <= i < |ts| ==> r[i] == " " + ts[i]
  {
    if |ts| == 0 then [] else [" " + ts[0]] + Spaced(ts[1..])
  }

  lemma SpacedCons(ts: seq<string>)
    requires |ts| > 0
    ensures Spaced(ts) == [" " + ts[0]] + Spaced(ts[1..])
  {
  }

  /** Joining with `sep` and a space is joining, with `sep`, the strings
      after the first one with a space in front. */
  lemma {:induction false} JoinSpaced(t: string, rest: seq<string>, sep: string, joiner: string)
    requires |sep| == 1 && |joiner| == 2 && joiner[0] == sep[0] && joiner[1] == ' '
    ensures Join([t] + rest, joiner) == Join([t] + Spaced(rest), sep)
    decreases |rest|
  {
    if |rest| > 0 {
      var u, r2 := rest[0], rest[1..];
      HeadTail(rest);
      JoinSpaced(u, r2, sep, joiner);
      JoinCons(t, rest, joiner);
      assert Spaced(rest) == [" " + u] + Spaced(r2);
      JoinCons(t, Spaced(rest), sep);
      JoinPrefixFirst(" ", u, Spaced(r2), sep);
      JoinSeparators(t, Join([u] + Spaced(r2), sep), sep, joiner);
    } else {
      assert [t] + rest == [t] + Spaced(rest);
    }
  }

  /** A prefix of the first string is a prefix of the join. */
  lemma JoinPrefixFirst(a: string, u: string, xs: seq<string>, sep: string)
    ensures Join([a + u] + xs, sep) == a + Join([u] + xs, sep)
  {
    if |xs| > 0 {
      JoinCons(a + u, xs, sep);
      JoinCons(u, xs, sep);
    }
  }

  lemma JoinSeparators(t: string, w: string, sep: string, joiner: string)
    requires |sep| == 1 && |joiner| == 2 && joiner[0] == sep[0] && joiner[1] == ' '
    ensures t + joiner + w == t + sep + (" " + w)
  {
    assert joiner == sep + " ";
  }

  lemma SpacedPiecesPlain(t: string, rest: seq<string>, c: char)
    requires c != ' ' && c !in t && forall i :: 0 <= i < |rest| ==> c !in rest[i]
    ensures var pieces := [t] + Spaced(rest);
      forall i :: 0 <= i < |pieces| ==> c !in pieces[i]
  {
    var pieces := [t] + Spaced(rest);
    forall i | 0 <= i < |pieces|
      ensures c !in pieces[i]
    {
      if i > 0 {
        assert pieces[i] == " " + rest[i - 1];
      }
    }
  }

  /** Trimming the spaced pieces gives the tags back. */
  lemma TrimSpacedTail(tags: seq<string>)
    requires |tags| > 0 && PlainTags(tags)
    ensures TrimmedNonEmpty(SpacedTail(tags)) == tags
  {
    TrimFixpoint(tags[0]);
    TrimmedNonEmptyCons(tags[0], Spaced(tags[1..]));
    TrimSpacedRest(tags[1..]);
    HeadTail(tags);
  }

  lemma {:induction false} TrimSpacedRest(rest: seq<string>)
    requires PlainTags(rest)
    ensures TrimmedNonEmpty(Spaced(rest)) == rest
    decreases |rest|
  {
    if |rest| > 0 {
      PadTrim(" ", rest[0]);
      SpacedCons(rest);
      TrimmedNonEmptyCons(" " + rest[0], Spaced(rest[1..]));
      TrimSpacedRest(rest[1..]);
      HeadTail(rest);
    }
  }

  /** A piece that trims to something non-empty is kept, trimmed. */
  lemma TrimmedNonEmptyCons(x: string, pieces: seq<string>)
    requires Trim(x) != ""
    ensures TrimmedNonEmpty([x] + pieces) == [Trim(x)] + TrimmedNonEmpty(pieces)
  {
    assert ([x] + pieces)[1..] == pieces;
  }

  lemma PadTrim(pad: string, t: string)
    requires pad == "" || pad == " "
    requires t != "" && IsTrimmed(t)
    ensures Trim(pad + t) == t
  {
    TrimFixpoint(t);
    if pad == " " {
      assert (pad + t)[1..] == t;
      assert TrimStart(pad + t) == TrimStart(t);
    } else {
      assert pad + t == t;
    }
  }

  /** Joining bracket-free tags with `, ` adds no bracket. */
  lemma {:induction false} PlainJoin(tags: seq<string>)
    requires PlainTags(tags)
    ensures IsPlainName(Join(tags, ", "))
  {
    JoinChars(tags, ", ", '[');
    JoinChars(tags, ", ", ']');
  }

  /** The project and tags once the three markers are located. */
  lemma ProjectAndTagsAt(after: string, b: nat, ts: nat, te: nat)
    requires Find(after, " [") == Some(b) && Find(after, "[") == Some(ts) && Find(after, "]") == Some(te)
    requires ts + 1 <= te
    ensures ProjectAndTags(after) == Returns(Some((after[..b], TrimmedNonEmpty(Split(after[ts + 1..te], ",")))))
  {
  }

  /** The positions of the markers in `p [j]rest`. */
  lemma MarkersAfterProject(after: string, p: string, j: string, rest: string)
    requires IsPlainName(p) && IsPlainName(j) && after == p + " [" + j + "]" + rest
    ensures Find(after, " [") == Some(|p|) && Find(after, "[") == Some(|p| + 1)
    ensures Find(after, "]") == Some(|p| + 2 + |j|)
  {
    assert after[..|p|] == p;
    assert after[|p|..|p| + 2] == " [";
    FindFirstByChar(after, " [", 1, |p|);
    assert after[|p| + 1..|p| + 2] == "[";
    FindFirstByChar(after, "[", 0, |p| + 1);
    assert after[|p| + 2 + |j|..|p| + 3 + |j|] == "]";
    FindFirstByChar(after, "]", 0, |p| + 2 + |j|);
  }

  lemma SlicesAfterProject(after: string, p: string, j: string, rest: string)
    requires after == p + " [" + j + "]" + rest
    ensures after[..|p|] == p && after[|p| + 2..|p| + 2 + |j|] == j
  {
  }

  /** Where the parser's searches land in the text after `Project `. */
  lemma AfterProjectParses(p: string, j: string, rest: string, tags: seq<string>)
    requires IsPlainName(p) && IsPlainName(j)
    requires j == Join(tags, ", ") && PlainTags(tags)
    ensures ProjectAndTags(p + " [" + j + "]" + rest) == Returns(Some((p, tags)))
  {
    var after := p + " [" + j + "]" + rest;
    MarkersAfterProject(after, p, j, rest);
    SlicesAfterProject(after, p, j, rest);
    ProjectAndTagsAt(after, |p|, |p| + 1, |p| + 2 + |j|);
    TagsReadBack(tags);
  }

  /** The status line is `Project ` and the text the project parser
      reads; it starts with `P` and ends with `)`. */
  lemma StatusLineShape(s: Status, stamp: string)
    ensures var after := s.project + " [" + Join(s.tags, ", ") + "]" + StartedText(s.elapsed, stamp);
      var line := StatusLine(s, stamp);
      line == ProjectTag + after && line[..|ProjectTag|] == ProjectTag && line[|ProjectTag|..] == after
      && line[0] == 'P' && line[|line| - 1] == ')'
  {
  }

  /** A status line is its head, the `started ` marker and the rest. */
  lemma StartedSplit(s: Status, stamp: string)
    ensures var tail := s.elapsed + " (" + stamp + ")";
      var line := StatusLine(s, stamp);
      line == StatusHead(s) + StartedTag + tail
      && line[|StatusHead(s)| + |StartedTag|..] == tail
  {
    var tail := s.elapsed + " (" + stamp + ")";
    var j := Join(s.tags, ", ");
    assert StartedText(s.elapsed, stamp) == " " + StartedTag + tail;
    assert StatusLine(s, stamp) == ProjectTag + s.project + " [" + j + "]" + (" " + StartedTag + tail);
  }

  /** The `started ` marker of a status line is the one after the tags
      when the head holds none. */
  lemma StartedFound(s: Status, stamp: string)
    requires !Contains(StatusHead(s), StartedTag)
    ensures var line := StatusLine(s, stamp);
      Find(line, StartedTag) == Some(|StatusHead(s)|)
      && line[|StatusHead(s)| + |StartedTag|..] == s.elapsed + " (" + stamp + ")"
  {
    StartedSplit(s, stamp);
    assert StartedTag[7] !in StartedTag[..7];
    FindAfterAbsent(StatusHead(s), StartedTag, s.elapsed + " (" + stamp + ")");
  }

  /** What `get_current_status` checks of a trimmed output `line` to read
      the status `s` from it, with the `started ` marker at `h`. */
  predicate StatusReadable(line: string, s: Status, h: nat) {
    |line| > 0 && Trim(line) == line && !Contains(line, NoProject)
    && Find(line, ProjectTag) == Some(0)
    && ProjectAndTags(line[|ProjectTag|..]) == Returns(Some((s.project, s.tags)))
    && Find(line, StartedTag) == Some(h) && Elapsed(line[h + |StartedTag|..]) == s.elapsed
  }

  /** An output meeting those checks parses to that status. (The checks
      are stated as one fact, `== true`, so that a caller passes them on
      whole.) */
  lemma CurrentStatusAt(output: string, s: Status, h: nat)
    requires StatusReadable(output, s, h) == true
    ensures CurrentStatus(output) == Returns(Some(s))
  {
  }

  /** The status line of a status that reads back meets every check the
      parser makes. */
  lemma StatusLineReadable(s: Status, stamp: string)
    requires ReadsBack(s, stamp)
    ensures StatusReadable(StatusLine(s, stamp), s, |StatusHead(s)|) == true
  {
    StatusLineTrimmed(s, stamp);
    StatusLineProject(s, stamp);
    StatusLineElapsed(s, stamp);
  }

  /** Round trip: the status line of a status that reads back parses to
      that status. */
  lemma StatusLineParses(s: Status, stamp: string)
    requires ReadsBack(s, stamp)
    ensures CurrentStatus(StatusLine(s, stamp)) == Returns(Some(s))
  {
    StatusLineReadable(s, stamp);
    CurrentStatusAt(StatusLine(s, stamp), s, |StatusHead(s)|);
  }

  /** Plain names without the letters `e` and `N` always read back: the
      `e` of `started ` and the `N` of `No project started` cannot then
      be matched outside the fixed text. */
  lemma LettersReadBack(s: Status, stamp: string)
    requires IsPlainName(s.project) && PlainTags(s.tags) && !Contains(s.elapsed, " (")
    requires 'e' !in s.project && 'N' !in s.project
    requires forall i :: 0 <= i < |s.tags| ==> 'e' !in s.tags[i] && 'N' !in s.tags[i]
    requires 'N' !in s.elapsed && 'N' !in stamp
    ensures ReadsBack(s, stamp)
  {
    var j := Join(s.tags, ", ");
    JoinChars(s.tags, ", ", 'e');
    JoinChars(s.tags, ", ", 'N');
    var head := StatusHead(s);
    assert head[5..] == ProjectTag[5..] + s.project + " [" + j + "] ";
    AbsentByChar(head, StartedTag, 5);
    FindAbsent(StatusLine(s, stamp), NoProject, 0);
  }

  lemma ExampleLine()
    ensures StatusLine(Status("anyrun-watson", ["coding"], "3 hours ago"), "2025.11.06 17:00:00-0500")
         == "Project anyrun-watson [coding]" + " started 3 hours ago (2025.11.06 17:00:00-0500)"
  {
    assert Join(["coding"], ", ") == "coding";
    ExampleHead();
    ExampleStarted();
  }

  lemma ExampleHead()
    ensures ProjectTag + "anyrun-watson" + " [" + "coding" + "]" == "Project anyrun-watson [coding]"
  {
    var a := ProjectTag + "anyrun-watson";
    assert a == "Project anyrun-watson";
    var b := a + " [";
    assert b == "Project anyrun-watson [";
    var c := b + "coding";
    assert c == "Project anyrun-watson [coding";
  }

  lemma ExampleStarted()
    ensures StartedText("3 hours ago", "2025.11.06 17:00:00-0500") == " started 3 hours ago (2025.11.06 17:00:00-0500)"
  {
    var e := " " + StartedTag;
    assert e == " started ";
    var f := e + "3 hours ago";
    assert f == " started 3 hours ago";
    var g := f + " (";
    assert g == " started 3 hours ago (";
    var h := g + "2025.11.06 17:00:00-0500";
    assert h == " started 3 hours ago (2025.11.06 17:00:00-0500";
  }

  lemma ExampleReadsBack()
    ensures ReadsBack(Status("anyrun-watson", ["coding"], "3 hours ago"), "2025.11.06 17:00:00-0500")
  {
    ExampleNames();
    ExampleElapsed();
    LettersReadBack(Status("anyrun-watson", ["coding"], "3 hours ago"), "2025.11.06 17:00:00-0500");
  }

  lemma ExampleNames()
    ensures IsPlainName("anyrun-watson") && 'e' !in "anyrun-watson" && 'N' !in "anyrun-watson"
    ensures PlainTags(["coding"]) && 'e' !in "coding" && 'N' !in "coding"
  {
    var p, t := "anyrun-watson", "coding";
    assert forall i :: 0 <= i < |p| ==> p[i] !in "[]Ne";
    assert forall i :: 0 <= i < |t| ==> t[i] !in "[]Ne,";
    assert IsTrimmed(t);
  }

  lemma ExampleElapsed()
    ensures !Contains("3 hours ago", " (") && 'N' !in "3 hours ago"
    ensures 'N' !in "2025.11.06 17:00:00-0500"
  {
    var e, stamp := "3 hours ago", "2025.11.06 17:00:00-0500";
    assert forall i :: 0 <= i < |e| ==> e[i] != '(' && e[i] != 'N';
    assert forall i :: 0 <= i < |stamp| ==> stamp[i] != 'N';
    FindAbsent(e, " (", 1);
  }

  /** The example status text written beside the parser reads as project
      `anyrun-watson`, tag `coding`, started `3 hours ago`. */
  lemma StatusExample()
    ensures CurrentStatus("Project anyrun-watson [coding]" + " started 3 hours ago (2025.11.06 17:00:00-0500)")
         == Returns(Some(Status("anyrun-watson", ["coding"], "3 hours ago")))
  {
    ExampleReadsBack();
    ExampleLine();
    StatusLineParses(Status("anyrun-watson", ["coding"], "3 hours ago"), "2025.11.06 17:00:00-0500");
  }

  /** A status line is non-empty and trimmed. */
  lemma StatusLineTrimmed(s: Status, stamp: string)
    ensures |StatusLine(s, stamp)| > 0 && Trim(StatusLine(s, stamp)) == StatusLine(s, stamp)
  {
    StatusLineEnds(s, stamp);
    EndsTrimmed(StatusLine(s, stamp));
  }

  lemma StatusLineEnds(s: Status, stamp: string)
    ensures |StatusLine(s, stamp)| > 0 && StatusLine(s, stamp)[0] == 'P'
    ensures StatusLine(s, stamp)[|StatusLine(s, stamp)| - 1] == ')'
  {
  }

  lemma EndsTrimmed(line: string)
    requires |line| > 0 && line[0] == 'P' && line[|line| - 1] == ')'
    ensures Trim(line) == line
  {
    TrimFixpoint(line);
  }

  /** The parser finds the project and the tags of a status line. */
  lemma StatusLineProject(s: Status, stamp: string)
    requires IsPlainName(s.project) && PlainTags(s.tags)
    ensures var line := StatusLine(s, stamp);
      Find(line, ProjectTag) == Some(0)
      && ProjectAndTags(line[|ProjectTag|..]) == Returns(Some((s.project, s.tags)))
  {
    var line := StatusLine(s, stamp);
    PlainJoin(s.tags);
    StatusLineShape(s, stamp);
    FindIsFirst(line, ProjectTag, 0);
    AfterProjectParses(s.project, Join(s.tags, ", "), StartedText(s.elapsed, stamp), s.tags);
  }

  /** The parser finds the elapsed description of a status line. */
  lemma StatusLineElapsed(s: Status, stamp: string)
    requires !Contains(StatusHead(s), StartedTag) && !Contains(s.elapsed, " (")
    ensures var line := StatusLine(s, stamp);
      Find(line, StartedTag) == Some(|StatusHead(s)|)
      && Elapsed(line[|StatusHead(s)| + |StartedTag|..]) == s.elapsed
  {
    StartedFound(s, stamp);
    ElapsedFound(s.elapsed, stamp);
  }

  lemma ElapsedFound(e: string, stamp: string)
    requires !Contains(e, " (")
    ensures Elapsed(e + " (" + stamp + ")") == e
  {
    var t := e + " (" + stamp + ")";
    assert t == e + " (" + (stamp + ")");
    FindAfterAbsent(e, " (", stamp + ")");
    assert t[..|e|] == e;
  }

  /** For any output of `watson status`: a status is only found in
      non-blank output without the no-project text, holding both markers;
      its project is the text after the first `Project ` up to the first
      ` [`, or, when there is none, up to the first ` started` (and then
      it has no tags); its elapsed text is what follows the first
      `started ` up to the first ` (`, or empty when there is none. */
  lemma CurrentStatusFields(stdout: string)
    requires CurrentStatus(stdout).Returns? && CurrentStatus(stdout).value.Some?
    ensures var output := Trim(stdout);
      |output| > 0 && !Contains(output, NoProject)
      && Contains(output, ProjectTag) && Contains(output, StartedTag)
    ensures var output := Trim(stdout);
      var st := CurrentStatus(stdout).value.value;
      var after := output[Find(output, ProjectTag).value + |ProjectTag|..];
      |st.project| <= |after| && after[..|st.project|] == st.project
      && (Find(after, " [") == Some(|st.project|)
          || (Find(after, " [").None? && Find(after, " started") == Some(|st.project|) && st.tags == []))
    ensures var output := Trim(stdout);
      var st := CurrentStatus(stdout).value.value;
      var rest := output[Find(output, StartedTag).value + |StartedTag|..];
      |st.elapsed| <= |rest| && rest[..|st.elapsed|] == st.elapsed
      && (Find(rest, " (") == Some(|st.elapsed|) || (Find(rest, " (").None? && st.elapsed == ""))
  {
    var output := Trim(stdout);
    var after := output[Find(output, ProjectTag).value + |ProjectTag|..];
    ProjectAndTagsProject(after);
  }

  // ---------------------------------------------------------------------
  // get_project_tag_combinations
  // ---------------------------------------------------------------------

  /** A project together with the tags it was started with. */
  datatype Combo = Combo(project: string, tags: seq<string>)

  const MaxCombinations := 50

  function Reversed<T>(s: seq<T>): (r: seq<T>)
    ensures |r| == |s| && forall i :: 0 <= i < |s| ==> r[i] == s[|s| - 1 - i]
  {
    if |s| == 0 then [] else [s[|s| - 1]] + Reversed(s[..|s| - 1])
  }

  predicate NoDuplicates<T(==)>(s: seq<T>) {
    forall i, j :: 0 <= i < j < |s| ==> s[i] != s[j]
  }

  /** The first occurrence of each element, in order. */
  function Dedup<T(==)>(s: seq<T>): (r: seq<T>)
    ensures |r| <= |s|
  {
    if |s| == 0 then []
    else
      var d := Dedup(s[..|s| - 1]);
      var x := s[|s| - 1];
      if x in d then d else d + [x]
  }

  /** Each element is kept once, and only elements of the input are. */
  lemma {:induction false} DedupDistinct<T>(s: seq<T>)
    ensures NoDuplicates(Dedup(s))
    ensures forall x :: x in Dedup(s) <==> x in s
  {
    if |s| > 0 {
      var init := s[..|s| - 1];
      DedupDistinct(init);
      forall x
        ensures x in s <==> x in init || x == s[|s| - 1]
      {
        assert s == init + [s[|s| - 1]];
      }
    }
  }

  /** The combinations offered, most recent first: the distinct frames from
      the newest back, at most 50 of them. */
  function Combinations(frames: seq<Combo>): seq<Combo> {
    Truncate(Dedup(Reversed(frames)), MaxCombinations)
  }

  /** The deduplication of a prefix is a prefix of the deduplication. */
  lemma {:induction false} DedupPrefix<T>(s: seq<T>, k: nat)
    requires k <= |s|
    ensures |Dedup(s[..k])| <= |Dedup(s)| && Dedup(s[..k]) == Dedup(s)[..|Dedup(s[..k])|]
    decreases |s| - k
  {
    if k == |s| {
      assert s[..k] == s;
    } else {
      DedupPrefix(s, k + 1);
      var a, b := Dedup(s[..k]), Dedup(s[..k + 1]);
      assert s[..k + 1][..k] == s[..k];
      assert b == a || b == a + [s[k]];
      assert b[..|a|] == a;
    }
  }

  lemma DedupStep<T>(s: seq<T>, k: nat)
    requires k < |s|
    ensures Dedup(s[..k + 1]) == if s[k] in Dedup(s[..k]) then Dedup(s[..k]) else Dedup(s[..k]) + [s[k]]
  {
    assert s[..k + 1][..k] == s[..k];
  }

  /** The loop's state after `k` frames is the answer, once it has run out
      of frames or collected the maximum. */
  lemma CombinationsSoFar(frames: seq<Combo>, k: nat)
    requires k <= |frames|
    requires k == |frames| || |Dedup(Reversed(frames)[..k])| >= MaxCombinations
    requires |Dedup(Reversed(frames)[..k])| <= MaxCombinations
    ensures Dedup(Reversed(frames)[..k]) == Combinations(frames)
  {
    var rev := Reversed(frames);
    DedupPrefix(rev, k);
    if k == |frames| {
      assert rev[..k] == rev;
    }
  }

  /** The set holds exactly the elements of the sequence. */
  ghost predicate SameElements(seen: set<Combo>, s: seq<Combo>) {
    forall c :: c in seen <==> c in s
  }

  /** `get_project_tag_combinations` on the parsed frames: walk them newest
      first, keep each combination the first time it is seen, stop at 50. */
  method ProjectTagCombinations(frames: seq<Combo>) returns (combinations: seq<Combo>)
    ensures combinations == Combinations(frames)
  {
    var seen: set<Combo> := {};
    combinations := [];
    ghost var rev := Reversed(frames);
    var k := 0;
    while k < |frames|
      invariant 0 <= k <= |frames|
      invariant combinations == Dedup(rev[..k])
      invariant SameElements(seen, combinations)
      invariant |combinations| < MaxCombinations
    {
      var combo := frames[|frames| - 1 - k];
      assert rev[k] == combo;
      DedupStep(rev, k);
      if combo !in seen {
        seen := seen + {combo};
        combinations := combinations + [combo];
      }
      k := k + 1;
      if |combinations| >= MaxCombinations {
        break;
      }
    }
    CombinationsSoFar(frames, k);
  }

  /** What the source promises of the combinations: no duplicates, at most
      50 of them, each one a frame. */
  lemma CombinationsBounded(frames: seq<Combo>)
    ensures NoDuplicates(Combinations(frames))
    ensures |Combinations(frames)| <= MaxCombinations
    ensures forall c :: c in Combinations(frames) ==> c in frames
  {
    var d := Dedup(Reversed(frames));
    var r := Combinations(frames);
    DedupDistinct(Reversed(frames));
    assert r == d[..|r|];
    forall i, j | 0 <= i < j < |r|
      ensures r[i] != r[j]
    {
      assert r[i] == d[i] && r[j] == d[j];
    }
    forall c | c in r
      ensures c in frames
    {
      var i :| 0 <= i < |r| && r[i] == c;
      assert d[i] == c && d[i] in Reversed(frames);
      var j :| 0 <= j < |frames| && Reversed(frames)[j] == c;
      assert frames[|frames| - 1 - j] == c;
    }
  }

  /** The newest frame comes first. */
  lemma CombinationsNewestFirst(frames: seq<Combo>)
    requires |frames| > 0
    ensures |Combinations(frames)| > 0 && Combinations(frames)[0] == frames[|frames| - 1]
  {
    var rev := Reversed(frames);
    DedupPrefix(rev, 1);
    assert rev[..1] == [frames[|frames| - 1]];
    assert Dedup(rev[..1]) == [frames[|frames| - 1]] by {
      assert rev[..1][..0] == [];
    }
  }

  /** The position of the first occurrence of `x` in `s`. */
  function IndexOf<T(==)>(s: seq<T>, x: T): (k: nat)
    requires x in s
    ensures k < |s| && s[k] == x && forall q :: 0 <= q < k ==> s[q] != x
  {
    if s[0] == x then 0 else 1 + IndexOf(s[1..], x)
  }

  /** Appending keeps the first occurrence of what was already there. */
  lemma IndexOfAppend<T>(s: seq<T>, y: T, x: T)
    requires x in s
    ensures x in s + [y] && IndexOf(s + [y], x) == IndexOf(s, x)
  {
    var k := IndexOf(s, x);
    assert (s + [y])[k] == x;
  }

  /** The deduplication lists the elements in the order of their first
      occurrences. */
  lemma {:induction false} DedupOrder<T>(s: seq<T>)
    ensures forall x :: x in Dedup(s) ==> x in s
    ensures forall i, j :: 0 <= i < j < |Dedup(s)| ==> IndexOf(s, Dedup(s)[i]) < IndexOf(s, Dedup(s)[j])
  {
    DedupDistinct(s);
    if |s| > 0 {
      var init, x := s[..|s| - 1], s[|s| - 1];
      assert s == init + [x];
      var d := Dedup(init);
      DedupOrder(init);
      DedupDistinct(init);
      forall i | 0 <= i < |d|
        ensures IndexOf(s, d[i]) == IndexOf(init, d[i]) < |init|
      {
        IndexOfAppend(init, x, d[i]);
      }
      if x !in d {
        assert x !in init;
        assert IndexOf(s, x) == |init| by {
          assert forall q :: 0 <= q < |init| ==> s[q] == init[q];
        }
        assert Dedup(s) == d + [x];
      }
    }
  }

  /** Independently of how the list is built: a combination comes before
      another exactly when it was started more recently, counting each
      combination by its newest frame. */
  lemma CombinationsOrder(frames: seq<Combo>)
    ensures forall c :: c in Combinations(frames) ==> c in Reversed(frames)
    ensures var r, rev := Combinations(frames), Reversed(frames);
      forall i, j :: 0 <= i < j < |r| ==> IndexOf(rev, r[i]) < IndexOf(rev, r[j])
  {
    var rev := Reversed(frames);
    DedupOrder(rev);
    var d, r := Dedup(rev), Combinations(frames);
    assert r == d[..|r|];
    forall i, j | 0 <= i < j < |r|
      ensures IndexOf(rev, r[i]) < IndexOf(rev, r[j])
    {
      assert r[i] == d[i] && r[j] == d[j];
    }
  }

  /** Fewer than 50 distinct combinations are all kept. */
  lemma CombinationsComplete(frames: seq<Combo>, c: Combo)
    requires |Combinations(frames)| < MaxCombinations && c in frames
    ensures c in Combinations(frames)
  {
    var rev := Reversed(frames);
    var i :| 0 <= i < |frames| && frames[i] == c;
    assert rev[|frames| - 1 - i] == c;
    DedupDistinct(rev);
  }
}
