/** The launcher matchers of anyrun-watson/src/watson_matcher.rs: the
    project matcher at the root, which hands two or more tokens on to the
    tag and time matchers. The matchers' fields are never changed after
    construction, so they are values; `get_matches` is a method over them
    that builds its result by pushing, as the source does, and is proved
    equal to a specification function. */
module WatsonMatchers {
  import opened Prelude
  import opened Strings
  import opened Candidates
  import opened Watson

  datatype ProjectMatcher = ProjectMatcher(knownProjects: seq<string>, knownTags: seq<string>, combinations: seq<Combo>)

  datatype TagMatcher = TagMatcher(project: string, knownTags: seq<string>)

  datatype TimeMatcher = TimeMatcher(project: string)

  /** The command prefix every entry carries. */
  const StartCommand := "exec|watson start "

  // ---------------------------------------------------------------------
  // The entries
  // ---------------------------------------------------------------------

  /** A project to start: title `<p> `, command `watson start <p>`. */
  function ProjectEntry(p: string): SimpleMatch {
    SimpleMatch(p + " ", "", StartCommand + p)
  }

  /** The tags of a combination as typed: `+<t> ` for each tag. */
  function TagsText(tags: seq<string>): string {
    if |tags| == 0 then "" else "+" + tags[0] + " " + TagsText(tags[1..])
  }

  /** A remembered combination: its project followed by its tags. */
  function ComboEntry(c: Combo): SimpleMatch {
    SimpleMatch(c.project + " " + TagsText(c.tags), "", StartCommand + c.project + " " + TagsText(c.tags))
  }

  /** A known tag appended to what was typed, title and command both
      whitespace-normalised. */
  function TagEntry(project: string, text: string, tag: string): SimpleMatch {
    SimpleMatch(Normalise(project + " " + text + " " + tag), "",
                Normalise(StartCommand + project + " " + text + " " + tag))
  }

  /** The last token, `""` when there is none (`input.pop().unwrap_or("")`). */
  function Current(input: seq<string>): string {
    if |input| == 0 then "" else input[|input| - 1]
  }

  /** The tokens before the last one. */
  function Before(input: seq<string>): seq<string> {
    if |input| == 0 then [] else input[..|input| - 1]
  }

  // ---------------------------------------------------------------------
  // Specification of the three `get_matches`
  // ---------------------------------------------------------------------

  /** The tag matcher's entry for a tag not known yet: the words typed so
      far, whitespace-normalised, and a command with the project and the
      last token only. */
  function TagWildcard(project: string, text: string, current: string): SimpleMatch {
    SimpleMatch(Normalise(project + " " + text + " " + current), "", StartCommand + project + " " + current)
  }

  /** The time matcher's entry: the words as typed, and a command starting
      the project at `time`. */
  function TimeEntry(project: string, text: string, current: string, time: string): SimpleMatch {
    SimpleMatch(project + " " + text + " " + current, "", StartCommand + project + " " + text + " --at " + time)
  }

  /** The known projects that contain `text`, in list order. */
  function ProjectsContaining(projects: seq<string>, text: string): seq<SimpleMatch> {
    if |projects| == 0 then []
    else
      var p := projects[|projects| - 1];
      ProjectsContaining(projects[..|projects| - 1], text) + (if Contains(p, text) then [ProjectEntry(p)] else [])
  }

  /** The combinations whose project contains `text`, in list order. */
  function CombosContaining(combos: seq<Combo>, text: string): seq<SimpleMatch> {
    if |combos| == 0 then []
    else
      var c := combos[|combos| - 1];
      CombosContaining(combos[..|combos| - 1], text) + (if Contains(c.project, text) then [ComboEntry(c)] else [])
  }

  /** The known tags whose `+tag` form contains the last token, in list
      order. */
  function TagsContaining(tags: seq<string>, project: string, text: string, current: string): seq<SimpleMatch> {
    if |tags| == 0 then []
    else
      var t := "+" + tags[|tags| - 1];
      TagsContaining(tags[..|tags| - 1], project, text, current)
        + (if Contains(t, current) then [TagEntry(project, text, t)] else [])
  }

  /** `TagMatcher::get_matches`: nothing unless the last token starts with
      `+`; then a wildcard for a new tag, whose command holds only the
      project and the last token, and one entry per matching known tag. */
  function TagMatches(m: TagMatcher, input: seq<string>): seq<SimpleMatch> {
    var current := Current(input);
    var text := Trim(Join(Before(input), " "));
    if !StartsWith(current, "+") then []
    else
      [TagWildcard(m.project, text, current)] + TagsContaining(m.knownTags, m.project, text, current)
  }

  /** `TimeMatcher::get_matches`: nothing unless the last token starts with
      `-` and what follows the dashes is a relative time; then one entry
      starting the project at that time. `now` is the local time of day in
      minutes since midnight. */
  function TimeMatches(m: TimeMatcher, input: seq<string>, now: nat): seq<SimpleMatch> {
    var current := Current(input);
    var time := RelativeTime(Trim(TrimStartMatches(current, "-")), now);
    if !StartsWith(current, "-") || time.None? then []
    else [TimeEntry(m.project, Join(Before(input), " "), current, time.value)]
  }

  /** `ProjectMatcher::get_matches`: with two or more tokens, the first is
      the project and the rest go to the tag and then the time matcher;
      otherwise a wildcard for a new project named by the head, then the
      known projects and the combinations that contain it. */
  function ProjectMatches(m: ProjectMatcher, input: seq<string>, now: nat): seq<SimpleMatch> {
    if |input| >= 2 then
      TagMatches(TagMatcher(input[0], m.knownTags), input[1..]) + TimeMatches(TimeMatcher(input[0]), input[1..], now)
    else
      var text := if |input| == 0 then "" else input[0];
      [ProjectEntry(text)] + ProjectsContaining(m.knownProjects, text) + CombosContaining(m.combinations, text)
  }

  /** `ProjectMatcher::handle`. */
  function ProjectHandle(m: ProjectMatcher, selection: SimpleMatch): HandleResult {
    Refresh(false)
  }

  // ---------------------------------------------------------------------
  // The imperative `get_matches`
  // ---------------------------------------------------------------------

  /** `TagMatcher::get_matches`: pop the last token, join the rest, push
      the wildcard and then every known tag that matches. */
  method TagGetMatches(m: TagMatcher, input: seq<string>) returns (matches: seq<SimpleMatch>)
    ensures matches == TagMatches(m, input)
  {
    var rest := input;
    var current := "";
    if |rest| > 0 {
      current := rest[|rest| - 1];
      rest := rest[..|rest| - 1];
    }
    var text := Trim(Join(rest, " "));
    matches := [];
    if !StartsWith(current, "+") {
      return;
    }
    var title := Normalise(m.project + " " + text + " " + current);
    var command := StartCommand + m.project + " " + current;
    matches := matches + [SimpleMatch(title, "", command)];
    ghost var wildcard := matches;
    var tags := m.knownTags;
    var i := 0;
    while i < |tags|
      invariant 0 <= i <= |tags|
      invariant matches == wildcard + TagsContaining(tags[..i], m.project, text, current)
    {
      var tag := "+" + tags[i];
      TagsContainingSnoc(tags, i, m.project, text, current);
      if Contains(tag, current) {
        var tagTitle := Normalise(m.project + " " + text + " " + tag);
        var tagCommand := Normalise(StartCommand + m.project + " " + text + " " + tag);
        AppendAssoc(wildcard, TagsContaining(tags[..i], m.project, text, current), [TagEntry(m.project, text, tag)]);
        matches := matches + [SimpleMatch(tagTitle, "", tagCommand)];
      }
      i := i + 1;
    }
    assert tags[..i] == tags;
  }

  /** `TimeMatcher::get_matches`: pop the last token, join the rest, and
      push one entry when the relative time parses. */
  method TimeGetMatches(m: TimeMatcher, input: seq<string>, now: nat) returns (matches: seq<SimpleMatch>)
    ensures matches == TimeMatches(m, input, now)
  {
    var rest := input;
    var current := "";
    if |rest| > 0 {
      current := rest[|rest| - 1];
      rest := rest[..|rest| - 1];
    }
    assert current == Current(input) && rest == Before(input);
    var text := Join(rest, " ");
    matches := [];
    if !StartsWith(current, "-") {
      return;
    }
    var timeText := Trim(TrimStartMatches(current, "-"));
    var time := ParseRelativeTime(timeText, now);
    if time.None? {
      return;
    }
    var title := m.project + " " + text + " " + current;
    var command := StartCommand + m.project + " " + text + " --at " + time.value;
    assert SimpleMatch(title, "", command) == TimeEntry(m.project, text, current, time.value);
    matches := matches + [SimpleMatch(title, "", command)];
  }

  /** `ProjectMatcher::get_matches`: delegate two or more tokens, otherwise
      push the wildcard, then scan the known projects and the
      combinations. */
  method ProjectGetMatches(m: ProjectMatcher, input: seq<string>, now: nat)
    returns (matches: seq<SimpleMatch>)
    ensures matches == ProjectMatches(m, input, now)
  {
    if |input| >= 2 {
      var project := input[0];
      var rest := input[1..];
      var tagMatches := TagGetMatches(TagMatcher(project, m.knownTags), rest);
      var timeMatches := TimeGetMatches(TimeMatcher(project), rest, now);
      matches := tagMatches + timeMatches;
      return;
    }
    var text := "";
    if |input| > 0 {
      text := input[0];
    }
    matches := [SimpleMatch(text + " ", "", StartCommand + text)];

    var projects := m.knownProjects;
    var i := 0;
    while i < |projects|
      invariant 0 <= i <= |projects|
      invariant matches == [ProjectEntry(text)] + ProjectsContaining(projects[..i], text)
    {
      var p := projects[i];
      ProjectsContainingSnoc(projects, i, text);
      if Contains(p, text) {
        AppendAssoc([ProjectEntry(text)], ProjectsContaining(projects[..i], text), [ProjectEntry(p)]);
        matches := matches + [SimpleMatch(p + " ", "", StartCommand + p)];
      }
      i := i + 1;
    }
    assert projects[..i] == projects;

    ghost var listed := matches;
    var combos := m.combinations;
    i := 0;
    while i < |combos|
      invariant 0 <= i <= |combos|
      invariant matches == listed + CombosContaining(combos[..i], text)
    {
      var c := combos[i];
      CombosContainingSnoc(combos, i, text);
      if Contains(c.project, text) {
        var tagsText := TagsText(c.tags);
        AppendAssoc(listed, CombosContaining(combos[..i], text), [ComboEntry(c)]);
        matches := matches + [SimpleMatch(c.project + " " + tagsText, "", StartCommand + c.project + " " + tagsText)];
      }
      i := i + 1;
    }
    assert combos[..i] == combos;
  }

  lemma ProjectsContainingSnoc(projects: seq<string>, i: nat, text: string)
    requires i < |projects|
    ensures ProjectsContaining(projects[..i + 1], text)
         == ProjectsContaining(projects[..i], text)
            + (if Contains(projects[i], text) then [ProjectEntry(projects[i])] else [])
  {
    assert projects[..i + 1][..i] == projects[..i];
  }

  lemma CombosContainingSnoc(combos: seq<Combo>, i: nat, text: string)
    requires i < |combos|
    ensures CombosContaining(combos[..i + 1], text)
         == CombosContaining(combos[..i], text)
            + (if Contains(combos[i].project, text) then [ComboEntry(combos[i])] else [])
  {
    assert combos[..i + 1][..i] == combos[..i];
  }

  lemma TagsContainingSnoc(tags: seq<string>, i: nat, project: string, text: string, current: string)
    requires i < |tags|
    ensures TagsContaining(tags[..i + 1], project, text, current)
         == TagsContaining(tags[..i], project, text, current)
            + (if Contains("+" + tags[i], current) then [TagEntry(project, text, "+" + tags[i])] else [])
  {
    assert tags[..i + 1][..i] == tags[..i];
  }

  // ---------------------------------------------------------------------
  // What the filters keep
  // ---------------------------------------------------------------------

  /** `x` is the entry of a known project that contains `text`. */
  predicate ProjectOffered(projects: seq<string>, text: string, x: SimpleMatch) {
    exists p :: p in projects && Contains(p, text) && x == ProjectEntry(p)
  }

  /** The filter keeps exactly the projects that contain the text: every
      entry is one of them, and each of them has its entry. */
  lemma {:induction false} ProjectsContainingMembers(projects: seq<string>, text: string)
    ensures |ProjectsContaining(projects, text)| <= |projects|
    ensures forall x :: x in ProjectsContaining(projects, text) ==> ProjectOffered(projects, text, x)
    ensures forall p :: p in projects && Contains(p, text) ==> ProjectEntry(p) in ProjectsContaining(projects, text)
  {
    if |projects| > 0 {
      var init, last := projects[..|projects| - 1], projects[|projects| - 1];
      ProjectsContainingMembers(init, text);
      assert projects == init + [last];
      forall x | x in ProjectsContaining(projects, text)
        ensures ProjectOffered(projects, text, x)
      {
        if x in ProjectsContaining(init, text) {
          var p :| p in init && Contains(p, text) && x == ProjectEntry(p);
          assert p in projects;
        } else {
          assert x == ProjectEntry(last);
        }
      }
      forall p | p in projects && Contains(p, text)
        ensures ProjectEntry(p) in ProjectsContaining(projects, text)
      {
        if p != last {
          assert p in init;
        }
      }
    }
  }

  /** `x` is the entry of a combination whose project contains `text`. */
  predicate ComboOffered(combos: seq<Combo>, text: string, x: SimpleMatch) {
    exists c :: c in combos && Contains(c.project, text) && x == ComboEntry(c)
  }

  /** The filter keeps exactly the combinations whose project contains the
      text. */
  lemma {:induction false} CombosContainingMembers(combos: seq<Combo>, text: string)
    ensures |CombosContaining(combos, text)| <= |combos|
    ensures forall x :: x in CombosContaining(combos, text) ==> ComboOffered(combos, text, x)
    ensures forall c :: c in combos && Contains(c.project, text) ==> ComboEntry(c) in CombosContaining(combos, text)
  {
    if |combos| > 0 {
      var init, last := combos[..|combos| - 1], combos[|combos| - 1];
      CombosContainingMembers(init, text);
      assert combos == init + [last];
      forall x | x in CombosContaining(combos, text)
        ensures ComboOffered(combos, text, x)
      {
        if x in CombosContaining(init, text) {
          var c :| c in init && Contains(c.project, text) && x == ComboEntry(c);
          assert c in combos;
        } else {
          assert x == ComboEntry(last);
        }
      }
      forall c | c in combos && Contains(c.project, text)
        ensures ComboEntry(c) in CombosContaining(combos, text)
      {
        if c != last {
          assert c in init;
        }
      }
    }
  }

  /** `x` is the entry of a known tag whose `+tag` form contains the last
      token. */
  predicate TagOffered(tags: seq<string>, project: string, text: string, current: string, x: SimpleMatch) {
    exists t :: t in tags && Contains("+" + t, current) && x == TagEntry(project, text, "+" + t)
  }

  /** The filter keeps exactly the known tags whose `+tag` form contains
      the last token. */
  lemma {:induction false} TagsContainingMembers(tags: seq<string>, project: string, text: string, current: string)
    ensures |TagsContaining(tags, project, text, current)| <= |tags|
    ensures forall x :: x in TagsContaining(tags, project, text, current) ==> TagOffered(tags, project, text, current, x)
    ensures forall t :: t in tags && Contains("+" + t, current) ==>
      TagEntry(project, text, "+" + t) in TagsContaining(tags, project, text, current)
  {
    if |tags| > 0 {
      var init, last := tags[..|tags| - 1], tags[|tags| - 1];
      TagsContainingMembers(init, project, text, current);
      assert tags == init + [last];
      forall x | x in TagsContaining(tags, project, text, current)
        ensures TagOffered(tags, project, text, current, x)
      {
        if x in TagsContaining(init, project, text, current) {
          var t :| t in init && Contains("+" + t, current) && x == TagEntry(project, text, "+" + t);
          assert t in tags;
        } else {
          assert x == TagEntry(project, text, "+" + last);
        }
      }
      forall t | t in tags && Contains("+" + t, current)
        ensures TagEntry(project, text, "+" + t) in TagsContaining(tags, project, text, current)
      {
        if t != last {
          assert t in init;
        }
      }
    }
  }

  // ---------------------------------------------------------------------
  // Properties of the matchers
  // ---------------------------------------------------------------------

  /** With fewer than two tokens: first the wildcard for a new project
      named by the head (`""` for no input), so the list is never empty;
      then the known projects containing the head; then the combinations
      whose project contains it. */
  lemma ProjectFewTokens(m: ProjectMatcher, input: seq<string>, now: nat)
    requires |input| < 2
    ensures var head := if |input| == 0 then "" else input[0];
      var r := ProjectMatches(m, input, now);
      var np := |ProjectsContaining(m.knownProjects, head)|;
      |r| == 1 + np + |CombosContaining(m.combinations, head)|
      && r[0] == SimpleMatch(head + " ", "", "exec|watson start " + head)
      && (forall j :: 1 <= j < 1 + np ==> ProjectOffered(m.knownProjects, head, r[j]))
      && (forall j :: 1 + np <= j < |r| ==> ComboOffered(m.combinations, head, r[j]))
  {
    var head := if |input| == 0 then "" else input[0];
    var ps := ProjectsContaining(m.knownProjects, head);
    var cs := CombosContaining(m.combinations, head);
    var r := ProjectMatches(m, input, now);
    ProjectListing(m, input, now);
    ProjectsContainingMembers(m.knownProjects, head);
    CombosContainingMembers(m.combinations, head);
    ThreeParts(r, ProjectEntry(head), ps, cs);
    forall j | 1 <= j < 1 + |ps|
      ensures ProjectOffered(m.knownProjects, head, r[j])
    {
      assert ps[j - 1] in ps;
    }
    forall j | 1 + |ps| <= j < |r|
      ensures ComboOffered(m.combinations, head, r[j])
    {
      assert cs[j - 1 - |ps|] in cs;
    }
  }

  /** The project matcher's list for fewer than two tokens, spelt out. */
  lemma ProjectListing(m: ProjectMatcher, input: seq<string>, now: nat)
    requires |input| < 2
    ensures var head := if |input| == 0 then "" else input[0];
      ProjectMatches(m, input, now)
        == [ProjectEntry(head)] + ProjectsContaining(m.knownProjects, head) + CombosContaining(m.combinations, head)
  {
  }

  /** Where the parts of `[a] + xs + ys` sit. */
  lemma ThreeParts<T>(r: seq<T>, a: T, xs: seq<T>, ys: seq<T>)
    requires r == [a] + xs + ys
    ensures |r| == 1 + |xs| + |ys| && r[0] == a
    ensures forall j :: 1 <= j < 1 + |xs| ==> r[j] == xs[j - 1]
    ensures forall j :: 1 + |xs| <= j < |r| ==> r[j] == ys[j - 1 - |xs|]
  {
  }

  /** Where the parts of `[a] + xs` sit. */
  lemma TwoParts<T>(r: seq<T>, a: T, xs: seq<T>)
    requires r == [a] + xs
    ensures |r| == 1 + |xs| && r[0] == a
    ensures forall j :: 1 <= j < |r| ==> r[j] == xs[j - 1]
  {
  }

  /** The tag matcher's list, spelt out. */
  lemma TagListing(m: TagMatcher, input: seq<string>)
    ensures var current := Current(input);
      var text := Trim(Join(Before(input), " "));
      TagMatches(m, input)
        == if StartsWith(current, "+") then [TagWildcard(m.project, text, current)] + TagsContaining(m.knownTags, m.project, text, current)
           else []
  {
  }


  /** No token starts with both `+` and `-`, so at most one of the tag and
      time matchers contributes. */
  lemma TagOrTime(tm: TagMatcher, im: TimeMatcher, input: seq<string>, now: nat)
    ensures TagMatches(tm, input) == [] || TimeMatches(im, input, now) == []
  {
  }

  /** With two or more tokens the first is the project: a last token
      starting with `+` gives the tag matcher's list, one starting with `-`
      the time matcher's, any other nothing. */
  lemma ProjectManyTokens(m: ProjectMatcher, input: seq<string>, now: nat)
    requires |input| >= 2
    ensures var r := ProjectMatches(m, input, now);
      var c := input[|input| - 1];
      (StartsWith(c, "+") ==> r == TagMatches(TagMatcher(input[0], m.knownTags), input[1..]))
      && (!StartsWith(c, "+") ==> r == TimeMatches(TimeMatcher(input[0]), input[1..], now))
      && (!StartsWith(c, "+") && !StartsWith(c, "-") ==> r == [])
  {
    var rest := input[1..];
    assert Current(rest) == input[|input| - 1];
    TagOrTime(TagMatcher(input[0], m.knownTags), TimeMatcher(input[0]), rest, now);
  }

  /** The tag matcher offers nothing unless the last token starts with `+`;
      then the wildcard comes first, its command built from the project and
      the last token alone, followed by the matching known tags. */
  lemma TagMatchesShape(m: TagMatcher, input: seq<string>)
    ensures var r := TagMatches(m, input);
      var current := Current(input);
      (r == [] <==> !StartsWith(current, "+"))
      && (StartsWith(current, "+") ==>
            |r| == 1 + |TagsContaining(m.knownTags, m.project, Trim(Join(Before(input), " ")), current)|
            && r[0].description == "exec|watson start " + m.project + " " + current
            && forall j :: 1 <= j < |r| ==>
                 TagOffered(m.knownTags, m.project, Trim(Join(Before(input), " ")), current, r[j]))
  {
    var r := TagMatches(m, input);
    var current := Current(input);
    var text := Trim(Join(Before(input), " "));
    TagListing(m, input);
    if StartsWith(current, "+") {
      var ts := TagsContaining(m.knownTags, m.project, text, current);
      TagsContainingMembers(m.knownTags, m.project, text, current);
      TwoParts(r, TagWildcard(m.project, text, current), ts);
      forall j | 1 <= j < |r|
        ensures TagOffered(m.knownTags, m.project, text, current, r[j])
      {
        assert ts[j - 1] in ts;
      }
    }
  }


  /** Every title the tag matcher offers is whitespace-normalised (no
      leading, trailing or doubled space), and so is every command but the
      wildcard's. */
  lemma TagTitlesNormalised(m: TagMatcher, input: seq<string>)
    ensures var r := TagMatches(m, input);
      forall j :: 0 <= j < |r| ==> IsNormalised(r[j].title) && (j > 0 ==> IsNormalised(r[j].description))
  {
    var r := TagMatches(m, input);
    var current := Current(input);
    var text := Trim(Join(Before(input), " "));
    TagListing(m, input);
    if StartsWith(current, "+") {
      var ts := TagsContaining(m.knownTags, m.project, text, current);
      TagsContainingMembers(m.knownTags, m.project, text, current);
      TwoParts(r, TagWildcard(m.project, text, current), ts);
      NormaliseIsNormalised(m.project + " " + text + " " + current);
      forall j | 1 <= j < |r|
        ensures IsNormalised(r[j].title) && IsNormalised(r[j].description)
      {
        assert ts[j - 1] in ts;
        var t :| t in m.knownTags && Contains("+" + t, current) && r[j] == TagEntry(m.project, text, "+" + t);
        NormaliseIsNormalised(m.project + " " + text + " " + ("+" + t));
        NormaliseIsNormalised(StartCommand + m.project + " " + text + " " + ("+" + t));
      }
    }
  }


  /** The tag wildcard's command depends on the last token only: the tags
      typed before it appear in its title but not in its command. */
  lemma TagWildcardCommand(m: TagMatcher, a: seq<string>, b: seq<string>)
    requires Current(a) == Current(b) && StartsWith(Current(a), "+")
    ensures |TagMatches(m, a)| > 0 && |TagMatches(m, b)| > 0
    ensures TagMatches(m, a)[0].description == TagMatches(m, b)[0].description
  {
  }

  /** The time matcher offers at most one entry, and one exactly when the
      last token starts with `-` and the rest of it, dashes and surrounding
      whitespace removed, counts a positive number of minutes; its command
      starts the project at the clock reading that far back. */
  lemma TimeMatchesShape(m: TimeMatcher, input: seq<string>, now: nat)
    ensures var r := TimeMatches(m, input, now);
      var current := Current(input);
      var minutes := Minutes(Trim(TrimStartMatches(current, "-")));
      |r| <= 1
      && (|r| == 1 <==> StartsWith(current, "-") && minutes > 0)
      && (|r| == 1 ==>
            r[0].description == "exec|watson start " + m.project + " " + Join(Before(input), " ") + " --at " + ClockReading(now, minutes))
  {
    TimeEntryCases(m, input, now);
  }

  /** The one entry the time matcher can offer, and when it does. */
  lemma TimeEntryCases(m: TimeMatcher, input: seq<string>, now: nat)
    ensures var current := Current(input);
      var minutes := Minutes(Trim(TrimStartMatches(current, "-")));
      var text := Join(Before(input), " ");
      TimeMatches(m, input, now)
        == if StartsWith(current, "-") && minutes > 0 then [TimeEntry(m.project, text, current, ClockReading(now, minutes))] else []
  {
  }

  /** Selecting any entry of the project matcher refreshes the launcher
      without closing it. */
  lemma ProjectHandleRefreshes(m: ProjectMatcher, selection: SimpleMatch)
    ensures ProjectHandle(m, selection) == Refresh(false)
  {
  }
}
