# anyrun-plugins: the matcher crate and the plugin string cores, in Dafny

This project models the logic of a family of launcher plugins.

- **The shared `matcher` crate.** A `Matcher` turns the tokens typed into
  the launcher bar into a list of `SimpleMatch` candidates, and handles the
  candidate the user selects. The model is a closed datatype of the crate's
  variants: `NoopMatcher`, `DisplayHandler`, `CommandDisplayHandler`,
  `WildcardHandler` and the composite `StaticMatcher`.
  - `StaticMatcher` holds an ordered list of `(key, child)` pairs and a
    result cap. Its `get_matches` descends into the first child whose title
    equals the head token (ignoring case). Otherwise it lists, capped, the
    keys whose title contains the head.
  - `StaticMatcher::handle` interprets an `exec|` (run a shell command) or
    `copy|` (copy text) tag in the candidate's description.
- **The to-do plugin's line format** (`anyrun-todo/src/todo.rs`). `Display`
  writes `- [x] title (created at: D, completed at: D|None)` and `from_str`
  parses it back.
- **The Watson plugin's string logic.** This covers
  `anyrun-watson/src/watson_matcher.rs` and the pure parts of
  `anyrun-watson/src/watson.rs`:
  - the project, tag and time sub-matchers;
  - the relative-time parser (`1h30m`);
  - the cleanup of the `watson tags` output;
  - the parser of the `watson status` line;
  - the deduplication of recent project/tag combinations.

Modules:

| module | file | models |
|---|---|---|
| `Prelude` | prelude.dfy | `Option`, `Outcome` (returns a value or panics), `Vec::truncate` |
| `Strings` | strings.dfy | the `str` operations used: `find`, `contains`, `starts_with`, `split`, `join`, `replace`, `trim`, `trim_start_matches`, `split_whitespace`, `to_lowercase` |
| `Candidates` | candidates.dfy | `SimpleMatch`, the launcher's `Match`/`ROption`/`HandleResult`, the two `From` conversions, `str::as_bytes` |
| `Handlers` | handlers.dfy | the leaf handlers: display, wildcard, command display |
| `StaticMatchers` | static_matchers.dfy | the `Matcher` union, the `StaticMatcher` builder, `get_matches` (specification function and imperative method) and `handle` |
| `Dates` | dates.dfy | `NaiveDate` formatted and parsed as `%Y-%m-%d` |
| `Todos` | todos.dfy | `Todo`, `Display`, `from_str` |
| `Watson` | watson.dfy | `parse_relative_time`, `get_tags`, `get_current_status`, `get_project_tag_combinations` on given strings |
| `WatsonMatchers` | watson_matchers.dfy | `ProjectMatcher`, `TagMatcher`, `TimeMatcher` |

Modelling choices:

- **The outside world becomes parameters.**
  - Whether `sh -c <command>` can be spawned is a function
    `launch: string -> bool`.
  - A display command's output is a `CommandOutput` value.
  - The local time of day is `now`, in minutes since midnight.
  - The output of the `watson` CLI is a given string, and its frames are a
    given sequence.
- **Panics become values.** A Rust slice whose start is past its end panics.
  `from_str` and `get_current_status` return `Outcome.Panics` in exactly
  those cases, and a lemma names the inputs that reach them.
- **Strings are sequences of Unicode scalar values.** Every pattern searched
  for is ASCII, so Rust's byte offsets and the model's character offsets
  pick out the same slices (see `## Left out` for one exception).
- **The `StaticMatcher` builder works on values.** `with_child` and
  `with_max_results` take `self` by value and return it, so no other owner
  can observe the change. The matchers are never changed after they are
  built.
- **Loops are methods proved against functions.** The loops of the source
  are methods whose `ensures` equates their result with a specification
  function: `GetStaticMatches`, `ListContaining`, `ParseRelativeTime`,
  `ProjectTagCombinations` and the three Watson `get_matches`. The
  properties are lemmas about those functions.

## Model

| member | source | states |
|---|---|---|
| `Candidates.ToMatch` | matcher/src/lib.rs:42-62 | the title is copied; the icon and the description are present exactly when non-empty; no markup flag and no id |
| `Candidates.FromMatch` | matcher/src/lib.rs:64-72 | the title is copied; an absent icon or description becomes `""`, a present one is copied |
| `Candidates.SimpleMatchRoundTrip` | matcher/src/lib.rs:42-72 | converting a candidate to a launcher match and back gives the candidate |
| `Candidates.MatchRoundTrip` | matcher/src/lib.rs:42-72 | a launcher match survives the trip through `SimpleMatch` if and only if its icon and description are not present-but-empty, its markup flag is off and it has no id |
| `Candidates.Utf8Ascii` | matcher/src/matcher_static.rs:79 | the bytes of an ASCII string are its character codes, one per character |
| `Handlers.DisplayMatches` | matcher/src/handler_display.rs:13-25 | exactly one candidate, carrying the configured title, icon and description |
| `Handlers.DisplayIgnoresInput` | matcher/src/handler_display.rs:23-25 | the display handler's result does not depend on the tokens |
| `Handlers.WildcardMatches` | matcher/src/handler_wildcard_command.rs:24-40 | exactly one candidate with the configured icon; its title and description are the templates with every `{}` replaced by the tokens joined with single spaces |
| `Handlers.FillIsSubstitution` | matcher/src/handler_wildcard_command.rs:27-37 | filling a template, whether or not it holds `{}`, is joining its `{}`-separated pieces with the text |
| `Handlers.WildcardWithoutPlaceholder` | matcher/src/handler_wildcard_command.rs:27-37 | a title or description template without `{}` is returned unchanged |
| `Handlers.WildcardEmptyInput` | matcher/src/handler_wildcard_command.rs:25 | no tokens substitutes the empty string |
| `Handlers.WildcardAddExample` | matcher/src/handler_wildcard_command.rs:25-31 | the to-do plugin's template `add {}` with tokens `buy`, `milk` gives the title `add buy milk` |
| `Handlers.CommandDisplayMatches` | matcher/src/handler_display_command.rs:21-41 | exactly one candidate: the command and its output, or the `error` candidate with the `dialog-error` icon |
| `StaticMatchers.New` | matcher/src/matcher_static.rs:13-18 | no children and a cap of 1000 |
| `StaticMatchers.WithChild` | matcher/src/matcher_static.rs:20-23 | the new child is appended last; earlier children, their order and the cap are unchanged |
| `StaticMatchers.WithMaxResults` | matcher/src/matcher_static.rs:25-28 | only the cap changes |
| `StaticMatchers.FirstExact` | matcher/src/matcher_static.rs:41-42 | the position of the first child whose lower-cased title equals the lower-cased head, and none before it matches; or no child matches |
| `StaticMatchers.GetMatches` | matcher/src/lib.rs:9 | `get_matches` of any matcher, running the static matcher's loops, equals the specification `Matches` |
| `StaticMatchers.GetStaticMatches` | matcher/src/matcher_static.rs:32-60 | the exact-match scan with its early return, then the filtering scan and `truncate`, compute `StaticMatches` |
| `StaticMatchers.ListContaining` | matcher/src/matcher_static.rs:51-59 | the filtering loop and `truncate` give the keys containing the head, in order, cut to the cap |
| `StaticMatchers.Handle` | matcher/src/lib.rs:8-22 | every leaf closes on every selection except `NoopMatcher`, which refreshes without clearing |
| `StaticMatchers.StaticHandle` | matcher/src/matcher_static.rs:62-83 | `Close` only for an `exec\|` description and `Copy` only for a `copy\|` one; a refresh never clears the input |
| `StaticMatchers.NoopMatcher` | matcher/src/lib.rs:15-23 | no candidates for any input, and `Refresh(false)` for any selection |
| `StaticMatchers.NewYieldsNothing` | matcher/src/matcher_static.rs:32-59 | a matcher with no children yields nothing |
| `StaticMatchers.ExactMatchDescends` | matcher/src/matcher_static.rs:41-49 | when child `i` is the first exact match, the result is that child's own result for the remaining tokens, uncapped, or its key alone when that is empty |
| `StaticMatchers.DuplicateTitleFirstWins` | matcher/src/matcher_static.rs:41-49 | of two children with the same title ignoring case, the later one is never the one descended into |
| `StaticMatchers.LaterChildrenIgnored` | matcher/src/matcher_static.rs:41-49 | once an input matches a child exactly, appending children or changing the cap does not change the result |
| `StaticMatchers.WithChildKeepsExactResult` | matcher/src/matcher_static.rs:20-23 | `with_child` keeps the result of an input that already descends |
| `StaticMatchers.WithMaxResultsKeepsExactResult` | matcher/src/matcher_static.rs:43-46 | the cap does not apply to the result of an exact match |
| `StaticMatchers.ExactResultIsNotCapped` | matcher/src/matcher_static.rs:43-46 | a cap of 1 over a child yielding two candidates still returns two |
| `StaticMatchers.NoExactMatchTruncates` | matcher/src/matcher_static.rs:51-59 | with no exact match the result is the keys containing the head, truncated to the cap |
| `StaticMatchers.NoExactMatchLists` | matcher/src/matcher_static.rs:52-59 | with no exact match the result is a prefix of the listing, of length min(listing, cap) |
| `StaticMatchers.NoExactMatchIgnoresRest` | matcher/src/matcher_static.rs:33-38 | with no exact match, `[head] + rest` and `[head]` give the same result |
| `StaticMatchers.KeysContainingMembers` | matcher/src/matcher_static.rs:53-57 | a key is listed if and only if some child with that key has a title containing the head |
| `StaticMatchers.KeysContainingAppend` | matcher/src/matcher_static.rs:53-57 | the listing of two runs of children is the two listings in order |
| `StaticMatchers.WithChildListing` | matcher/src/matcher_static.rs:20-23 | `with_child` appends the new key to the listing exactly when its title contains the head |
| `StaticMatchers.EmptyInputListsAllKeys` | matcher/src/matcher_static.rs:33-38 | with no tokens and no empty child title, the result is every key in order, capped |
| `StaticMatchers.KeysContainingEmpty` | matcher/src/matcher_static.rs:54 | every title contains the empty head, so the listing is all keys |
| `StaticMatchers.HandleExec` | matcher/src/matcher_static.rs:64-75 | an `exec\|` description closes when its command (all leading `exec\|` removed) launches and refreshes when it does not |
| `StaticMatchers.CopyTagged` | matcher/src/matcher_static.rs:64-77 | a description of one or more `copy\|` then a payload is recognised as `copy\|` and not as `exec\|` |
| `StaticMatchers.HandleCopy` | matcher/src/matcher_static.rs:77-80 | a `copy\|` description copies the UTF-8 bytes of what follows every leading `copy\|` |
| `StaticMatchers.HandleOther` | matcher/src/matcher_static.rs:82 | a description with neither tag, the empty one among them, gives `Refresh(false)` |
| `StaticMatchers.HandleCopyHello` | matcher/src/matcher_static.rs:77-80 | `copy\|hello` copies exactly the bytes of `hello` |
| `StaticMatchers.LeavesClose` | matcher/src/handler_display.rs:27-29 | the display, wildcard and command-display handlers close on every selection |
| `Strings.TrimStartMatchesRepeat` | matcher/src/matcher_static.rs:78 | `trim_start_matches` removes any number of leading copies of the pattern, and nothing more |
| `Strings.ReplaceAllIsJoinOfSplit` | matcher/src/handler_wildcard_command.rs:28 | `replace` equals splitting on the pattern and joining with the replacement |
| `Strings.NormaliseIsNormalised` | anyrun-watson/src/watson_matcher.rs:116-119 | `split_whitespace` then `join(" ")` leaves no leading, trailing or doubled space and no other whitespace |
| `Dates.FormatDate` | anyrun-todo/src/todo.rs:49-51 | a date is written as ten characters `DDDD-DD-DD` |
| `Dates.ParseFormat` | anyrun-todo/src/todo.rs:30-35 | parsing a formatted date gives the date |
| `Dates.FormatParse` | anyrun-todo/src/todo.rs:30 | whatever parses is the formatting of the date it parses to |
| `Todos.Checkbox` | anyrun-todo/src/todo.rs:47-48 | the checkbox is `x` exactly when the item is completed |
| `Todos.CompletedText` | anyrun-todo/src/todo.rs:49-51 | the completed field is `None` exactly when there is no completion date |
| `Todos.ToString` | anyrun-todo/src/todo.rs:45-58 | the line starts with `- [`, ends with `)`, and its checkbox is `x` exactly when the item is completed |
| `Todos.FromStr` | anyrun-todo/src/todo.rs:13-42 | a line not starting with `- [` gives `None`; it panics exactly when `] ` ends after ` (created at: ` begins; a parsed title is trimmed |
| `Todos.Locate` | anyrun-todo/src/todo.rs:14-25 | the prefix check and the marker search; the only panic is the reversed title slice |
| `Todos.ParseFields` | anyrun-todo/src/todo.rs:26-42 | a parsed item keeps the title given and needed `, completed at: ` in the timestamps; an item is read exactly when there is a second piece, the trimmed created text is a date and the trimmed completed text is `None` or a date; the created date is that date, and the completion date is absent exactly for `None` and otherwise the parsed date |
| `Todos.FromStrNeedsMarkers` | anyrun-todo/src/todo.rs:20-28 | a line that parses to an item holds all three markers `] `, ` (created at: ` and `, completed at: ` |
| `Todos.FromStrIgnoresCheckbox` | anyrun-todo/src/todo.rs:15-21 | two lines differing only in the checkbox character parse alike |
| `Todos.FromStrIgnoresLastChar` | anyrun-todo/src/todo.rs:25 | two lines differing only in a non-space last character parse alike: the `)` is never checked |
| `Todos.MarkerInTitlePanics` | anyrun-todo/src/todo.rs:20-22 | the line of an item titled `(created at: x` makes `from_str` panic |
| `Todos.FormattedParses` | anyrun-todo/src/todo.rs:67-101 | an item whose title survives is parsed back from its line to itself |
| `Todos.ParsedTitleSurvives` | anyrun-todo/src/todo.rs:22 | an item parsed back to itself has a trimmed title in which the created-at marker does not start |
| `Todos.RoundTrip` | anyrun-todo/src/todo.rs:67-101 | `from_str(to_string(t)) == Some(t)`, completed or not, if and only if the title survives |
| `Todos.PlainTitleSurvives` | anyrun-todo/src/todo.rs:22 | a trimmed title without `(` survives |
| `Todos.OpenFixtureLine` | anyrun-todo/src/todo.rs:67-83 | the open `Buy milk` item is written `- [ ] Buy milk (created at: 2024-06-01, completed at: None)` |
| `Todos.CompletedFixtureLine` | anyrun-todo/src/todo.rs:85-101 | the completed item is written with `[x]` and `completed at: 2025-06-01` |
| `Todos.FixtureRoundTrips` | anyrun-todo/src/todo.rs:67-101 | both `Buy milk` items of the tests are parsed back to themselves |
| `Watson.ParseRelativeTime` | anyrun-watson/src/watson.rs:14-45 | the loop computes `RelativeTime`, and the result is `None` exactly when the minute total is 0 |
| `Watson.ClockReading` | anyrun-watson/src/watson.rs:40-44 | the time is written as five characters with `:` in the middle |
| `Watson.ClockReadingValue` | anyrun-watson/src/watson.rs:40-44 | the reading is a valid `HH:MM` showing the time of day that many minutes before `now` |
| `Watson.ScanAppend` | anyrun-watson/src/watson.rs:19-33 | scanning a concatenation is scanning the second part from the state the first leaves |
| `Watson.TrailingDigitsIgnored` | anyrun-watson/src/watson.rs:19-37 | digits after the last unit add nothing |
| `Watson.OtherCharSkipped` | anyrun-watson/src/watson.rs:19-33 | a character that is neither a digit nor `h`/`m` after lower-casing is skipped without clearing the run |
| `Watson.HoursAndMinutes` | anyrun-watson/src/watson.rs:19-33 | `<h>h<m>m` counts `60·h + m` minutes |
| `Watson.SingleUnit` | anyrun-watson/src/watson.rs:19-33 | `<d>h` counts `60·d` and `<d>m` counts `d` minutes |
| `Watson.HoursMinutesExample` | anyrun-watson/src/watson.rs:13-14 | `1h30m` is 90 minutes |
| `Watson.UpperCaseExample` | anyrun-watson/src/watson.rs:15 | the input is lower-cased first: `2H` is 120 minutes |
| `Watson.SkippedCharExample` | anyrun-watson/src/watson.rs:19-33 | `1x2h` counts as 12 hours |
| `Watson.NoUnitExample` | anyrun-watson/src/watson.rs:35-37 | `30` and `""` count 0 minutes, so they give no time |
| `Watson.ZeroHoursExample` | anyrun-watson/src/watson.rs:35-37 | `0h` and `h` count 0 minutes |
| `Watson.TrimmedNonEmptyTrimmed` | anyrun-watson/src/watson.rs:55-58 | the kept lines are non-empty and trimmed, and there are no more of them than lines |
| `Watson.TrimmedNonEmptyMembers` | anyrun-watson/src/watson.rs:55-58 | a string is kept if and only if it is non-empty and some line trims to it |
| `Watson.TrimmedNonEmptyKeeps` | anyrun-watson/src/watson.rs:55-58 | lines that are already non-empty and trimmed are kept as they are, in order |
| `Watson.TagLinesOfJoin` | anyrun-watson/src/watson.rs:54-59 | tags written one per line are read back as those tags |
| `Watson.Elapsed` | anyrun-watson/src/watson.rs:114-119 | the elapsed text is what follows `started ` up to the first ` (`, and `""` when there is no ` (` |
| `Watson.ProjectAndTagsPanics` | anyrun-watson/src/watson.rs:94-96 | the tag parser panics exactly when the first `]` comes before the first `[` |
| `Watson.ProjectAndTagsProject` | anyrun-watson/src/watson.rs:90-109 | the project is the text up to the first ` [`, or, when there is none, up to the first ` started` |
| `Watson.ProjectAndTagsTrimmed` | anyrun-watson/src/watson.rs:94-101 | the tags found are non-empty and trimmed |
| `Watson.CurrentStatusNone` | anyrun-watson/src/watson.rs:72-87 | blank output, the no-project message, or no `Project ` marker gives no status |
| `Watson.CurrentStatusFound` | anyrun-watson/src/watson.rs:112-121 | a status is only found when the output holds `started `, and its tags are non-empty and trimmed |
| `Watson.CurrentStatusFields` | anyrun-watson/src/watson.rs:72-121 | for any output: a found status comes from non-blank output without `No project started` that holds `Project ` and `started `; its project is the text after the first `Project ` up to the first ` [`, or else up to the first ` started` with no tags; its elapsed text follows the first `started ` up to the first ` (`, or is empty |
| `Watson.StatusLineParses` | anyrun-watson/src/watson.rs:65-121 | the line `Project <p> [<tags>] started <elapsed> (<stamp>)` parses back to its status whenever the project and tags have no brackets, the tags are non-empty, trimmed and comma-free, the elapsed text holds no ` (`, no `started ` comes before the real marker and the line holds no `No project started` |
| `Watson.LettersReadBack` | anyrun-watson/src/watson.rs:72-121 | a status whose names avoid brackets and the letters `e` and `N` (and whose elapsed text and stamp avoid `N` and ` (`) meets that condition |
| `Watson.StatusExample` | anyrun-watson/src/watson.rs:80 | `Project anyrun-watson [coding] started 3 hours ago (...)` parses to `anyrun-watson`, `[coding]`, `3 hours ago` |
| `Watson.TagsReadBack` | anyrun-watson/src/watson.rs:96-101 | tags joined with `, ` are split, trimmed and filtered back to those tags |
| `Watson.DedupDistinct` | anyrun-watson/src/watson.rs:157-160 | deduplication keeps no duplicates and exactly the elements of its input |
| `Watson.DedupPrefix` | anyrun-watson/src/watson.rs:154-165 | deduplicating a prefix of the frames gives a prefix of the full deduplication, so stopping early keeps the earliest entries |
| `Watson.ProjectTagCombinations` | anyrun-watson/src/watson.rs:150-168 | the loop with its `seen` set and its `break` at 50 computes the newest-first distinct combinations, capped at 50 |
| `Watson.CombinationsBounded` | anyrun-watson/src/watson.rs:150-166 | the combinations have no duplicates, there are at most 50, and each one is a frame |
| `Watson.CombinationsNewestFirst` | anyrun-watson/src/watson.rs:154 | the newest frame comes first |
| `Watson.DedupOrder` | anyrun-watson/src/watson.rs:154-160 | deduplication lists the elements in the order of their first occurrences |
| `Watson.CombinationsOrder` | anyrun-watson/src/watson.rs:154-160 | a combination listed before another was started more recently: its newest frame is newer than the other's newest frame |
| `Watson.CombinationsComplete` | anyrun-watson/src/watson.rs:150-166 | when fewer than 50 are kept, every frame's combination is among them |
| `WatsonMatchers.TagGetMatches` | anyrun-watson/src/watson_matcher.rs:105-141 | popping the last token and pushing the wildcard and the matching tags computes `TagMatches` |
| `WatsonMatchers.TimeGetMatches` | anyrun-watson/src/watson_matcher.rs:145-166 | popping the last token and pushing at most one entry computes `TimeMatches` |
| `WatsonMatchers.ProjectGetMatches` | anyrun-watson/src/watson_matcher.rs:38-97 | delegating two or more tokens, or else pushing the wildcard, the projects and the combinations, computes `ProjectMatches` |
| `WatsonMatchers.ProjectsContainingMembers` | anyrun-watson/src/watson_matcher.rs:76-82 | the known projects listed are exactly those containing the head |
| `WatsonMatchers.CombosContainingMembers` | anyrun-watson/src/watson_matcher.rs:85-94 | the combinations listed are exactly those whose project contains the head |
| `WatsonMatchers.TagsContainingMembers` | anyrun-watson/src/watson_matcher.rs:124-138 | the tags listed are exactly the known tags whose `+tag` form contains the last token |
| `WatsonMatchers.ProjectFewTokens` | anyrun-watson/src/watson_matcher.rs:61-96 | with fewer than two tokens: the new-project wildcard for the head (`""` for none) first, so never empty; then the matching projects, then the matching combinations; length 1 + both groups |
| `WatsonMatchers.ProjectListing` | anyrun-watson/src/watson_matcher.rs:68-96 | with fewer than two tokens the list is the wildcard, then the projects, then the combinations, in list order |
| `WatsonMatchers.ProjectManyTokens` | anyrun-watson/src/watson_matcher.rs:41-58 | with two or more tokens the first is the project; a last token with `+` gives the tag list, otherwise the time list, and neither gives nothing |
| `WatsonMatchers.TagOrTime` | anyrun-watson/src/watson_matcher.rs:110-150 | at most one of the tag and time matchers contributes |
| `WatsonMatchers.TagMatchesShape` | anyrun-watson/src/watson_matcher.rs:106-138 | empty exactly when the last token does not start with `+`; otherwise the wildcard, whose command is the project and the last token, then one entry per matching known tag |
| `WatsonMatchers.TagTitlesNormalised` | anyrun-watson/src/watson_matcher.rs:116-131 | every title is whitespace-normalised, and so is every tag entry's command |
| `WatsonMatchers.TagWildcardCommand` | anyrun-watson/src/watson_matcher.rs:120 | the wildcard's command depends only on the project and the last token |
| `WatsonMatchers.TimeMatchesShape` | anyrun-watson/src/watson_matcher.rs:146-163 | at most one entry, present exactly when the last token starts with `-` and its relative time counts minutes; its command starts the project at that clock reading |
| `WatsonMatchers.TimeEntryCases` | anyrun-watson/src/watson_matcher.rs:146-165 | the time matcher's list is one entry or none |
| `WatsonMatchers.ProjectHandleRefreshes` | anyrun-watson/src/watson_matcher.rs:99-101 | selecting any entry of the project matcher gives `Refresh(false)` |

## Left out

- Process spawning is not modelled. This covers `sh -c` in `StaticMatcher::handle` and `CommandDisplayHandler::get_matches`. Whether the spawn succeeds is the parameter `launch`, and the command's output is a given `CommandOutput`. Neither the exit status nor the stdout of an `exec|` command is looked at, in the source or in the model.
- The `watson` CLI calls (`watson tags`, `watson status`, `watson log --json -a`), `String::from_utf8` on their output, and the serde JSON decoding of frames are not modelled. The model starts from the decoded string or sequence of frames, and a failure at any of those steps yields the empty result before the modelled code runs.
- The plugin adapters are not part of this model: anyrun-todo/src/lib.rs, anyrun-vscode/src/lib.rs, anyrun-watson/src/lib.rs and anyrun-timestamp/src/lib.rs. This covers the file and SQLite reads and the fixed file path. Their trees appear only in example lemmas (`WildcardAddExample`).
- `Local::now()` is left out; the local time of day is the parameter `now`, in minutes since midnight. Time zones and daylight-saving changes are not modelled.
- Watson.ParseRelativeTime: integers are unbounded here, so three `i64` limits of the source are not modelled. A digit run above `i64::MAX` fails `parse::<i64>()` and is skipped by the source (watson.rs:22 and :27), while the model adds its value: `99999999999999999999m` gives no time in the source and a reading in the model. The overflow of `hours * 60` and of `total_minutes` is not modelled. `Duration::minutes` and the subtraction at watson.rs:40 panic when the total is outside chrono's range, and the model returns a reading instead.
- Watson.StatusLineParses: the round trip is proved only for statuses meeting `ReadsBack`. A project or tag with a bracket, a tag with a comma, an elapsed text holding ` (` or a project ending in `started` is read back differently by the source.
- Dates.ParseDate: accepts only the zero-padded `YYYY-MM-DD` form with years 0 to 9999. chrono's `%Y-%m-%d` also accepts unpadded fields, signed and wider years. For formatted dates the two agree (`Dates.ParseFormat`).
- Strings.ToLower: `to_lowercase` is modelled for ASCII letters only; other characters are left as they are.
- Todos.FromStr: uses character offsets. `s.len() - 1` in the source is a byte offset, so a trimmed line whose last character is not ASCII makes the source panic. The model instead drops that character.
- `eprintln!` logging is not modelled.
