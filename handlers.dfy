/** The leaf matchers of the matcher crate: `DisplayHandler`
    (matcher/src/handler_display.rs), `WildcardHandler`
    (matcher/src/handler_wildcard_command.rs) and `CommandDisplayHandler`
    (matcher/src/handler_display_command.rs). */
module Handlers {
  import opened Prelude
  import opened Strings
  import opened Candidates

  /** The marker a wildcard template substitutes. */
  const Placeholder := "{}"

  /** `DisplayHandler::get_matches`: the one configured candidate, whatever
      the input. */
  function DisplayMatches(title: string, icon: string, description: string, input: seq<string>)
    : (r: seq<SimpleMatch>)
    ensures |r| == 1
    ensures r[0].title == title && r[0].icon == icon && r[0].description == description
  {
    [SimpleMatch(title, icon, description)]
  }

  /** The display handler does not look at its input. */
  lemma DisplayIgnoresInput(title: string, icon: string, description: string, a: seq<string>, b: seq<string>)
    ensures DisplayMatches(title, icon, description, a) == DisplayMatches(title, icon, description, b)
  {
  }

  /** A template with the placeholder replaced by `text`, and unchanged when
      it has none. */
  function Fill(template: string, text: string): string {
    if Contains(template, Placeholder) then ReplaceAll(template, Placeholder, text) else template
  }

  /** `WildcardHandler::get_matches`: one candidate whose title and
      description are the templates with every placeholder replaced by the
      input tokens joined with single spaces. */
  function WildcardMatches(title: string, icon: string, description: string, input: seq<string>)
    : (r: seq<SimpleMatch>)
    ensures |r| == 1 && r[0].icon == icon
    ensures r[0].title == Join(Split(title, Placeholder), Join(input, " "))
    ensures r[0].description == Join(Split(description, Placeholder), Join(input, " "))
  {
    var text := Join(input, " ");
    FillIsSubstitution(title, text);
    FillIsSubstitution(description, text);
    [SimpleMatch(Fill(title, text), icon, Fill(description, text))]
  }

  /** Filling a template is joining its placeholder-separated pieces with the
      text; with no placeholder there is one piece, the template. */
  lemma FillIsSubstitution(template: string, text: string)
    ensures Fill(template, text) == Join(Split(template, Placeholder), text)
  {
    ReplaceAllIsJoinOfSplit(template, Placeholder, text);
  }

  /** A template without the placeholder is returned unchanged, title and
      description alike. */
  lemma WildcardWithoutPlaceholder(title: string, icon: string, description: string, input: seq<string>)
    ensures !Contains(title, Placeholder) ==> WildcardMatches(title, icon, description, input)[0].title == title
    ensures !Contains(description, Placeholder)
      ==> WildcardMatches(title, icon, description, input)[0].description == description
  {
  }

  /** The empty input substitutes the empty string. */
  lemma WildcardEmptyInput(title: string, icon: string, description: string)
    ensures WildcardMatches(title, icon, description, [])[0].title == Join(Split(title, Placeholder), "")
  {
  }

  /** The to-do plugin's `add {}` template with the tokens `buy milk`. */
  lemma WildcardAddExample()
    ensures WildcardMatches("add {}", "", "", ["buy", "milk"])[0].title == "add buy milk"
  {
    assert Join(["buy", "milk"], " ") == "buy milk";
    SplitAfter("add ", Placeholder, "");
    SplitAbsent("", Placeholder);
    assert "add " + Placeholder + "" == "add {}";
  }

  /** What running the configured command produced: its standard output, or
      the reason it could not be spawned. The process itself is outside the
      model. */
  datatype CommandOutput = Spawned(stdout: string) | SpawnFailed(reason: string)

  /** `CommandDisplayHandler::get_matches`: one candidate showing the output
      of the command, or one error candidate. */
  function CommandDisplayMatches(command: string, output: CommandOutput): (r: seq<SimpleMatch>)
    ensures |r| == 1
    ensures output.Spawned? ==> r[0] == SimpleMatch(command, "", output.stdout)
    ensures output.SpawnFailed? ==> r[0].title == "error" && r[0].icon == "dialog-error"
  {
    match output
    case Spawned(out) => [SimpleMatch(command, "", out)]
    case SpawnFailed(e) => [SimpleMatch("error", "dialog-error", "Failed to execute command: " + e)]
  }
}
