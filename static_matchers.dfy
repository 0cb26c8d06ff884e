/** The `Matcher` trait of matcher/src/lib.rs as a closed union of the
    crate's variants, and the composite `StaticMatcher` of
    matcher/src/matcher_static.rs. */
module StaticMatchers {
  import opened Prelude
  import opened Strings
  import opened Candidates
  import opened Handlers

  /** Every matcher of the crate. `Static` owns its children, so a matcher
      is a finite tree. */
  datatype Matcher =
    | Noop
    | Display(title: string, icon: string, description: string)
    | CommandDisplay(command: string, output: CommandOutput)
    | Wildcard(title: string, icon: string, description: string)
    | Static(tree: StaticMatcher)

  /** One `(SimpleMatch, Box<dyn Matcher>)` entry of a static matcher. */
  datatype Child = Child(key: SimpleMatch, matcher: Matcher)

  /** A static matcher: its children in insertion order and its result
      cap (`max_results: usize`). */
  datatype StaticMatcher = StaticMatcher(children: seq<Child>, maxResults: nat)

  // ---------------------------------------------------------------------
  // Builder
  // ---------------------------------------------------------------------

  /** `StaticMatcher::new`. */
  function New(): (r: StaticMatcher)
    ensures r.children == [] && r.maxResults == 1000
  {
    StaticMatcher([], 1000)
  }

  /** `StaticMatcher::with_child`: appends one child at the end. The builder
      takes `self` by value and returns it, so no other owner can observe
      the change. */
  function WithChild(m: StaticMatcher, key: SimpleMatch, matcher: Matcher): (r: StaticMatcher)
    ensures |r.children| == |m.children| + 1 && r.children[..|m.children|] == m.children
    ensures r.children[|m.children|] == Child(key, matcher) && r.maxResults == m.maxResults
  {
    var cs := m.children + [Child(key, matcher)];
    assert cs[..|m.children|] == m.children;
    StaticMatcher(cs, m.maxResults)
  }

  /** `StaticMatcher::with_max_results`: replaces the cap only. */
  function WithMaxResults(m: StaticMatcher, max: nat): (r: StaticMatcher)
    ensures r.children == m.children && r.maxResults == max
  {
    StaticMatcher(m.children, max)
  }

  // ---------------------------------------------------------------------
  // Specification of `get_matches`
  // ---------------------------------------------------------------------

  /** The head token, `""` for the empty input. */
  function Head(input: seq<string>): string {
    if |input| == 0 then "" else input[0]
  }

  /** The tokens after the head. */
  function Rest(input: seq<string>): seq<string> {
    if |input| == 0 then [] else input[1..]
  }

  /** The child's title equals the head, ignoring case. */
  predicate IsExact(c: Child, head: string) {
    ToLower(c.key.title) == ToLower(head)
  }

  /** The child's title contains the head, ignoring case. */
  predicate HasHead(c: Child, head: string) {
    Contains(ToLower(c.key.title), ToLower(head))
  }

  /** The first child at or after `i` whose title is exactly the head. */
  function FirstExactFrom(children: seq<Child>, head: string, i: nat): (r: Option<nat>)
    requires i <= |children|
    ensures r.Some? ==> i <= r.value < |children| && IsExact(children[r.value], head)
    ensures r.Some? ==> forall j :: i <= j < r.value ==> !IsExact(children[j], head)
    ensures r.None? ==> forall j :: i <= j < |children| ==> !IsExact(children[j], head)
    decreases |children| - i
  {
    if i == |children| then None
    else if IsExact(children[i], head) then Some(i)
    else FirstExactFrom(children, head, i + 1)
  }

  /** The position of the first child whose title is exactly the head. */
  function FirstExact(children: seq<Child>, head: string): (r: Option<nat>)
    ensures r.Some? ==> r.value < |children| && IsExact(children[r.value], head)
    ensures r.Some? ==> forall j :: 0 <= j < r.value ==> !IsExact(children[j], head)
    ensures r.None? ==> forall j :: 0 <= j < |children| ==> !IsExact(children[j], head)
  {
    FirstExactFrom(children, head, 0)
  }

  /** The keys of the children whose title contains the head, in insertion
      order. */
  function KeysContaining(children: seq<Child>, head: string): (r: seq<SimpleMatch>)
    ensures |r| <= |children|
  {
    if |children| == 0 then []
    else
      var last := children[|children| - 1];
      KeysContaining(children[..|children| - 1], head) + (if HasHead(last, head) then [last.key] else [])
  }

  /** The keys of all children, in insertion order. */
  function Keys(children: seq<Child>): (r: seq<SimpleMatch>)
    ensures |r| == |children|
    ensures forall i :: 0 <= i < |children| ==> r[i] == children[i].key
  {
    if |children| == 0 then [] else Keys(children[..|children| - 1]) + [children[|children| - 1].key]
  }

  /** `Matcher::get_matches` for every variant. */
  function Matches(m: Matcher, input: seq<string>): seq<SimpleMatch>
    decreases m, 1
  {
    match m
    case Noop => []
    case Display(t, i, d) => DisplayMatches(t, i, d, input)
    case CommandDisplay(c, o) => CommandDisplayMatches(c, o)
    case Wildcard(t, i, d) => WildcardMatches(t, i, d, input)
    case Static(s) => StaticMatches(s, input)
  }

  /** `StaticMatcher::get_matches`: descend into the first child whose title
      is the head (falling back to its key when it yields nothing);
      otherwise list the keys that contain the head, capped. */
  function StaticMatches(s: StaticMatcher, input: seq<string>): seq<SimpleMatch>
    decreases s, 0
  {
    var head := Head(input);
    match FirstExact(s.children, head)
    case Some(i) =>
      var sub := Matches(s.children[i].matcher, Rest(input));
      if |sub| > 0 then sub else [s.children[i].key]
    case None => Truncate(KeysContaining(s.children, head), s.maxResults)
  }

  // ---------------------------------------------------------------------
  // Specification of `handle`
  // ---------------------------------------------------------------------

  const ExecTag := "exec|"
  const CopyTag := "copy|"

  /** `StaticMatcher::handle`. `launch` says whether `sh -c <command>` could
      be spawned; the process itself is outside the model. */
  function StaticHandle(selection: SimpleMatch, launch: string -> bool): (r: HandleResult)
    ensures r.Close? ==> StartsWith(selection.description, ExecTag)
    ensures r.Copy? ==> StartsWith(selection.description, CopyTag)
    ensures r.Refresh? ==> !r.flag
  {
    var d := selection.description;
    if StartsWith(d, ExecTag) then
      if launch(TrimStartMatches(d, ExecTag)) then Close else Refresh(false)
    else if StartsWith(d, CopyTag) then
      Copy(Utf8(TrimStartMatches(d, CopyTag)))
    else
      Refresh(false)
  }

  /** `Matcher::handle` for every variant. */
  function Handle(m: Matcher, selection: SimpleMatch, launch: string -> bool): (r: HandleResult)
    ensures !m.Static? ==> (r == Close <==> !m.Noop?)
    ensures m.Noop? ==> r == Refresh(false)
  {
    match m
    case Noop => Refresh(false)
    case Display(_, _, _) => Close
    case CommandDisplay(_, _) => Close
    case Wildcard(_, _, _) => Close
    case Static(_) => StaticHandle(selection, launch)
  }

  // ---------------------------------------------------------------------
  // The imperative `get_matches`
  // ---------------------------------------------------------------------

  /** `Matcher::get_matches`, running the loops of the static matcher. */
  method GetMatches(m: Matcher, input: seq<string>) returns (r: seq<SimpleMatch>)
    ensures r == Matches(m, input)
    decreases m, 1
  {
    match m {
      case Static(s) =>
        r := GetStaticMatches(s, input);
      case _ =>
        r := Matches(m, input);
    }
  }

  /** `StaticMatcher::get_matches`: an exact-match scan with an early
      return, then a filtering scan pushing keys, then `truncate`. */
  method GetStaticMatches(s: StaticMatcher, input: seq<string>) returns (r: seq<SimpleMatch>)
    ensures r == StaticMatches(s, input)
    decreases s, 0
  {
    var text := "";
    var rest := input;
    if |input| > 0 {
      text := input[0];
      rest := input[1..];
    }
    assert text == Head(input) && rest == Rest(input);
    var lowered := ToLower(text);
    var children := s.children;

    var i := 0;
    while i < |children|
      invariant 0 <= i <= |children|
      invariant forall j :: 0 <= j < i ==> !IsExact(children[j], text)
    {
      var c := children[i];
      if ToLower(c.key.title) == lowered {
        ExactMatchDescends(s, input, i);
        var sub := GetMatches(c.matcher, rest);
        if |sub| > 0 {
          return sub;
        }
        return [c.key];
      }
      i := i + 1;
    }

    NoExactMatchTruncates(s, input);
    r := ListContaining(children, text, lowered, s.maxResults);
  }

  /** The second half of `StaticMatcher::get_matches`: a filtering scan
      pushing the keys whose lower-cased title contains `lowered`, the
      lower-cased head, then `truncate`. */
  method ListContaining(children: seq<Child>, ghost head: string, lowered: string, max: nat)
    returns (r: seq<SimpleMatch>)
    requires lowered == ToLower(head)
    ensures r == Truncate(KeysContaining(children, head), max)
  {
    var matches := [];
    var i := 0;
    while i < |children|
      invariant 0 <= i <= |children|
      invariant matches == KeysContaining(children[..i], head)
    {
      var c := children[i];
      KeysContainingSnoc(children, i, head);
      if Contains(ToLower(c.key.title), lowered) {
        matches := matches + [c.key];
      }
      i := i + 1;
    }
    assert children[..i] == children;
    if |matches| > max {
      matches := matches[..max];
    }
    r := matches;
  }

  // ---------------------------------------------------------------------
  // Properties of `get_matches`
  // ---------------------------------------------------------------------

  /** `NoopMatcher` yields nothing and refreshes on every selection. */
  lemma NoopMatcher(input: seq<string>, selection: SimpleMatch, launch: string -> bool)
    ensures Matches(Noop, input) == []
    ensures Handle(Noop, selection, launch) == Refresh(false)
  {
  }

  /** A fresh static matcher has no children, so it yields nothing. */
  lemma NewYieldsNothing(input: seq<string>)
    ensures StaticMatches(New(), input) == []
  {
  }

  /** On an exact match the first such child decides: its own non-empty
      result is returned as it stands, with no cap, and otherwise its key
      alone. */
  lemma ExactMatchDescends(s: StaticMatcher, input: seq<string>, i: nat)
    requires i < |s.children| && IsExact(s.children[i], Head(input))
    requires forall j :: 0 <= j < i ==> !IsExact(s.children[j], Head(input))
    ensures var sub := Matches(s.children[i].matcher, Rest(input));
      StaticMatches(s, input) == if |sub| > 0 then sub else [s.children[i].key]
  {
    assert FirstExact(s.children, Head(input)) == Some(i);
  }

  lemma KeysContainingSnoc(children: seq<Child>, i: nat, head: string)
    requires i < |children|
    ensures KeysContaining(children[..i + 1], head)
         == KeysContaining(children[..i], head) + (if HasHead(children[i], head) then [children[i].key] else [])
  {
    assert children[..i + 1][..i] == children[..i];
  }

  /** Without an exact match the result is the capped listing. */
  lemma NoExactMatchTruncates(s: StaticMatcher, input: seq<string>)
    requires forall j :: 0 <= j < |s.children| ==> !IsExact(s.children[j], Head(input))
    ensures StaticMatches(s, input) == Truncate(KeysContaining(s.children, Head(input)), s.maxResults)
  {
    assert FirstExact(s.children, Head(input)).None?;
  }

  /** Of two children with the same title (ignoring case), the later one is
      never the one descended into. */
  lemma DuplicateTitleFirstWins(children: seq<Child>, i: nat, j: nat, head: string)
    requires i < j < |children|
    requires ToLower(children[i].key.title) == ToLower(children[j].key.title)
    ensures FirstExact(children, head) != Some(j)
  {
  }

  /** Children added after an exactly matching one change nothing, and
      neither does the cap. */
  lemma LaterChildrenIgnored(s: StaticMatcher, extra: seq<Child>, cap: nat, input: seq<string>)
    requires FirstExact(s.children, Head(input)).Some?
    ensures StaticMatches(StaticMatcher(s.children + extra, cap), input) == StaticMatches(s, input)
  {
    var i := FirstExact(s.children, Head(input)).value;
    var cs := s.children + extra;
    assert cs[i] == s.children[i];
    assert forall j :: 0 <= j < i ==> cs[j] == s.children[j];
    assert FirstExact(cs, Head(input)) == Some(i);
  }

  /** `with_child` keeps the result of an input that already descends. */
  lemma WithChildKeepsExactResult(s: StaticMatcher, key: SimpleMatch, child: Matcher, input: seq<string>)
    requires FirstExact(s.children, Head(input)).Some?
    ensures StaticMatches(WithChild(s, key, child), input) == StaticMatches(s, input)
  {
    LaterChildrenIgnored(s, [Child(key, child)], s.maxResults, input);
    assert WithChild(s, key, child) == StaticMatcher(s.children + [Child(key, child)], s.maxResults);
  }

  /** `with_max_results` does not affect an input that descends. */
  lemma WithMaxResultsKeepsExactResult(s: StaticMatcher, max: nat, input: seq<string>)
    requires FirstExact(s.children, Head(input)).Some?
    ensures StaticMatches(WithMaxResults(s, max), input) == StaticMatches(s, input)
  {
    LaterChildrenIgnored(s, [], max, input);
    assert s.children + [] == s.children;
  }

  /** Filtering distributes over concatenation: the keys come out in
      insertion order. */
  lemma {:induction false} KeysContainingAppend(a: seq<Child>, b: seq<Child>, head: string)
    ensures KeysContaining(a + b, head) == KeysContaining(a, head) + KeysContaining(b, head)
    decreases |b|
  {
    if |b| > 0 {
      var ab := a + b;
      assert ab[..|ab| - 1] == a + b[..|b| - 1];
      assert ab[|ab| - 1] == b[|b| - 1];
      KeysContainingAppend(a, b[..|b| - 1], head);
    } else {
      assert a + b == a;
    }
  }

  /** A key is listed exactly when some child with that key contains the
      head. */
  lemma {:induction false} KeysContainingMembers(children: seq<Child>, head: string, k: SimpleMatch)
    ensures k in KeysContaining(children, head) <==>
      exists j :: 0 <= j < |children| && children[j].key == k && HasHead(children[j], head)
  {
    if |children| > 0 {
      var init := children[..|children| - 1];
      KeysContainingMembers(init, head, k);
      if k in KeysContaining(children, head) && k !in KeysContaining(init, head) {
        var j := |children| - 1;
        assert children[j].key == k && HasHead(children[j], head);
      }
      if exists j :: 0 <= j < |children| && children[j].key == k && HasHead(children[j], head) {
        var j :| 0 <= j < |children| && children[j].key == k && HasHead(children[j], head);
        if j < |children| - 1 {
          assert init[j] == children[j];
        }
      }
    }
  }

  /** `with_child` appends the new key to the listing when its title
      contains the head. */
  lemma WithChildListing(s: StaticMatcher, key: SimpleMatch, child: Matcher, head: string)
    ensures KeysContaining(WithChild(s, key, child).children, head) ==
      KeysContaining(s.children, head) + (if HasHead(Child(key, child), head) then [key] else [])
  {
    var cs := WithChild(s, key, child).children;
    assert cs[..|cs| - 1] == s.children;
  }

  /** Without an exact match the result is the filtered keys in insertion
      order, cut to the cap: never longer than the cap, and a prefix of the
      listing. */
  lemma NoExactMatchLists(s: StaticMatcher, input: seq<string>)
    requires FirstExact(s.children, Head(input)).None?
    ensures var all := KeysContaining(s.children, Head(input));
      var r := StaticMatches(s, input);
      |r| <= s.maxResults && |r| == (if |all| <= s.maxResults then |all| else s.maxResults)
      && r == all[..|r|]
  {
  }

  /** Without an exact match the tokens after the head are ignored. */
  lemma NoExactMatchIgnoresRest(s: StaticMatcher, head: string, rest: seq<string>)
    requires FirstExact(s.children, head).None?
    ensures StaticMatches(s, [head] + rest) == StaticMatches(s, [head])
  {
    assert Head([head] + rest) == head && Head([head]) == head;
  }

  lemma LowerEmpty(t: string)
    ensures ToLower(t) == "" <==> t == ""
  {
  }

  /** Every child contains the empty head. */
  lemma {:induction false} KeysContainingEmpty(children: seq<Child>)
    ensures KeysContaining(children, "") == Keys(children)
  {
    if |children| > 0 {
      var last := children[|children| - 1];
      ContainsEmpty(ToLower(last.key.title));
      assert ToLower("") == "";
      assert HasHead(last, "");
      KeysContainingEmpty(children[..|children| - 1]);
    }
  }

  /** The empty input lists every key in order, capped, when no child has an
      empty title. */
  lemma EmptyInputListsAllKeys(s: StaticMatcher)
    requires forall j :: 0 <= j < |s.children| ==> s.children[j].key.title != ""
    ensures StaticMatches(s, []) == Truncate(Keys(s.children), s.maxResults)
  {
    forall j | 0 <= j < |s.children|
      ensures !IsExact(s.children[j], "")
    {
      LowerEmpty(s.children[j].key.title);
    }
    assert FirstExact(s.children, "").None?;
    KeysContainingEmpty(s.children);
  }

  /** An exact match can return more than the cap: a cap of one over a
      child with two entries of its own. */
  lemma ExactResultIsNotCapped()
    ensures var inner := StaticMatcher([Child(SimpleMatch("day", "", ""), Noop),
                                        Child(SimpleMatch("week", "", ""), Noop)], 1000);
      var outer := StaticMatcher([Child(SimpleMatch("report", "", ""), Static(inner))], 1);
      |StaticMatches(outer, ["report"])| == 2
  {
    var inner := StaticMatcher([Child(SimpleMatch("day", "", ""), Noop),
                                Child(SimpleMatch("week", "", ""), Noop)], 1000);
    var outer := StaticMatcher([Child(SimpleMatch("report", "", ""), Static(inner))], 1);
    assert IsExact(outer.children[0], "report");
    assert FirstExact(outer.children, "report") == Some(0);
    assert Rest(["report"]) == [];
    ContainsEmpty("day");
    ContainsEmpty("week");
    EmptyInputListsAllKeys(inner);
  }

  // ---------------------------------------------------------------------
  // Properties of `handle`
  // ---------------------------------------------------------------------

  /** An `exec|` description closes when the command launches and refreshes
      when it cannot; the tag is checked before `copy|`. */
  lemma HandleExec(selection: SimpleMatch, launch: string -> bool)
    requires StartsWith(selection.description, ExecTag)
    ensures var command := TrimStartMatches(selection.description, ExecTag);
      StaticHandle(selection, launch) == if launch(command) then Close else Refresh(false)
  {
  }

  /** A description made of `copy|` at least once, then the payload,
      starts with `copy|` and not with `exec|`. */
  lemma CopyTagged(k: nat, payload: string)
    ensures StartsWith(Repeat(CopyTag, k + 1) + payload, CopyTag)
    ensures !StartsWith(Repeat(CopyTag, k + 1) + payload, ExecTag)
  {
    var d := Repeat(CopyTag, k + 1) + payload;
    assert Repeat(CopyTag, k + 1) == CopyTag + Repeat(CopyTag, k);
    AppendAssoc(CopyTag, Repeat(CopyTag, k), payload);
    assert d[..5] == CopyTag;
    assert d[0] == 'c';
  }

  /** A `copy|` description copies the UTF-8 bytes of what is left after
      every leading `copy|` is removed. */
  lemma HandleCopy(k: nat, payload: string, title: string, icon: string, launch: string -> bool)
    requires !StartsWith(payload, CopyTag)
    ensures StaticHandle(SimpleMatch(title, icon, Repeat(CopyTag, k + 1) + payload), launch) ==
      Copy(Utf8(payload))
  {
    CopyTagged(k, payload);
    TrimStartMatchesRepeat(CopyTag, k + 1, payload);
    assert TrimStartMatches(payload, CopyTag) == payload;
  }

  /** A description with neither tag, the empty one among them, refreshes. */
  lemma HandleOther(selection: SimpleMatch, launch: string -> bool)
    requires !StartsWith(selection.description, ExecTag) && !StartsWith(selection.description, CopyTag)
    ensures StaticHandle(selection, launch) == Refresh(false)
  {
  }

  lemma HelloLiterals()
    ensures "copy|hello" == Repeat(CopyTag, 0 + 1) + "hello"
    ensures !StartsWith("hello", CopyTag)
  {
    assert "hello"[0] != 'c';
  }

  lemma HelloBytes()
    ensures Utf8("hello") == [104, 101, 108, 108, 111]
  {
    Utf8Ascii("hello");
  }

  /** `copy|hello` copies exactly the bytes of `hello`. */
  lemma HandleCopyHello(launch: string -> bool)
    ensures StaticHandle(SimpleMatch("", "", "copy|hello"), launch) == Copy([104, 101, 108, 108, 111])
  {
    HelloLiterals();
    HandleCopy(0, "hello", "", "", launch);
    HelloBytes();
  }

  /** The leaf handlers close on every selection. */
  lemma LeavesClose(t: string, i: string, d: string, c: string, o: CommandOutput,
                    selection: SimpleMatch, launch: string -> bool)
    ensures Handle(Display(t, i, d), selection, launch) == Close
    ensures Handle(Wildcard(t, i, d), selection, launch) == Close
    ensures Handle(CommandDisplay(c, o), selection, launch) == Close
  {
  }
}
