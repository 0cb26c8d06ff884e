/** The candidate values of the matcher crate (matcher/src/lib.rs) and the
    launcher types they are converted to and from. */
module Candidates {

  newtype u8 = x: int | 0 <= x < 0x100
  newtype u64 = x: int | 0 <= x < 0x1_0000_0000_0000_0000

  /** `SimpleMatch`: a title, an icon name (`""` for none) and a
      description that may carry an `exec|` or `copy|` action tag.
      `SimpleMatch::new` is this constructor, and the derived equality is
      the structural equality of the datatype. */
  datatype SimpleMatch = SimpleMatch(title: string, icon: string, description: string)

  /** The launcher's `ROption`. */
  datatype ROption<T> = RNone | RSome(value: T)

  /** The launcher's `Match`. */
  datatype Match = Match(
    title: string,
    icon: ROption<string>,
    description: ROption<string>,
    usePango: bool,
    id: ROption<u64>)

  /** The launcher's `HandleResult`: end the interaction, re-run the query,
      or hand bytes back to be copied. */
  datatype HandleResult = Close | Refresh(flag: bool) | Copy(bytes: seq<u8>)

  /** `String::unwrap_or_default` on an `ROption<String>`. */
  function UnwrapOrEmpty(o: ROption<string>): (r: string)
    ensures o.RSome? ==> r == o.value
    ensures o.RNone? ==> r == ""
  {
    match o
    case RNone => ""
    case RSome(v) => v
  }

  /** An empty string is "absent". */
  function NonEmptyOrNone(s: string): (r: ROption<string>)
    ensures r.RSome? <==> s != ""
    ensures r.RSome? ==> r.value == s
  {
    if s == "" then RNone else RSome(s)
  }

  /** `impl From<SimpleMatch> for Match`. */
  function ToMatch(m: SimpleMatch): (r: Match)
    ensures r.title == m.title && !r.usePango && r.id == RNone
    ensures r.icon.RSome? <==> m.icon != ""
    ensures r.description.RSome? <==> m.description != ""
  {
    Match(m.title, NonEmptyOrNone(m.icon), NonEmptyOrNone(m.description), false, RNone)
  }

  /** `impl From<Match> for SimpleMatch`. */
  function FromMatch(m: Match): (r: SimpleMatch)
    ensures r.title == m.title
    ensures r.icon == UnwrapOrEmpty(m.icon) && r.description == UnwrapOrEmpty(m.description)
  {
    SimpleMatch(m.title, UnwrapOrEmpty(m.icon), UnwrapOrEmpty(m.description))
  }

  /** A candidate survives the trip to the launcher and back unchanged. */
  lemma SimpleMatchRoundTrip(m: SimpleMatch)
    ensures FromMatch(ToMatch(m)) == m
  {
  }

  /** A launcher match survives the trip through `SimpleMatch` exactly when
      it carries no empty-but-present icon or description, no markup flag
      and no id. */
  lemma MatchRoundTrip(m: Match)
    ensures ToMatch(FromMatch(m)) == m <==>
      (m.icon != RSome("") && m.description != RSome("") && !m.usePango && m.id == RNone)
  {
    var back := ToMatch(FromMatch(m));
    if m.icon == RSome("") {
      assert back.icon == RNone;
    }
    if m.description == RSome("") {
      assert back.description == RNone;
    }
  }

  // ---------------------------------------------------------------------
  // `str::as_bytes`: the UTF-8 encoding of a string
  // ---------------------------------------------------------------------

  /** The UTF-8 encoding of one Unicode scalar value. */
  function Utf8Char(c: char): (r: seq<u8>)
    ensures 1 <= |r| <= 4
    ensures (c as int < 0x80) <==> |r| == 1
    ensures c as int < 0x80 ==> r[0] as int == c as int
  {
    var n := c as int;
    if n < 0x80 then [n as u8]
    else if n < 0x800 then [(0xC0 + n / 0x40) as u8, (0x80 + n % 0x40) as u8]
    else if n < 0x1_0000 then
      [(0xE0 + n / 0x1000) as u8, (0x80 + (n / 0x40) % 0x40) as u8, (0x80 + n % 0x40) as u8]
    else
      [(0xF0 + n / 0x4_0000) as u8, (0x80 + (n / 0x1000) % 0x40) as u8,
       (0x80 + (n / 0x40) % 0x40) as u8, (0x80 + n % 0x40) as u8]
  }

  /** `str::as_bytes`. */
  function Utf8(s: string): (r: seq<u8>)
    ensures |r| >= |s|
  {
    if |s| == 0 then [] else Utf8Char(s[0]) + Utf8(s[1..])
  }

  /** An ASCII string is encoded one byte per character, each byte the
      character's code. */
  lemma {:induction false} Utf8Ascii(s: string)
    requires forall i :: 0 <= i < |s| ==> s[i] as int < 0x80
    ensures |Utf8(s)| == |s|
    ensures forall i :: 0 <= i < |s| ==> Utf8(s)[i] as int == s[i] as int
  {
    if |s| > 0 {
      Utf8Ascii(s[1..]);
      assert Utf8(s) == [s[0] as int as u8] + Utf8(s[1..]);
    }
  }
}
