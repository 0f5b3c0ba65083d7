/** String rewrites used when displaying a profile and the per-format stat cards. */
module Text {
  import opened Wrappers

  function LowerChar(c: char): char {
    if 'A' <= c <= 'Z' then (c as int + 32) as char else c
  }

  function UpperChar(c: char): char {
    if 'a' <= c <= 'z' then (c as int - 32) as char else c
  }

  /** `String.prototype.toLowerCase`, on the ASCII letters. */
  function Lower(s: string): (r: string)
    ensures |r| == |s|
    ensures forall i :: 0 <= i < |s| ==> r[i] == LowerChar(s[i])
  {
    if s == [] then [] else [LowerChar(s[0])] + Lower(s[1..])
  }

  /** `String.prototype.toUpperCase`, on the ASCII letters. */
  function Upper(s: string): (r: string)
    ensures |r| == |s|
    ensures forall i :: 0 <= i < |s| ==> r[i] == UpperChar(s[i])
  {
    if s == [] then [] else [UpperChar(s[0])] + Upper(s[1..])
  }

  const ChessPrefix: string := "chess_"

  /** `key.replace(/^chess_/, '')`: drops one leading "chess_", if present. */
  function StripChessPrefix(key: string): (r: string)
    ensures ChessPrefix <= key ==> key == ChessPrefix + r
    ensures !(ChessPrefix <= key) ==> r == key
    ensures |r| == |key| - (if ChessPrefix <= key then |ChessPrefix| else 0)
  {
    if ChessPrefix <= key then key[|ChessPrefix|..] else key
  }

  /** How a label shows one character of a key: an underscore as a space. */
  function Shown(c: char): char {
    if c == '_' then ' ' else c
  }

  /** `.replace(/_/g, ' ')`: every underscore becomes a space. */
  function UnderscoresToSpaces(s: string): (r: string)
    ensures |r| == |s|
    ensures '_' !in r
    ensures forall i :: 0 <= i < |s| ==> r[i] == Shown(s[i])
  {
    if s == [] then [] else [Shown(s[0])] + UnderscoresToSpaces(s[1..])
  }

  /** The heading of a stat card: the stats key with its "chess_" prefix
      removed and underscores shown as spaces ("chess_rapid" gives "rapid",
      "tactics" stays "tactics"). */
  function StatLabel(key: string): (r: string)
    ensures '_' !in r
    ensures |r| == |key| - (if ChessPrefix <= key then |ChessPrefix| else 0)
  {
    UnderscoresToSpaces(StripChessPrefix(key))
  }

  /** The label shows the last characters of the key, one for one. */
  lemma StatLabelShowsKey(key: string)
    ensures var r := StatLabel(key);
      forall i :: 0 <= i < |r| ==> r[i] == Shown(key[|key| - |r| + i])
  {
    var rest := StripChessPrefix(key);
    assert rest == key[|key| - |rest|..];
    assert StatLabel(key) == UnderscoresToSpaces(rest);
  }

  /** `s.split('/').pop()`: the text after the last '/', or all of `s` when it
      has none. */
  function LastSegment(s: string): (r: string)
    ensures '/' !in r
    ensures |r| <= |s| && r == s[|s| - |r|..]
    ensures |r| < |s| ==> s[|s| - |r| - 1] == '/'
  {
    if s == [] then []
    else if s[|s| - 1] == '/' then []
    else
      var p := LastSegment(s[..|s| - 1]);
      assert s[..|s| - 1][|s| - 1 - |p|..] + [s[|s| - 1]] == s[|s| - 1 - |p|..];
      p + [s[|s| - 1]]
  }

  /** The country shown on a profile: the last path segment of the country
      URL, upper-cased, or "N/A" when the profile has no country. */
  function CountryText(country: Option<string>): (r: string)
    ensures !Truthy(country) ==> r == "N/A"
    ensures Truthy(country) ==> |r| == |LastSegment(country.value)| && '/' !in r
    ensures Truthy(country) ==> r == Upper(LastSegment(country.value))
  {
    if Truthy(country) then Upper(LastSegment(country.value)) else "N/A"
  }
}
