/** Text operations of the runtimes that several modules use. */
module Strings {
  function IndexOf(s: string, c: char): (i: nat)
    ensures i <= |s| && (forall j :: 0 <= j < i ==> s[j] != c) && (i < |s| ==> s[i] == c)
  {
    if s == "" || s[0] == c then 0 else 1 + IndexOf(s[1..], c)
  }

  function StripStart(s: string, drop: char -> bool): (r: string)
    ensures |r| <= |s|
  {
    if s != "" && drop(s[0]) then StripStart(s[1..], drop) else s
  }

  function StripEnd(s: string, drop: char -> bool): (r: string)
    ensures |r| <= |s|
  {
    if s != "" && drop(s[|s| - 1]) then StripEnd(s[..|s| - 1], drop) else s
  }

  /** `trim` and `strip`: without the leading and trailing characters to drop. */
  function Strip(s: string, drop: char -> bool): (r: string)
    ensures |r| <= |s|
  {
    StripEnd(StripStart(s, drop), drop)
  }

  function Join(parts: seq<string>, separator: string): string {
    if parts == [] then ""
    else if |parts| == 1 then parts[0]
    else Join(parts[..|parts| - 1], separator) + separator + parts[|parts| - 1]
  }

  lemma {:induction false} JoinFront(parts: seq<string>, separator: string)
    requires |parts| >= 2
    ensures Join(parts, separator) == parts[0] + separator + Join(parts[1..], separator)
  {
    var n := |parts| - 1;
    if n > 1 {
      JoinFront(parts[..n], separator);
      assert parts[..n][1..] == parts[1..][..n - 1];
      assert Join(parts[1..], separator) == Join(parts[..n][1..], separator) + separator + parts[n];
    } else {
      assert parts[..1] == [parts[0]] && parts[1..] == [parts[1]];
    }
  }

  predicate Distinct(s: seq<string>) { forall i, j :: 0 <= i < j < |s| ==> s[i] != s[j] }
}
