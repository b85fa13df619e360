/** The string operations the project content relies on. */
module Strings {

  /** Index of the first occurrence of `c` in `s`, or -1 when there is none. */
  function IndexOf(s: string, c: char): (i: int)
    ensures -1 <= i < |s|
    ensures i == -1 <==> c !in s
    ensures 0 <= i ==> s[i] == c && forall k :: 0 <= k < i ==> s[k] != c
  {
    if s == [] then -1
    else if s[0] == c then 0
    else
      var j := IndexOf(s[1..], c);
      if j == -1 then -1 else j + 1
  }

  /**
   * The short assembly name: the part of a full assembly name before its
   * first comma, or the whole full name when it has no comma.
   */
  function ShortAssemblyName(fullName: string): (r: string)
    ensures ',' !in r
    ensures |r| <= |fullName| && fullName[..|r|] == r
    ensures r == fullName || fullName[|r|] == ','
  {
    var i := IndexOf(fullName, ',');
    if i > -1 then fullName[..i] else fullName
  }

  /** A display name "Name, Version=…, …" yields exactly its leading simple name. */
  lemma ShortNameOfDisplayName(simple: string, details: string)
    requires ',' !in simple
    ensures ShortAssemblyName(simple + "," + details) == simple
  {
    var full := simple + "," + details;
    assert full[|simple|] == ',';
    assert full[..|simple|] == simple;
  }
}
