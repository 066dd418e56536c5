/** The string operations of std::string and Boost that RRCP text processing relies on.
    A C++ `char` is a Dafny `char` below 256; nothing here depends on the upper bound. */
module Text {
  datatype Option<+T> = None | Some(value: T)

  predicate OccursAt(t: string, s: string, i: nat) {
    i + |t| <= |s| && s[i..i + |t|] == t
  }

  ghost predicate Occurs(t: string, s: string) {
    exists i: nat :: OccursAt(t, s, i)
  }

  /** `s.find(t, from)`: the first occurrence at or after `from`. */
  function Find(s: string, t: string, from: nat := 0): (r: Option<nat>)
    requires from <= |s|
    ensures r.Some? ==> from <= r.value && OccursAt(t, s, r.value)
    ensures r.Some? ==> forall j: nat :: from <= j < r.value ==> !OccursAt(t, s, j)
    ensures r.None? ==> forall j: nat :: from <= j ==> !OccursAt(t, s, j)
    decreases |s| - from
  {
    if OccursAt(t, s, from) then Some(from)
    else if from == |s| then None
    else Find(s, t, from + 1)
  }

  /** `s.find_first_of(cs, from)`, with the length of `s` standing for npos. */
  function FindFirstOf(s: string, cs: set<char>, from: nat := 0): (r: nat)
    requires from <= |s|
    ensures from <= r <= |s|
    ensures r < |s| ==> s[r] in cs
    ensures forall j :: from <= j < r ==> s[j] !in cs
    decreases |s| - from
  {
    if from == |s| || s[from] in cs then from else FindFirstOf(s, cs, from + 1)
  }

  predicate StartsWith(s: string, t: string) {
    t <= s
  }

  /** std::isspace in the classic locale. */
  predicate IsSpace(c: char) {
    c in {' ', '\t', '\n', '\r', '\U{000B}', '\U{000C}'}
  }

  /** boost::trim_left: drops the blanks in front, and only those. */
  function TrimLeft(s: string): (r: string)
    ensures |r| <= |s| && s[|s| - |r|..] == r
    ensures forall i :: 0 <= i < |s| - |r| ==> IsSpace(s[i])
    ensures r != [] ==> !IsSpace(r[0])
  {
    if s != [] && IsSpace(s[0]) then TrimLeft(s[1..]) else s
  }

  /** boost::trim_right: drops the blanks at the end, and only those. */
  function TrimRight(s: string): (r: string)
    ensures r <= s
    ensures forall i :: |r| <= i < |s| ==> IsSpace(s[i])
    ensures r != [] ==> !IsSpace(r[|r| - 1])
  {
    if s != [] && IsSpace(s[|s| - 1]) then TrimRight(s[..|s| - 1]) else s
  }
}
