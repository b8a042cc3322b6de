/** Paths as pathlib sees them on a POSIX system: an anchor and a list of
    components, compared component by component (case-sensitive). */
module Paths {

  datatype Path = Path(anchor: string, components: seq<string>) {

    /** `p.parent`: the anchor is its own parent. */
    function Parent(): Path {
      if |components| == 0 then this else Path(anchor, components[..|components| - 1])
    }

    /** `p.name`: the last component, empty for a bare anchor. */
    function Name(): string {
      if |components| == 0 then "" else components[|components| - 1]
    }

    /** `p / name` for a single component `name`. */
    function Join(name: string): (p: Path)
      ensures p.Parent() == this && p.Name() == name
      ensures p != this
    {
      Path(anchor, components + [name])
    }

    function Suffix(): string { SuffixOf(Name()) }

    function Stem(): string { StemOf(Name()) }
  }

  /** `name.rfind('.')`: the index of the last dot, or -1. */
  function LastDot(name: string): (i: int)
    ensures -1 <= i < |name|
    ensures 0 <= i ==> name[i] == '.'
    ensures forall j :: i < j < |name| ==> name[j] != '.'
  {
    if |name| == 0 then -1
    else if name[|name| - 1] == '.' then |name| - 1
    else LastDot(name[..|name| - 1])
  }

  /** pathlib's `suffix`: from the last dot on, unless that dot starts or ends the name. */
  function SuffixOf(name: string): string {
    var i := LastDot(name);
    if 0 < i < |name| - 1 then name[i..] else ""
  }

  /** pathlib's `stem`: the name without its suffix. */
  function StemOf(name: string): string {
    var i := LastDot(name);
    if 0 < i < |name| - 1 then name[..i] else name
  }

  /** A name splits into its stem and its suffix. */
  lemma StemAndSuffix(name: string)
    ensures StemOf(name) + SuffixOf(name) == name
  {
    var i := LastDot(name);
    if 0 < i < |name| - 1 {
      assert name[..i] + name[i..] == name;
    }
  }

  /** A suffix is empty, or a dot followed by at least one character and no other dot. */
  predicate IsSuffixShape(s: string) {
    s == [] || (|s| >= 2 && s[0] == '.' && forall j :: 0 < j < |s| ==> s[j] != '.')
  }

  lemma SuffixShape(name: string)
    ensures IsSuffixShape(SuffixOf(name))
  {
  }

  /** Gluing a non-empty stem to a well-formed suffix gives back both parts:
      this is why a renamed file keeps its source's suffix, in the source's case. */
  lemma {:induction false} StemSuffixOfJoined(stem: string, suffix: string)
    requires stem != [] && suffix != [] && IsSuffixShape(suffix)
    ensures SuffixOf(stem + suffix) == suffix
    ensures StemOf(stem + suffix) == stem
  {
    var name := stem + suffix;
    LastDotAfter(name, |stem|);
    assert name[|stem|..] == suffix;
    assert name[..|stem|] == stem;
  }

  /** The last dot of a name whose only dot from index k on is at k. */
  lemma {:induction false} LastDotAfter(name: string, k: nat)
    requires k < |name| && name[k] == '.'
    requires forall j :: k < j < |name| ==> name[j] != '.'
    ensures LastDot(name) == k
  {
    if |name| - 1 != k {
      LastDotAfter(name[..|name| - 1], k);
    }
  }

  /** A non-empty suffix leaves a non-empty stem. */
  lemma StemOfSuffixed(name: string)
    requires SuffixOf(name) != []
    ensures StemOf(name) != []
  {
  }

  function LowerChar(c: char): char {
    if 'A' <= c <= 'Z' then (c as int + 32) as char else c
  }

  /** `str.lower()` on ASCII letters; every extension below is ASCII. */
  function Lower(s: string): (r: string)
    ensures |r| == |s|
  {
    seq(|s|, i requires 0 <= i < |s| => LowerChar(s[i]))
  }

  const RawExtensions: set<string> :=
    {".cr2", ".nef", ".arw", ".dng", ".raf", ".orf", ".rw2", ".pef", ".srw"}

  const JpgExtensions: set<string> := {".jpg", ".jpeg"}

  const LogSuffix: string := ".json"
}
