/**
 * The part of Python's `pathlib` (POSIX flavour) that the helper script uses.
 * A path is an anchor ("" for a relative path, "/" for an absolute one) and
 * its sequence of component names; `pathlib` never keeps "" or "." as a
 * component.
 */
module PurePaths {
  import opened Wrappers
  import opened Text

  datatype Path = Path(anchor: string, names: seq<string>)

  /** `p.name`: the final component, or "" for an anchor alone or ".". */
  function Name(p: Path): string {
    if p.names == [] then "" else p.names[|p.names| - 1]
  }

  /** The name has a suffix: its last dot is neither its first nor its last character. */
  predicate HasSuffix(name: string) {
    var i := RFind(name, '.');
    0 < i < |name| - 1
  }

  /**
   * The suffix of a file name: from its last dot to its end, when that dot is
   * neither the first nor the last character, and "" otherwise.
   */
  function SuffixOf(name: string): string {
    var i := RFind(name, '.');
    if 0 < i < |name| - 1 then name[i..] else ""
  }

  /** The stem of a file name: the name without its suffix. */
  function StemOf(name: string): string {
    var i := RFind(name, '.');
    if 0 < i < |name| - 1 then name[..i] else name
  }

  /**
   * A name has a suffix exactly when its last dot is neither its first nor its
   * last character; the suffix starts with that dot and holds no other, and
   * the stem followed by the suffix is the name.
   */
  lemma SuffixOfSpec(name: string)
    ensures var r := SuffixOf(name);
      && (HasSuffix(name) <==> r != [])
      && (r != [] ==> |r| >= 2 && r[0] == '.' && '.' !in r[1..])
      && StemOf(name) + r == name
  {
    var i := RFind(name, '.');
    RFindSpec(name, '.');
    if 0 < i < |name| - 1 {
      assert forall k :: 0 <= k < |name[i..]| - 1 ==> name[i..][1..][k] == name[i + 1 + k];
      assert name[..i] + name[i..] == name;
    }
  }

  /** `p.suffix` */
  function Suffix(p: Path): string { SuffixOf(Name(p)) }

  /** `p.stem` */
  function Stem(p: Path): string { StemOf(Name(p)) }

  /** `p / s` for a string `s` without a separator: "" and "." add no component. */
  function Join(p: Path, s: string): (r: Path)
    ensures s != "" && s != "." ==> Name(r) == s && Parent(r) == p
    ensures s == "" || s == "." ==> r == p
  {
    if s == "" || s == "." then p else Path(p.anchor, p.names + [s])
  }

  /** `p.parent`: an anchor alone (or ".") is its own parent. */
  function Parent(p: Path): Path {
    if p.names == [] then p else Path(p.anchor, p.names[..|p.names| - 1])
  }

  /** A suffix that `with_suffix` accepts and that holds no further dot. */
  predicate SimpleSuffix(s: string) {
    |s| >= 2 && s[0] == '.' && '.' !in s[1..]
  }

  /**
   * `p.with_suffix(s)`: replaces the suffix of the final component by `s`, or
   * appends `s` when it has none; None stands for the ValueError raised when
   * the path has an empty name. Python refuses a suffix that does not start
   * with a dot or is "." alone.
   */
  function WithSuffix(p: Path, s: string): (r: Option<Path>)
    requires |s| >= 2 && s[0] == '.'
    ensures r.None? <==> Name(p) == ""
    ensures r.Some? ==> Parent(r.value) == Parent(p) && Name(r.value) == Stem(p) + s
  {
    if Name(p) == "" then None
    else Some(Path(p.anchor, p.names[..|p.names| - 1] + [Stem(p) + s]))
  }

  /** A path with a name is its parent extended by that name. */
  lemma ParentAndName(p: Path)
    requires Name(p) != ""
    ensures p == Path(Parent(p).anchor, Parent(p).names + [Name(p)])
  {
    assert p.names == p.names[..|p.names| - 1] + [p.names[|p.names| - 1]];
  }

  /** A path whose parent is the one-name directory `dir` is `dir / name`. */
  lemma InDirectory(p: Path, dir: string, name: string)
    requires Parent(p) == Path("", [dir]) && Name(p) == name && name != ""
    ensures p == Path("", [dir, name])
  {
    ParentAndName(p);
    assert [dir] + [name] == [dir, name];
  }

  /** A non-empty name has a non-empty stem. */
  lemma StemNonEmpty(name: string)
    requires name != ""
    ensures StemOf(name) != ""
  {
  }

  /** A name with no dot has no suffix and is its own stem. */
  lemma NoDotNoSuffix(name: string)
    requires '.' !in name
    ensures SuffixOf(name) == "" && StemOf(name) == name
  {
    RFindSpec(name, '.');
  }

  /** Appending a simple suffix to a non-empty stem gives a name with that stem and suffix. */
  lemma {:induction false} StemSuffixOfAppend(stem: string, s: string)
    requires SimpleSuffix(s) && stem != ""
    ensures StemOf(stem + s) == stem && SuffixOf(stem + s) == s
  {
    var name := stem + s;
    var i := RFind(name, '.');
    RFindSpec(name, '.');
    assert name[|stem|] == '.';
    assert i == |stem| by {
      assert forall k :: |stem| < k < |name| ==> name[k] == s[1..][k - |stem| - 1];
    }
    assert name[i..] == s;
    assert name[..i] == stem;
  }

  /**
   * After `with_suffix(s)` the path's suffix is `s` and its stem is the old
   * stem: the old suffix is gone, whatever it was.
   */
  lemma WithSuffixSuffix(p: Path, s: string)
    requires SimpleSuffix(s) && Name(p) != ""
    ensures var q := WithSuffix(p, s).value; Suffix(q) == s && Stem(q) == Stem(p)
  {
    StemNonEmpty(Name(p));
    StemSuffixOfAppend(Stem(p), s);
  }
}
