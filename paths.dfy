/**
 * The Windows path operations the launcher applies to configured paths: `is_absolute`,
 * joining a relative path to the launcher's directory, and the last component's
 * `name`, `stem` and `suffix` as Windows `pathlib` defines them in Python 3.12 and 3.13.
 */
module Paths {

  predicate IsSep(c: char) {
    c == '\\' || c == '/'
  }

  /**
   * A path with a drive and a root, such as `C:\Games` or `d:/x`. As on Windows `pathlib`, any
   * character other than a separator followed by `:` is a drive, so `1:\x` is absolute too.
   */
  predicate IsAbsolute(p: string) {
    |p| >= 3 && !IsSep(p[0]) && p[1] == ':' && IsSep(p[2])
  }

  /** `base / rel` for a relative `rel`; the empty path stands for `.` and adds nothing. */
  function Join(base: string, rel: string): string {
    if rel == [] then base else base + ['\\'] + rel
  }

  /** A configured path: kept when absolute, otherwise taken relative to `base`. */
  function Resolve(base: string, p: string): string {
    if IsAbsolute(p) then p else Join(base, p)
  }

  /** The last component: the text after the last separator. */
  function Name(p: string): string
    decreases |p|
  {
    if p == [] || IsSep(p[|p| - 1]) then [] else Name(p[..|p| - 1]) + [p[|p| - 1]]
  }

  /** The index of the last `c` in `s` (`s.rfind(c)`), or -1 when `c` does not occur. */
  function LastIndexOf(s: string, c: char): (i: int)
    ensures -1 <= i < |s|
    ensures i >= 0 ==> s[i] == c
    ensures forall j :: i < j < |s| ==> s[j] != c
    decreases |s|
  {
    if s == [] then -1 else if s[|s| - 1] == c then |s| - 1 else LastIndexOf(s[..|s| - 1], c)
  }

  /** Whether the last dot of a name separates a stem from a suffix (not first, not last). */
  predicate HasSuffix(name: string) {
    var i := LastIndexOf(name, '.');
    0 < i < |name| - 1
  }

  function SuffixOf(name: string): string {
    if HasSuffix(name) then name[LastIndexOf(name, '.')..] else []
  }

  function StemOf(name: string): string {
    if HasSuffix(name) then name[..LastIndexOf(name, '.')] else name
  }

  /** `Path(p).suffix`. */
  function Suffix(p: string): string {
    SuffixOf(Name(p))
  }

  /** `Path(p).stem`. */
  function Stem(p: string): string {
    StemOf(Name(p))
  }

  /**
   * The name is the longest separator-free tail of the path: whatever comes before it is
   * empty or ends in a separator.
   */
  lemma {:induction false} NameFacts(p: string)
    ensures |Name(p)| <= |p|
    ensures Name(p) == p[|p| - |Name(p)|..]
    ensures forall i :: 0 <= i < |Name(p)| ==> !IsSep(Name(p)[i])
    ensures |Name(p)| < |p| ==> IsSep(p[|p| - |Name(p)| - 1])
    decreases |p|
  {
    if p != [] && !IsSep(p[|p| - 1]) {
      var init := p[..|p| - 1];
      NameFacts(init);
      var n := Name(init);
      assert Name(p) == n + [p[|p| - 1]];
      assert init[|init| - |n|..] + [p[|p| - 1]] == p[|p| - |n| - 1..];
    }
  }

  /** The name of a path ending in `<sep><rel>` is the name of `rel`. */
  lemma {:induction false} NameAfterSep(a: string, c: char, rel: string)
    requires IsSep(c)
    ensures Name(a + [c] + rel) == Name(rel)
    decreases |rel|
  {
    var p := a + [c] + rel;
    if rel != [] {
      var last := rel[|rel| - 1];
      assert p[|p| - 1] == last;
      assert p[..|p| - 1] == a + [c] + rel[..|rel| - 1];
      NameAfterSep(a, c, rel[..|rel| - 1]);
    }
  }

  /** The stem and the suffix split the name: `stem + suffix == name`. */
  lemma StemSuffixSplitName(p: string)
    ensures Stem(p) + Suffix(p) == Name(p)
    ensures Suffix(p) == [] || (|Suffix(p)| >= 2 && Suffix(p)[0] == '.' && Stem(p) != [])
    ensures forall i :: 0 < i < |Suffix(p)| ==> Suffix(p)[i] != '.'
  {
    var n := Name(p);
    if HasSuffix(n) {
      var i := LastIndexOf(n, '.');
      assert n[..i] + n[i..] == n;
      assert forall j :: 0 < j < |n[i..]| ==> n[i..][j] == n[i + j];
    }
  }

  /** Resolving against an absolute base gives an absolute path, and keeps absolute paths. */
  lemma ResolveAbsolute(base: string, p: string)
    requires IsAbsolute(base)
    ensures IsAbsolute(Resolve(base, p))
    ensures IsAbsolute(p) ==> Resolve(base, p) == p
    ensures !IsAbsolute(p) ==> Resolve(base, p)[..|base|] == base
  {
  }

  /** Resolving an already resolved path changes nothing. */
  lemma ResolveIdempotent(base: string, p: string)
    requires IsAbsolute(base)
    ensures Resolve(base, Resolve(base, p)) == Resolve(base, p)
  {
    ResolveAbsolute(base, p);
  }

  /** Joining a non-empty relative path keeps its name. */
  lemma NameOfJoin(base: string, rel: string)
    requires rel != []
    ensures Name(Join(base, rel)) == Name(rel)
  {
    NameAfterSep(base, '\\', rel);
  }

  /**
   * Resolution keeps the name, and with it the stem and the suffix: a non-empty path is
   * classified and named the same before and after it is resolved.
   */
  lemma ResolveKeepsName(base: string, p: string)
    requires p != []
    ensures Name(Resolve(base, p)) == Name(p)
    ensures Stem(Resolve(base, p)) == Stem(p) && Suffix(Resolve(base, p)) == Suffix(p)
  {
    if !IsAbsolute(p) {
      NameOfJoin(base, p);
    }
  }

  /**
   * The suffix starts at the last dot of the name, provided something precedes that dot and
   * something follows it: `stem.ext` has suffix `.ext` and stem `stem`.
   */
  lemma StemSuffixOfDotted(s: string, t: string)
    requires s != [] && t != [] && '.' !in t
    requires forall i :: 0 <= i < |s| ==> !IsSep(s[i])
    requires forall i :: 0 <= i < |t| ==> !IsSep(t[i])
    ensures Suffix(s + ['.'] + t) == ['.'] + t
    ensures Stem(s + ['.'] + t) == s
  {
    var p := s + ['.'] + t;
    NameFacts(p);
    forall j | 0 <= j < |p| ensures !IsSep(p[j]) {
      if j < |s| {
        assert p[j] == s[j];
      } else if j > |s| {
        assert p[j] == t[j - |s| - 1];
      }
    }
    assert p[0..] == p;
    var i := LastIndexOf(p, '.');
    assert p[|s|] == '.';
    assert forall j :: |s| < j < |p| ==> p[j] == t[j - |s| - 1];
    assert i == |s|;
    assert p[i..] == ['.'] + t;
    assert p[..i] == s;
  }
}
