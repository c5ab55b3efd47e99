/**
 The two Windows path helpers the program relies on (it ships `ffmpeg.exe`,
 so `os.path` is `ntpath`): splitting off an extension and joining a
 directory with a bare file name. Both `\` and `/` separate components.
 */
module Paths {
  import opened Strings

  /** A component separator: `\` or its alternative `/`. */
  predicate IsSep(c: char)
  {
    c == '\\' || c == '/'
  }

  predicate IsDot(c: char)
  {
    c == '.'
  }

  /** A bare file name: no separator and no drive colon, so joining it to a
      directory never discards the directory. */
  predicate IsFileName(name: string)
  {
    forall i :: 0 <= i < |name| ==> !IsSep(name[i]) && name[i] != ':'
  }

  /** Python's `s.rfind`: the last index whose character satisfies `p`, or -1. */
  function RFind(s: string, p: char -> bool): (r: int)
    ensures -1 <= r < |s|
    ensures r >= 0 ==> p(s[r])
    ensures forall i :: r < i < |s| ==> !p(s[i])
  {
    if s == [] then -1
    else if p(s[|s| - 1]) then |s| - 1
    else RFind(s[..|s| - 1], p)
  }

  /** The result of `os.path.splitext`. */
  datatype Parts = Parts(root: string, ext: string)

  /** Some character other than a dot. */
  predicate HasNonDot(s: string)
  {
    exists i :: 0 <= i < |s| && !IsDot(s[i])
  }

  /** The last component of a path (what follows the last separator). */
  function BaseName(p: string): (r: string)
    ensures r == p[RFind(p, IsSep) + 1..]
    ensures forall i :: 0 <= i < |r| ==> !IsSep(r[i])
  {
    p[RFind(p, IsSep) + 1..]
  }

  /** What `splitext` may return as an extension: nothing, or a dot followed
      by characters that are neither dots nor separators. */
  predicate IsExtension(ext: string)
  {
    ext == [] || (ext[0] == '.' && forall i :: 1 <= i < |ext| ==> !IsDot(ext[i]) && !IsSep(ext[i]))
  }

  /** `ntpath.splitext(p)`: the extension runs from the last dot of the last
      component, unless everything before that dot in the component is dots
      (so ".profile" and "..." have no extension). */
  function SplitExt(p: string): (r: Parts)
    ensures r.root + r.ext == p
    ensures IsExtension(r.ext)
  {
    var sepIndex := RFind(p, IsSep);
    var dotIndex := RFind(p, IsDot);
    if dotIndex > sepIndex && HasNonDot(p[sepIndex + 1..dotIndex]) then
      LastDotStartsExtension(p, sepIndex, dotIndex);
      Parts(p[..dotIndex], p[dotIndex..])
    else
      Parts(p, [])
  }

  /** From the last dot after the last separator to the end is an extension. */
  lemma LastDotStartsExtension(p: string, sepIndex: int, dotIndex: int)
    requires -1 <= sepIndex < dotIndex < |p|
    requires IsDot(p[dotIndex])
    requires forall i :: sepIndex < i < |p| ==> !IsSep(p[i])
    requires forall i :: dotIndex < i < |p| ==> !IsDot(p[i])
    ensures p[..dotIndex] + p[dotIndex..] == p
    ensures IsExtension(p[dotIndex..])
  {
    var ext := p[dotIndex..];
    assert forall i :: 0 <= i < |ext| ==> ext[i] == p[dotIndex + i];
  }

  /** Finding from the end in a concatenation looks in the right part first. */
  lemma {:induction false} RFindAppend(a: string, b: string, p: char -> bool)
    ensures RFind(a + b, p) == if RFind(b, p) >= 0 then |a| + RFind(b, p) else RFind(a, p)
    decreases |b|
  {
    if b == [] {
      assert a + b == a;
    } else if !p(b[|b| - 1]) {
      assert (a + b)[..|a + b| - 1] == a + b[..|b| - 1];
      RFindAppend(a, b[..|b| - 1], p);
    }
  }

  /** Appending an extension to a stem splits back into the stem and the
      extension, unless the stem's last component is nothing but dots, in
      which case the whole name counts as a root without an extension. */
  lemma SplitExtAppend(stem: string, ext: string)
    requires ext != [] && IsExtension(ext)
    ensures HasNonDot(BaseName(stem)) ==> SplitExt(stem + ext) == Parts(stem, ext)
    ensures !HasNonDot(BaseName(stem)) ==> SplitExt(stem + ext) == Parts(stem + ext, [])
  {
    var p := stem + ext;
    ExtensionFinds(ext);
    RFindAppend(stem, ext, IsSep);
    RFindAppend(stem, ext, IsDot);
    var sepIndex := RFind(stem, IsSep);
    assert RFind(p, IsDot) == |stem| > sepIndex;
    assert p[sepIndex + 1..|stem|] == BaseName(stem);
    assert p[..|stem|] == stem && p[|stem|..] == ext;
  }

  /** A non-empty extension has no separator, and its only dot is its first character. */
  lemma ExtensionFinds(ext: string)
    requires ext != [] && IsExtension(ext)
    ensures RFind(ext, IsSep) == -1 && RFind(ext, IsDot) == 0
  {
    assert IsDot(ext[0]) && !IsSep(ext[0]);
  }

  /** Lower-casing touches neither dots nor separators. */
  lemma {:induction false} RFindLower(s: string, p: char -> bool)
    requires forall i :: 0 <= i < |s| ==> p(LowerChar(s[i])) == p(s[i])
    ensures RFind(Lower(s), p) == RFind(s, p)
    decreases |s|
  {
    if s != [] {
      LowerSlice(s, 0, |s| - 1);
      assert s[0..|s| - 1] == s[..|s| - 1];
      RFindLower(s[..|s| - 1], p);
    }
  }

  lemma HasNonDotLower(s: string)
    ensures HasNonDot(Lower(s)) <==> HasNonDot(s)
  {
    if HasNonDot(s) {
      var i :| 0 <= i < |s| && !IsDot(s[i]);
      assert !IsDot(Lower(s)[i]);
    }
    if HasNonDot(Lower(s)) {
      var i :| 0 <= i < |s| && !IsDot(Lower(s)[i]);
      assert !IsDot(s[i]);
    }
  }

  /** `splitext` of a lower-cased path is the lower-cased `splitext`: the
      extension an output file is judged by does not depend on case. */
  lemma SplitExtLower(p: string)
    ensures SplitExt(Lower(p)) == Parts(Lower(SplitExt(p).root), Lower(SplitExt(p).ext))
  {
    RFindLower(p, IsSep);
    RFindLower(p, IsDot);
    var sepIndex := RFind(p, IsSep);
    var dotIndex := RFind(p, IsDot);
    if dotIndex > sepIndex {
      HasNonDotLowerSlice(p, sepIndex + 1, dotIndex);
      LowerAround(p, dotIndex);
    }
    assert Lower([]) == [];
  }

  /** Lower-casing a path and cutting it at `k` commute, on both sides of the cut. */
  lemma LowerAround(p: string, k: nat)
    requires k <= |p|
    ensures Lower(p)[..k] == Lower(p[..k]) && Lower(p)[k..] == Lower(p[k..])
  {
    LowerSlice(p, 0, k);
    LowerSlice(p, k, |p|);
    assert p[0..k] == p[..k] && p[k..|p|] == p[k..];
    assert Lower(p)[0..k] == Lower(p)[..k] && Lower(p)[k..|p|] == Lower(p)[k..];
  }

  /** A slice of the lower-cased path has a non-dot exactly when the same
      slice of the path has one. */
  lemma HasNonDotLowerSlice(p: string, i: nat, j: nat)
    requires i <= j <= |p|
    ensures HasNonDot(Lower(p)[i..j]) <==> HasNonDot(p[i..j])
  {
    LowerSlice(p, i, j);
    HasNonDotLower(p[i..j]);
  }

  /** `os.path.join(dir, name)` for a bare file name: a backslash is put
      between them unless `dir` is empty, already ends in a separator, or is
      a bare drive such as "C:". */
  function JoinPath(dir: string, name: string): (r: string)
    requires IsFileName(name)
    ensures StartsWith(r, dir) && EndsWith(r, name)
    ensures |r| - |name| - |dir| == JoinSepLength(dir)
    ensures JoinSepLength(dir) == 1 ==> r[|dir|] == '\\'
  {
    if JoinSepLength(dir) == 0 then dir + name else dir + "\\" + name
  }

  /** How many characters `JoinPath` puts between `dir` and the name. */
  function JoinSepLength(dir: string): (n: nat)
    ensures n <= 1
  {
    if dir == [] || IsSep(dir[|dir| - 1]) || (|dir| == 2 && dir[1] == ':') then 0 else 1
  }

  /** Joining a directory with two different file names gives two different paths. */
  lemma JoinPathInjective(dir: string, a: string, b: string)
    requires IsFileName(a) && IsFileName(b)
    requires JoinPath(dir, a) == JoinPath(dir, b)
    ensures a == b
  {
  }
}
