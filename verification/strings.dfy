/**
 The handful of Python `str` operations the application relies on, with
 Python's semantics: `strip`/`rstrip` with no argument, `split` on one
 character, `join`, the `in` substring test, `replace(p, "")`, `lower()`
 (ASCII part only) and `str()` of an integer.
 */
module Strings {

  /** The characters for which Python's `str.isspace()` is true. */
  predicate IsSpace(c: char)
  {
    || ('\t' <= c <= '\r')
    || ('\U{1C}' <= c <= ' ')
    || c == '\U{85}' || c == '\U{A0}' || c == '\U{1680}'
    || ('\U{2000}' <= c <= '\U{200A}')
    || c == '\U{2028}' || c == '\U{2029}' || c == '\U{202F}' || c == '\U{205F}'
    || c == '\U{3000}'
  }

  /** Every character is whitespace (Python: `not s.strip()`). */
  predicate IsBlank(s: string)
  {
    forall i :: 0 <= i < |s| ==> IsSpace(s[i])
  }

  /** The number of whitespace characters `s` starts with. */
  function LeadingSpace(s: string): (k: nat)
    ensures k <= |s|
    ensures forall i :: 0 <= i < k ==> IsSpace(s[i])
    ensures k < |s| ==> !IsSpace(s[k])
    decreases |s|
  {
    if s != [] && IsSpace(s[0]) then
      var k := LeadingSpace(s[1..]);
      assert forall i :: 1 <= i <= k ==> s[i] == s[1..][i - 1];
      1 + k
    else 0
  }

  /** The length of `s` without the whitespace it ends with. */
  function TrailingStart(s: string): (e: nat)
    ensures e <= |s|
    ensures forall i :: e <= i < |s| ==> IsSpace(s[i])
    ensures e > 0 ==> !IsSpace(s[e - 1])
    decreases |s|
  {
    if s != [] && IsSpace(s[|s| - 1]) then TrailingStart(s[..|s| - 1]) else |s|
  }

  /** Python's `s.rstrip()`: `s` without the whitespace it ends with. */
  function RStrip(s: string): (r: string)
    ensures |r| <= |s| && r == s[..|r|]
    ensures r == [] || !IsSpace(r[|r| - 1])
    ensures forall i :: |r| <= i < |s| ==> IsSpace(s[i])
  {
    s[..TrailingStart(s)]
  }

  /** Python's `s.strip()`: the slice of `s` between the whitespace it
      starts with and the whitespace it ends with; nothing at all when `s`
      is all whitespace. */
  function Strip(s: string): (r: string)
    ensures |r| <= |s|
    ensures r == [] <==> IsBlank(s)
    ensures r == [] || (!IsSpace(r[0]) && !IsSpace(r[|r| - 1]))
    ensures LeadingSpace(s) + |r| <= |s| && r == s[LeadingSpace(s)..LeadingSpace(s) + |r|]
    ensures forall i :: LeadingSpace(s) + |r| <= i < |s| ==> IsSpace(s[i])
  {
    var a := LeadingSpace(s);
    var e := TrailingStart(s);
    if a < e then s[a..e] else []
  }

  /** A string that neither starts nor ends with whitespace is its own strip. */
  lemma StripIdentity(s: string)
    requires s == [] || (!IsSpace(s[0]) && !IsSpace(s[|s| - 1]))
    ensures Strip(s) == s
  {
    if s != [] {
      assert LeadingSpace(s) == 0 && TrailingStart(s) == |s|;
    }
  }

  /** Stripping twice is stripping once. */
  lemma StripIdempotent(s: string)
    ensures Strip(Strip(s)) == Strip(s)
  {
    StripIdentity(Strip(s));
  }

  /** Stripping only removes characters. */
  lemma StripKeepsOut(s: string, c: char)
    requires c !in s
    ensures c !in Strip(s)
  {
    var r := Strip(s);
    var a := LeadingSpace(s);
    assert forall k :: 0 <= k < |r| ==> r[k] == s[a + k];
  }

  /** Python's `s.split(sep)` for a one-character separator: the pieces
      between the separators, always at least one. */
  function Split(s: string, sep: char): (r: seq<string>)
    ensures |r| >= 1
    ensures forall i :: 0 <= i < |r| ==> sep !in r[i]
    ensures Join(r, [sep]) == s
  {
    if s == [] then [""]
    else
      var rest := Split(s[1..], sep);
      if s[0] == sep then
        assert s == [sep] + s[1..];
        [""] + rest
      else
        var r := [[s[0]] + rest[0]] + rest[1..];
        assert r[1..] == rest[1..];
        r
  }

  /** Python's `sep.join(xs)`. */
  function Join(xs: seq<string>, sep: string): string
  {
    if xs == [] then ""
    else if |xs| == 1 then xs[0]
    else xs[0] + sep + Join(xs[1..], sep)
  }

  /** Joining one more piece adds one separator and the piece. */
  lemma {:induction false} JoinSnoc(xs: seq<string>, y: string, sep: string)
    requires xs != []
    ensures Join(xs + [y], sep) == Join(xs, sep) + sep + y
    decreases |xs|
  {
    if |xs| > 1 {
      assert (xs + [y])[1..] == xs[1..] + [y];
      JoinSnoc(xs[1..], y, sep);
    }
  }

  /** Joining two non-empty lists puts one separator between their joins. */
  lemma {:induction false} JoinAppend(a: seq<string>, b: seq<string>, sep: string)
    requires a != [] && b != []
    ensures Join(a + b, sep) == Join(a, sep) + sep + Join(b, sep)
    decreases |a|
  {
    if |a| == 1 {
      assert (a + b)[1..] == b;
    } else {
      assert (a + b)[1..] == a[1..] + b;
      JoinAppend(a[1..], b, sep);
    }
  }

  /** The join of a list starts with its first piece. */
  lemma JoinStartsWithFirst(xs: seq<string>, sep: string)
    requires xs != []
    ensures xs[0] <= Join(xs, sep)
  {
  }

  /** Splitting at a leading piece free of the separator peels that piece off. */
  lemma {:induction false} SplitConcat(a: string, sep: char, b: string)
    requires sep !in a
    ensures Split(a + [sep] + b, sep) == [a] + Split(b, sep)
    decreases |a|
  {
    if a == [] {
      assert (a + [sep] + b)[1..] == b;
    } else {
      assert (a + [sep] + b)[1..] == a[1..] + [sep] + b;
      SplitConcat(a[1..], sep, b);
      assert [a[0]] + a[1..] == a;
    }
  }

  /** A string without the separator splits into itself. */
  lemma {:induction false} SplitNoSeparator(s: string, sep: char)
    requires sep !in s
    ensures Split(s, sep) == [s]
    decreases |s|
  {
    if s != [] {
      SplitNoSeparator(s[1..], sep);
      assert [s[0]] + s[1..] == s;
    }
  }

  /** Split undoes Join when no piece contains the separator. */
  lemma {:induction false} SplitJoin(xs: seq<string>, sep: char)
    requires xs != []
    requires forall i :: 0 <= i < |xs| ==> sep !in xs[i]
    ensures Split(Join(xs, [sep]), sep) == xs
    decreases |xs|
  {
    if |xs| == 1 {
      SplitNoSeparator(xs[0], sep);
    } else {
      SplitJoin(xs[1..], sep);
      SplitConcat(xs[0], sep, Join(xs[1..], [sep]));
      assert [xs[0]] + xs[1..] == xs;
    }
  }

  /** A string splits into two or more pieces exactly when it holds the separator. */
  lemma {:induction false} SplitCount(s: string, sep: char)
    ensures |Split(s, sep)| >= 2 <==> sep in s
    decreases |s|
  {
    if s != [] {
      SplitCount(s[1..], sep);
      assert sep in s <==> s[0] == sep || sep in s[1..];
    }
  }

  /** `p` occurs in `s` starting at index `i`. */
  ghost predicate OccursAt(s: string, p: string, i: int)
  {
    0 <= i && i + |p| <= |s| && s[i..i + |p|] == p
  }

  /** Python's substring test `p in s`. */
  function Contains(s: string, p: string): (b: bool)
    ensures b <==> exists i :: OccursAt(s, p, i)
    decreases |s|
  {
    if p <= s then
      assert OccursAt(s, p, 0);
      true
    else if s == [] then
      false
    else
      ContainsShift(s, p);
      Contains(s[1..], p)
  }

  /** Without an occurrence at the front, occurrences are those of the tail. */
  lemma ContainsShift(s: string, p: string)
    requires s != [] && !(p <= s)
    ensures (exists i :: OccursAt(s, p, i)) <==> (exists i :: OccursAt(s[1..], p, i))
  {
    if i :| OccursAt(s, p, i) {
      assert i != 0;
      assert OccursAt(s[1..], p, i - 1);
    }
    if i :| OccursAt(s[1..], p, i) {
      assert OccursAt(s, p, i + 1);
    }
  }

  /** Python's `s.startswith(p)`. */
  predicate StartsWith(s: string, p: string)
  {
    p <= s
  }

  /** Python's `s.endswith(p)`. */
  predicate EndsWith(s: string, p: string)
  {
    |p| <= |s| && s[|s| - |p|..] == p
  }

  /** Python's `s.replace(p, "")`: the non-overlapping occurrences of `p`,
      found left to right, are deleted. */
  function RemoveAll(s: string, p: string): (r: string)
    ensures |r| <= |s|
    ensures Absent(s, p) ==> r == s
    decreases |s|
  {
    if p == [] || |s| < |p| then s
    else if p <= s then
      assert OccursAt(s, p, 0);
      RemoveAll(s[|p|..], p)
    else
      NotInTail(s, p);
      assert [s[0]] + s[1..] == s;
      [s[0]] + RemoveAll(s[1..], p)
  }

  /** `p` occurs nowhere in `s`: `!Contains(s, p)`. */
  ghost predicate Absent(s: string, p: string)
  {
    forall i :: !OccursAt(s, p, i)
  }

  /** Dropping the first character keeps `p` absent. */
  lemma NotInTail(t: string, p: string)
    requires t != []
    ensures Absent(t, p) ==> Absent(t[1..], p)
  {
    var u := t[1..];
    if Absent(t, p) {
      forall i | OccursAt(u, p, i)
        ensures false
      {
        assert t[i + 1..i + 1 + |p|] == u[i..i + |p|];
        assert OccursAt(t, p, i + 1);
      }
    }
  }

  /** A string with a character that `s` lacks does not occur in `s`. */
  lemma AbsentWithoutChar(s: string, p: string, k: nat)
    requires k < |p| && p[k] !in s
    ensures Absent(s, p)
  {
  }

  /** The first occurrence of `p` is deleted and the scan goes on after it:
      when `p` does not occur before the end of `a + p`, the text `a + p + b`
      loses exactly that occurrence in front of `b`'s own deletions. */
  lemma RemoveAllDeletes(a: string, p: string, b: string)
    requires p != []
    requires !Contains(a + p[..|p| - 1], p)
    ensures RemoveAll(a + p + b, p) == a + RemoveAll(b, p)
  {
    var s := a + p + b;
    forall i | 0 <= i < |a|
      ensures !(p <= s[i..])
    {
      NoEarlyOccurrence(a, p, b, i);
    }
    RemoveAllKeepsPrefix(s, p, |a|);
    assert s[..|a|] == a && s[|a|..] == p + b && (p + b)[|p|..] == b;
    assert p <= p + b;
  }

  /** An occurrence starting inside `a` would end inside `a + p[..|p| - 1]`. */
  lemma NoEarlyOccurrence(a: string, p: string, b: string, i: nat)
    requires p != [] && i < |a|
    requires !Contains(a + p[..|p| - 1], p)
    ensures !(p <= (a + p + b)[i..])
  {
    var s := a + p + b;
    var c := a + p[..|p| - 1];
    if i + |p| <= |c| {
      assert c[i..i + |p|] == s[i..i + |p|];
      assert !OccursAt(c, p, i);
    }
  }

  /** Characters in front of the first occurrence are kept one by one. */
  lemma {:induction false} RemoveAllKeepsPrefix(s: string, p: string, k: nat)
    requires p != [] && k + |p| <= |s|
    requires forall i :: 0 <= i < k ==> !(p <= s[i..])
    ensures RemoveAll(s, p) == s[..k] + RemoveAll(s[k..], p)
    decreases k
  {
    if k == 0 {
      assert s[..0] + RemoveAll(s[0..], p) == RemoveAll(s, p);
    } else {
      RemoveAllKeepsPrefix(s, p, k - 1);
      RemoveAllKeepsAt(s, p, k - 1);
      AppendAt(s, k, RemoveAll(s[k..], p));
    }
  }

  /** No occurrence starts at `i`: the character there is kept. */
  lemma RemoveAllKeepsAt(s: string, p: string, i: nat)
    requires p != [] && i + |p| < |s| && !(p <= s[i..])
    ensures RemoveAll(s[i..], p) == [s[i]] + RemoveAll(s[i + 1..], p)
  {
    assert s[i..][1..] == s[i + 1..];
  }

  lemma AppendAt(s: string, k: nat, r: string)
    requires 0 < k <= |s|
    ensures s[..k - 1] + ([s[k - 1]] + r) == s[..k] + r
  {
    assert s[..k - 1] + [s[k - 1]] == s[..k];
  }

  /** Python's `c.lower()` for ASCII letters; other characters are kept. */
  function LowerChar(c: char): (r: char)
    ensures 'A' <= c <= 'Z' ==> 'a' <= r <= 'z' && r as int - 'a' as int == c as int - 'A' as int
    ensures !('A' <= c <= 'Z') ==> r == c
  {
    if 'A' <= c <= 'Z' then (c as int - 'A' as int + 'a' as int) as char else c
  }

  /** Python's `s.lower()`, restricted to the ASCII letters. */
  function Lower(s: string): (r: string)
    ensures |r| == |s|
    ensures forall i :: 0 <= i < |s| ==> r[i] == LowerChar(s[i])
  {
    seq(|s|, i requires 0 <= i < |s| => LowerChar(s[i]))
  }

  /** A lower-cased string has no capital letter left. */
  lemma LowerHasNoCapital(s: string, i: nat)
    requires i < |s|
    ensures !('A' <= Lower(s)[i] <= 'Z')
  {
  }

  /** Lower-casing twice is lower-casing once. */
  lemma LowerIdempotent(s: string)
    ensures Lower(Lower(s)) == Lower(s)
  {
    assert forall i :: 0 <= i < |s| ==> Lower(Lower(s))[i] == Lower(s)[i];
  }

  /** Lower-casing works character by character, so it commutes with slicing. */
  lemma LowerSlice(s: string, i: nat, j: nat)
    requires i <= j <= |s|
    ensures Lower(s)[i..j] == Lower(s[i..j])
  {
    assert forall k :: 0 <= k < j - i ==> Lower(s)[i..j][k] == Lower(s[i..j])[k];
  }

  /** The case-insensitive search of the voice list finds every match the
      case-sensitive one finds. */
  lemma ContainsLower(s: string, p: string)
    requires Contains(s, p)
    ensures Contains(Lower(s), Lower(p))
  {
    var i :| OccursAt(s, p, i);
    LowerSlice(s, i, i + |p|);
    assert OccursAt(Lower(s), Lower(p), i);
  }

  predicate IsDigit(c: char)
  {
    '0' <= c <= '9'
  }

  function DigitChar(d: nat): (c: char)
    requires d < 10
    ensures IsDigit(c)
  {
    ('0' as int + d) as char
  }

  function DigitValue(c: char): nat
    requires IsDigit(c)
  {
    c as int - '0' as int
  }

  /** Python's `str(n)` for a natural number: its decimal digits, with no
      leading zero. */
  function NatToString(n: nat): (r: string)
    ensures r != []
    ensures forall i :: 0 <= i < |r| ==> IsDigit(r[i])
    ensures r[0] == '0' <==> n == 0
    ensures n == 0 ==> r == "0"
    decreases n
  {
    if n < 10 then [DigitChar(n)] else NatToString(n / 10) + [DigitChar(n % 10)]
  }

  /** The decimal digits of a number as Python writes them: at least one
      digit and no leading zero unless the number is zero. */
  predicate IsDecimal(s: string)
  {
    && s != []
    && (forall i :: 0 <= i < |s| ==> IsDigit(s[i]))
    && (s[0] == '0' ==> s == "0")
  }

  /** Python's `str(i)` for an integer: a minus sign for a negative value,
      then the decimal digits of its magnitude. */
  function IntToString(i: int): (r: string)
    ensures r != []
    ensures i < 0 <==> r[0] == '-'
    ensures i >= 0 ==> IsDecimal(r) && ParseNat(r) == i
    ensures i < 0 ==> IsDecimal(r[1..]) && ParseNat(r[1..]) == -i
  {
    if i < 0 then
      var d := NatToString(-i);
      ParseNatToString(-i);
      assert ("-" + d)[1..] == d;
      "-" + d
    else
      ParseNatToString(i);
      NatToString(i)
  }

  /** Python's `int(s)` for a string of decimal digits. */
  function ParseNat(s: string): nat
    requires forall i :: 0 <= i < |s| ==> IsDigit(s[i])
  {
    if s == [] then 0 else 10 * ParseNat(s[..|s| - 1]) + DigitValue(s[|s| - 1])
  }

  /** Reading back the decimal digits gives the number. */
  lemma {:induction false} ParseNatToString(n: nat)
    ensures ParseNat(NatToString(n)) == n
    decreases n
  {
    if n >= 10 {
      ParseNatToString(n / 10);
      var s := NatToString(n);
      assert s[..|s| - 1] == NatToString(n / 10);
    }
  }

  /** Different numbers have different decimal strings. */
  lemma NatToStringInjective(m: nat, n: nat)
    requires NatToString(m) == NatToString(n)
    ensures m == n
  {
    ParseNatToString(m);
    ParseNatToString(n);
  }

  /** Different integers are written differently. */
  lemma IntToStringInjective(i: int, j: int)
    requires IntToString(i) == IntToString(j)
    ensures i == j
  {
  }
}
