/**
 * The parts of java.lang.String and java.lang.Character that the plugin relies on,
 * stated over Dafny strings (sequences of Unicode scalar values).
 */
module JavaText {

  /** Character.isWhitespace: the Unicode space, line and paragraph separators other than
    * the no-break spaces U+00A0, U+2007 and U+202F, plus the controls U+0009..U+000D and
    * U+001C..U+001F. */
  predicate IsWhitespace(c: char) {
    var n := c as int;
    (0x09 <= n <= 0x0D) || (0x1C <= n <= 0x20) || n == 0x1680
    || (0x2000 <= n <= 0x200A && n != 0x2007)
    || n == 0x2028 || n == 0x2029 || n == 0x205F || n == 0x3000
  }

  /** String.isBlank: empty, or nothing but white space. */
  predicate IsBlank(s: string) {
    forall i | 0 <= i < |s| :: IsWhitespace(s[i])
  }

  /** A string holding one character that is not white space is not blank. */
  lemma NotBlankWitness(s: string, i: int)
    requires 0 <= i < |s| && !IsWhitespace(s[i])
    ensures !IsBlank(s)
  {
  }

  /** `pat` occurs in `s` starting at index `i`. */
  predicate OccursAt(s: string, pat: string, i: int) {
    0 <= i && i + |pat| <= |s| && s[i..i + |pat|] == pat
  }

  /** String.contains. */
  predicate Contains(s: string, pat: string) {
    exists i | 0 <= i <= |s| - |pat| :: OccursAt(s, pat, i)
  }

  /** An occurrence in the tail of a string is an occurrence one further right in the string. */
  lemma OccursAtTail(s: string, pat: string)
    requires |s| > 0
    ensures forall j | 1 <= j :: OccursAt(s, pat, j) == OccursAt(s[1..], pat, j - 1)
  {
    forall j | 1 <= j
      ensures OccursAt(s, pat, j) == OccursAt(s[1..], pat, j - 1)
    {
      if j + |pat| <= |s| {
        assert s[1..][j - 1..j - 1 + |pat|] == s[j..j + |pat|];
      }
    }
  }

  /** String.indexOf(pat): the first index at which `pat` occurs, or -1. */
  function IndexOf(s: string, pat: string): (r: int)
    ensures -1 <= r <= |s|
    ensures r >= 0 ==> OccursAt(s, pat, r)
    ensures forall j | 0 <= j && (r < 0 || j < r) :: !OccursAt(s, pat, j)
    decreases |s|
  {
    if |s| < |pat| then -1
    else if s[..|pat|] == pat then 0
    else
      assert !OccursAt(s, pat, 0);
      OccursAtTail(s, pat);
      var k := IndexOf(s[1..], pat);
      if k < 0 then -1 else k + 1
  }

  /** IndexOf finds an occurrence exactly when there is one. */
  lemma IndexOfFindsContained(s: string, pat: string)
    ensures IndexOf(s, pat) >= 0 <==> Contains(s, pat)
  {
    var r := IndexOf(s, pat);
    if r >= 0 {
      assert OccursAt(s, pat, r);
    }
  }

  /** An occurrence with none before it is the one IndexOf reports. */
  lemma IndexOfFirst(s: string, pat: string, k: int)
    requires OccursAt(s, pat, k)
    requires forall j | 0 <= j < k :: !OccursAt(s, pat, j)
    ensures IndexOf(s, pat) == k
  {
  }

  /** No occurrence of `pat` starts at any index of `a` inside `a + b`. */
  predicate NoOccurrenceStartsIn(a: string, b: string, pat: string) {
    forall i | 0 <= i < |a| :: !OccursAt(a + b, pat, i)
  }

  /** An occurrence that lies wholly inside `a` is an occurrence in `a`. */
  lemma OccursAtPrefix(a: string, b: string, pat: string, i: int)
    requires 0 <= i && i + |pat| <= |a|
    ensures OccursAt(a + b, pat, i) == OccursAt(a, pat, i)
  {
    assert (a + b)[i..i + |pat|] == a[i..i + |pat|];
  }

  /** An occurrence that starts at or after `a` is an occurrence in `b`. */
  lemma OccursAtSuffix(a: string, b: string, pat: string, i: int)
    requires 0 <= i
    ensures OccursAt(a + b, pat, |a| + i) == OccursAt(b, pat, i)
  {
    if |a| + i + |pat| <= |a + b| {
      assert (a + b)[|a| + i..|a| + i + |pat|] == b[i..i + |pat|];
    }
  }

  /** When `a` holds no occurrence of `pat` and the first character of `b` does not occur in
    * `pat` after its first position, no occurrence can straddle the seam of `a + b`. */
  lemma NoStraddle(a: string, b: string, pat: string)
    requires !Contains(a, pat)
    requires |b| > 0 && forall k | 1 <= k < |pat| :: pat[k] != b[0]
    ensures NoOccurrenceStartsIn(a, b, pat)
  {
    forall i | 0 <= i < |a|
      ensures !OccursAt(a + b, pat, i)
    {
      if i + |pat| <= |a| {
        OccursAtPrefix(a, b, pat, i);
      } else if i + |pat| <= |a + b| {
        var k := |a| - i;
        assert (a + b)[i..i + |pat|][k] == b[0] != pat[k];
      }
    }
  }

  /** When the first character of `pat` does not occur in `a` and `b` holds no occurrence,
    * neither does `a + b`. */
  lemma NoOccurrenceInConcat(a: string, b: string, pat: string)
    requires |pat| > 0 && forall i | 0 <= i < |a| :: a[i] != pat[0]
    requires !Contains(b, pat)
    ensures !Contains(a + b, pat)
  {
    forall i | 0 <= i <= |a + b| - |pat|
      ensures !OccursAt(a + b, pat, i)
    {
      if i < |a| {
        assert (a + b)[i..i + |pat|][0] == a[i] != pat[0];
      } else {
        OccursAtSuffix(a, b, pat, i - |a|);
      }
    }
  }

  /** String.lastIndexOf(c): the last index holding `c`, or -1. */
  function LastIndexOfChar(s: string, c: char): (r: int)
    ensures -1 <= r < |s|
    ensures r >= 0 ==> s[r] == c
    ensures forall j | r < j < |s| :: s[j] != c
  {
    if |s| == 0 then -1
    else if s[|s| - 1] == c then |s| - 1
    else LastIndexOfChar(s[..|s| - 1], c)
  }

  /** The pieces of `s` between the occurrences of the literal separator `sep`, found left
    * to right without overlap, empty pieces included. */
  function Fields(s: string, sep: string): (r: seq<string>)
    requires |sep| > 0
    ensures |r| >= 1
    decreases |s|
  {
    var i := IndexOf(s, sep);
    if i < 0 then [s] else [s[..i]] + Fields(s[i + |sep|..], sep)
  }

  /** The first field is everything before the first separator, or the whole string. */
  lemma FirstField(s: string, sep: string)
    requires |sep| > 0
    ensures var i := IndexOf(s, sep);
            Fields(s, sep)[0] == if i < 0 then s else s[..i]
  {
  }

  /** Removes the empty trailing pieces, as String.split does. */
  function DropTrailingEmpty(fs: seq<string>): (r: seq<string>)
    ensures |r| <= |fs| && r == fs[..|r|]
    ensures forall i | |r| <= i < |fs| :: fs[i] == ""
    ensures r == [] || r[|r| - 1] != ""
  {
    if fs == [] then []
    else if fs[|fs| - 1] == "" then DropTrailingEmpty(fs[..|fs| - 1])
    else fs
  }

  /** String.split with a literal separator and no limit: the fields with trailing empty ones
    * dropped, except that the empty string splits into one empty field. */
  function JavaSplit(s: string, sep: string): (r: seq<string>)
    requires |sep| > 0
  {
    if s == [] then [""] else DropTrailingEmpty(Fields(s, sep))
  }

  /** A split keeps every field up to the last non-empty one: when any field from index `k` on
    * is non-empty, fields 0..k are all kept. */
  lemma JavaSplitKeeps(s: string, sep: string, k: nat)
    requires |sep| > 0
    requires exists i | k <= i < |Fields(s, sep)| :: Fields(s, sep)[i] != ""
    ensures |JavaSplit(s, sep)| > k
    ensures forall i | 0 <= i <= k :: JavaSplit(s, sep)[i] == Fields(s, sep)[i]
  {
  }

  /** A split yields an empty array exactly when the string is non-empty and every field is
    * empty, i.e. the string is nothing but separators. */
  lemma JavaSplitEmpty(s: string, sep: string)
    requires |sep| > 0
    ensures |JavaSplit(s, sep)| == 0 ==> s != [] && forall i | 0 <= i < |Fields(s, sep)| :: Fields(s, sep)[i] == ""
    ensures (s != [] && forall i | 0 <= i < |Fields(s, sep)| :: Fields(s, sep)[i] == "") ==> |JavaSplit(s, sep)| == 0
  {
    if s != [] {
      var fs := Fields(s, sep);
      var r := DropTrailingEmpty(fs);
      assert JavaSplit(s, sep) == r;
      if |r| > 0 {
        assert fs[|r| - 1] == r[|r| - 1] != "";
        assert !(forall i | 0 <= i < |fs| :: fs[i] == "");
        assert |JavaSplit(s, sep)| != 0;
      }
    }
  }

  /** String.replace(pat, ""): every occurrence of `pat` found by a single left-to-right
    * scan without overlap is removed. */
  function RemoveAll(s: string, pat: string): (r: string)
    requires |pat| > 0
    ensures |r| <= |s|
    decreases |s|
  {
    if |s| < |pat| then s
    else if s[..|pat|] == pat then RemoveAll(s[|pat|..], pat)
    else [s[0]] + RemoveAll(s[1..], pat)
  }

  /** Removing a pattern that does not occur changes nothing. */
  lemma {:induction false} RemoveAllAbsent(s: string, pat: string)
    requires |pat| > 0 && !Contains(s, pat)
    ensures RemoveAll(s, pat) == s
    decreases |s|
  {
    if |s| >= |pat| {
      assert !OccursAt(s, pat, 0);
      OccursAtTail(s, pat);
      assert !Contains(s[1..], pat) by {
        forall j | 0 <= j <= |s[1..]| - |pat|
          ensures !OccursAt(s[1..], pat, j)
        {
          assert OccursAt(s, pat, j + 1) == OccursAt(s[1..], pat, j);
        }
      }
      RemoveAllAbsent(s[1..], pat);
      assert s == [s[0]] + s[1..];
    }
  }

  /** A prefix in which no occurrence starts passes through unchanged. */
  lemma {:induction false} RemoveAllAppend(a: string, b: string, pat: string)
    requires |pat| > 0 && NoOccurrenceStartsIn(a, b, pat)
    ensures RemoveAll(a + b, pat) == a + RemoveAll(b, pat)
    decreases |a|
  {
    if |a| > 0 {
      var s := a + b;
      assert !OccursAt(s, pat, 0);
      RemoveAllKeepsHead(s, pat);
      NoOccurrenceStartsInTail(a, b, pat);
      RemoveAllAppend(a[1..], b, pat);
      assert s[0] == a[0] && a == [a[0]] + a[1..];
    } else {
      assert a + b == b;
    }
  }

  /** A first character at which no occurrence starts is kept. */
  lemma RemoveAllKeepsHead(s: string, pat: string)
    requires |pat| > 0 && |s| > 0 && !OccursAt(s, pat, 0)
    ensures RemoveAll(s, pat) == [s[0]] + RemoveAll(s[1..], pat)
  {
    if |s| >= |pat| {
      assert s[..|pat|] != pat;
    } else {
      assert s == [s[0]] + s[1..];
    }
  }

  /** Dropping the first character of `a` keeps occurrences from starting in it. */
  lemma NoOccurrenceStartsInTail(a: string, b: string, pat: string)
    requires |a| > 0 && NoOccurrenceStartsIn(a, b, pat)
    ensures (a + b)[1..] == a[1..] + b && NoOccurrenceStartsIn(a[1..], b, pat)
  {
    var s := a + b;
    assert s[1..] == a[1..] + b;
    OccursAtTail(s, pat);
    forall i | 0 <= i < |a[1..]|
      ensures !OccursAt(a[1..] + b, pat, i)
    {
      assert OccursAt(s, pat, i + 1) == OccursAt(s[1..], pat, i);
    }
  }

  /** A leading occurrence is dropped. */
  lemma RemoveAllLeading(pat: string, b: string)
    requires |pat| > 0
    ensures RemoveAll(pat + b, pat) == RemoveAll(b, pat)
  {
    assert (pat + b)[..|pat|] == pat;
    assert (pat + b)[|pat|..] == b;
  }

  /** Character.toLowerCase restricted to ASCII, as Locale applies to language codes. */
  function AsciiLower(s: string): (r: string)
    ensures |r| == |s|
  {
    if s == [] then []
    else [if 'A' <= s[0] <= 'Z' then (s[0] as int + 32) as char else s[0]] + AsciiLower(s[1..])
  }
}
