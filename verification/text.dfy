/** The string primitives the transcript code relies on, with Python's
    semantics: whitespace as `str.isspace` (which is also what `\s` and
    `str.strip()` use), `str.split` on a one-character separator, `str.join`,
    and the `in` / `split(sep, 1)` search for a substring. */
module Text {
  import opened Wrappers

  /** Python's Unicode whitespace (`str.isspace`, the `\s` class of `re` on
      str patterns, and the characters `str.strip()` removes). */
  predicate IsSpace(c: char) {
    || ('\t' <= c <= '\r')
    || ('\U{1C}' <= c <= '\U{1F}')
    || c == ' '
    || c == '\U{85}'
    || c == '\U{A0}'
    || c == '\U{1680}'
    || ('\U{2000}' <= c <= '\U{200A}')
    || c == '\U{2028}'
    || c == '\U{2029}'
    || c == '\U{202F}'
    || c == '\U{205F}'
    || c == '\U{3000}'
  }

  /** The `\d` class, restricted to ASCII digits. */
  predicate IsDigit(c: char) {
    '0' <= c <= '9'
  }

  predicate AllSpace(s: string) {
    forall i :: 0 <= i < |s| ==> IsSpace(s[i])
  }

  predicate AllDigits(s: string) {
    forall i :: 0 <= i < |s| ==> IsDigit(s[i])
  }

  // ---------------------------------------------------------------------
  // str.strip()
  // ---------------------------------------------------------------------

  /** Length of the longest all-whitespace prefix. */
  function LeadingSpace(s: string): (n: nat)
    ensures n <= |s|
    ensures forall i :: 0 <= i < n ==> IsSpace(s[i])
    ensures n == |s| || !IsSpace(s[n])
  {
    if |s| == 0 || !IsSpace(s[0]) then 0
    else 1 + LeadingSpace(s[1..])
  }

  /** Length of the longest all-whitespace suffix. */
  function TrailingSpace(s: string): (n: nat)
    ensures n <= |s|
    ensures forall i :: |s| - n <= i < |s| ==> IsSpace(s[i])
    ensures n == |s| || !IsSpace(s[|s| - n - 1])
  {
    if |s| == 0 || !IsSpace(s[|s| - 1]) then 0
    else 1 + TrailingSpace(s[..|s| - 1])
  }

  /** Neither end of `s` is whitespace. */
  predicate Stripped(s: string) {
    |s| == 0 || (!IsSpace(s[0]) && !IsSpace(s[|s| - 1]))
  }

  /** Python's `s.strip()`: `s` without its leading and trailing whitespace. */
  function Strip(s: string): (r: string)
    ensures Stripped(r)
    ensures |r| <= |s|
  {
    var t := s[LeadingSpace(s)..];
    t[..|t| - TrailingSpace(t)]
  }

  lemma LeadingSpaceOf(pre: string, rest: string)
    requires AllSpace(pre)
    requires |rest| == 0 || !IsSpace(rest[0])
    ensures LeadingSpace(pre + rest) == |pre|
    decreases |pre|
  {
    if |pre| > 0 {
      LeadingSpaceOf(pre[1..], rest);
      LeadingStep(pre, rest);
    } else {
      assert pre + rest == rest;
    }
  }

  /** One whitespace character in front adds one to the leading run. */
  lemma LeadingStep(pre: string, rest: string)
    requires |pre| > 0 && IsSpace(pre[0])
    ensures LeadingSpace(pre + rest) == 1 + LeadingSpace(pre[1..] + rest)
  {
    var s := pre + rest;
    assert s[1..] == pre[1..] + rest by {
      assert |s[1..]| == |pre| - 1 + |rest|;
    }
    assert IsSpace(s[0]) by {
      assert s[0] == pre[0];
    }
  }

  lemma TrailingSpaceOf(rest: string, post: string)
    requires AllSpace(post)
    requires |rest| == 0 || !IsSpace(rest[|rest| - 1])
    ensures TrailingSpace(rest + post) == |post|
    decreases |post|
  {
    if |post| > 0 {
      TrailingSpaceOf(rest, post[..|post| - 1]);
      TrailingStep(rest, post);
    } else {
      assert rest + post == rest;
    }
  }

  /** One whitespace character at the end adds one to the trailing run. */
  lemma TrailingStep(rest: string, post: string)
    requires |post| > 0 && IsSpace(post[|post| - 1])
    ensures TrailingSpace(rest + post) == 1 + TrailingSpace(rest + post[..|post| - 1])
  {
    var s := rest + post;
    var t := s[..|s| - 1];
    assert t == rest + post[..|post| - 1] by {
      assert |t| == |rest| + |post| - 1;
    }
    assert IsSpace(s[|s| - 1]) by {
      assert s[|s| - 1] == post[|post| - 1];
    }
  }

  /** `Strip` removes exactly a whitespace prefix and a whitespace suffix. */
  lemma StripTrims(s: string) returns (pre: string, post: string)
    ensures s == pre + Strip(s) + post
    ensures AllSpace(pre) && AllSpace(post)
  {
    var a := LeadingSpace(s);
    var t := s[a..];
    var b := TrailingSpace(t);
    pre, post := s[..a], t[|t| - b..];
    assert AllSpace(pre) by {
      forall i | 0 <= i < |pre|
        ensures IsSpace(pre[i])
      {
        assert pre[i] == s[i];
      }
    }
    assert AllSpace(post) by {
      forall i | 0 <= i < |post|
        ensures IsSpace(post[i])
      {
        assert post[i] == t[|t| - b + i];
      }
    }
    assert s == pre + Strip(s) + post by {
      assert Strip(s) == t[..|t| - b];
      Cut(s, a, t, b);
    }
  }

  /** Cutting `a` characters off the front and then `b` off the back. */
  lemma Cut(s: string, a: nat, t: string, b: nat)
    requires a <= |s| && t == s[a..] && b <= |t|
    ensures s == s[..a] + t[..|t| - b] + t[|t| - b..]
  {
    assert t == t[..|t| - b] + t[|t| - b..];
    assert s == s[..a] + t;
  }

  /** The decomposition of `StripTrims` is the only one: whatever whitespace
      surrounds a stripped core, `Strip` returns that core. */
  lemma {:induction false} StripUnique(pre: string, core: string, post: string)
    requires AllSpace(pre) && AllSpace(post) && Stripped(core)
    ensures Strip(pre + core + post) == core
  {
    var s := pre + core + post;
    if |core| == 0 {
      assert s == pre + post;
      assert AllSpace(s);
      AllSpaceLeading(s);
    } else {
      assert s == pre + (core + post);
      LeadingSpaceOf(pre, core + post);
      var t := s[|pre|..];
      assert t == core + post;
      TrailingSpaceOf(core, post);
      assert t[..|t| - |post|] == core;
    }
  }

  lemma AllSpaceLeading(s: string)
    requires AllSpace(s)
    ensures LeadingSpace(s) == |s|
  {
  }

  /** Stripping twice is stripping once. */
  lemma StripIdempotent(s: string)
    ensures Strip(Strip(s)) == Strip(s)
  {
    StripUnique([], Strip(s), []);
    assert [] + Strip(s) + [] == Strip(s);
  }

  /** A string with a non-space character never strips to "". */
  lemma StripNonEmpty(s: string, i: nat)
    requires i < |s| && !IsSpace(s[i])
    ensures |Strip(s)| > 0
  {
    var t := s[LeadingSpace(s)..];
    var b := TrailingSpace(t);
  }

  /** Stripping never introduces a character. */
  lemma StripKeepsOut(s: string, c: char)
    requires c !in s
    ensures c !in Strip(s)
  {
    var pre, post := StripTrims(s);
    assert forall i :: 0 <= i < |Strip(s)| ==> Strip(s)[i] == s[|pre| + i];
  }

  // ---------------------------------------------------------------------
  // Substring search: `pat in s` and `s.split(pat, 1)`
  // ---------------------------------------------------------------------

  predicate OccursAt(s: string, pat: string, i: nat) {
    i + |pat| <= |s| && s[i..i + |pat|] == pat
  }

  /** Python's `pat in s`. */
  predicate Contains(s: string, pat: string) {
    exists i: nat | i <= |s| :: OccursAt(s, pat, i)
  }

  function FindFrom(s: string, pat: string, i: nat): (r: Option<nat>)
    requires i <= |s|
    ensures r.Some? ==> i <= r.value && OccursAt(s, pat, r.value)
    ensures r.Some? ==> forall j: nat :: i <= j < r.value ==> !OccursAt(s, pat, j)
    ensures r.None? ==> forall j: nat :: i <= j ==> !OccursAt(s, pat, j)
    decreases |s| - i
  {
    if OccursAt(s, pat, i) then Some(i)
    else if i == |s| then None
    else FindFrom(s, pat, i + 1)
  }

  /** The index of the first occurrence of `pat` in `s`, if any. */
  function Find(s: string, pat: string): (r: Option<nat>)
    ensures r.None? <==> !Contains(s, pat)
    ensures r.Some? ==> OccursAt(s, pat, r.value)
    ensures r.Some? ==> forall j: nat :: j < r.value ==> !OccursAt(s, pat, j)
  {
    FindFrom(s, pat, 0)
  }

  /** Python's `s.split(pat, 1)` when `pat in s`: the text before the first
      occurrence, and the text after it. */
  function SplitOnce(s: string, pat: string): (r: Option<(string, string)>)
    requires |pat| > 0
    ensures r.None? <==> !Contains(s, pat)
    ensures r.Some? ==> s == r.value.0 + pat + r.value.1
    ensures r.Some? ==> !Contains(r.value.0, pat)
    ensures r.Some? ==> forall j: nat :: j < |r.value.0| ==> !OccursAt(s, pat, j)
  {
    match Find(s, pat)
    case None => None
    case Some(i) =>
      var before, after := s[..i], s[i + |pat|..];
      assert s == before + pat + after;
      FirstOccurrencePrefix(s, pat, i);
      Some((before, after))
  }

  /** No occurrence lies inside the text before the first occurrence. */
  lemma FirstOccurrencePrefix(s: string, pat: string, i: nat)
    requires i <= |s| && |pat| > 0
    requires forall j: nat :: j < i ==> !OccursAt(s, pat, j)
    ensures !Contains(s[..i], pat)
  {
    if Contains(s[..i], pat) {
      var j: nat :| j <= i && OccursAt(s[..i], pat, j);
      assert j + |pat| <= i;
      assert s[j..j + |pat|] == s[..i][j..j + |pat|];
      assert OccursAt(s, pat, j);
    }
  }

  // ---------------------------------------------------------------------
  // str.split(c) and str.join
  // ---------------------------------------------------------------------

  /** Python's `sep.join(parts)`. */
  function Join(parts: seq<string>, sep: string): string {
    if |parts| == 0 then ""
    else if |parts| == 1 then parts[0]
    else parts[0] + sep + Join(parts[1..], sep)
  }

  /** The index of the first `c` in `s`, if any. */
  function IndexOf(s: string, c: char): (r: Option<nat>)
    ensures r.None? <==> c !in s
    ensures r.Some? ==> r.value < |s| && s[r.value] == c && c !in s[..r.value]
  {
    if |s| == 0 then None
    else if s[0] == c then Some(0)
    else match IndexOf(s[1..], c)
      case None => None
      case Some(i) =>
        assert s[..i + 1] == [s[0]] + s[1..][..i];
        Some(i + 1)
  }

  /** Python's `s.split(c)`: the maximal `c`-free pieces of `s`, in order;
      there is always at least one (`"".split(c) == [""]`). */
  function Split(s: string, c: char): (parts: seq<string>)
    ensures |parts| >= 1
    ensures forall k :: 0 <= k < |parts| ==> c !in parts[k]
    ensures Join(parts, [c]) == s
    decreases |s|
  {
    match IndexOf(s, c)
    case None => [s]
    case Some(i) =>
      var rest := Split(s[i + 1..], c);
      var parts := [s[..i]] + rest;
      assert parts[1..] == rest;
      assert s == s[..i] + [c] + s[i + 1..];
      parts
  }

  /** Splitting undoes joining whenever the separator occurs in no part. */
  lemma {:induction false} SplitJoin(parts: seq<string>, c: char)
    requires |parts| >= 1
    requires forall k :: 0 <= k < |parts| ==> c !in parts[k]
    ensures Split(Join(parts, [c]), c) == parts
    decreases |parts|
  {
    if |parts| == 1 {
      assert Join(parts, [c]) == parts[0];
    } else {
      var tail := parts[1..];
      assert Split(Join(parts, [c]), c) == [parts[0]] + Split(Join(tail, [c]), c) by {
        assert Join(parts, [c]) == parts[0] + [c] + Join(tail, [c]);
        SplitAt(parts[0], Join(tail, [c]), c);
      }
      assert Split(Join(tail, [c]), c) == tail by {
        SplitJoin(tail, c);
      }
      assert parts == [parts[0]] + tail;
    }
  }

  /** The first separator ends the first part. */
  lemma SplitAt(first: string, rest: string, c: char)
    requires c !in first
    ensures Split(first + [c] + rest, c) == [first] + Split(rest, c)
  {
    var s := first + [c] + rest;
    IndexOfAt(first, rest, c);
    assert s[..|first|] == first;
    assert s[|first| + 1..] == rest;
  }

  lemma IndexOfAt(first: string, rest: string, c: char)
    requires c !in first
    ensures IndexOf(first + [c] + rest, c) == Some(|first|)
  {
    var s := first + [c] + rest;
    assert s[|first|] == c;
    var r := IndexOf(s, c);
    assert r.Some?;
    assert r.value >= |first| by {
      assert forall j :: 0 <= j < |first| ==> s[j] == first[j];
    }
    assert forall j :: 0 <= j < r.value ==> s[j] != c by {
      forall j | 0 <= j < r.value
        ensures s[j] != c
      {
        assert s[j] == s[..r.value][j];
      }
    }
  }

  /** Joining one more part appends the separator and that part. */
  lemma {:induction false} JoinSnoc(parts: seq<string>, last: string, sep: string)
    requires |parts| >= 1
    ensures Join(parts + [last], sep) == Join(parts, sep) + sep + last
    decreases |parts|
  {
    var all := parts + [last];
    assert all[1..] == parts[1..] + [last];
    if |parts| == 1 {
      assert all[1..] == [last];
    } else {
      JoinSnoc(parts[1..], last, sep);
    }
  }
}
