// The two functions of Go's `strings` package that the monitor uses to cut
// a domain key out of a URL: `strings.Index` (through `strings.Split`) and
// `strings.Split` itself, together with `strings.Join`, their documented
// inverse.

module GoStrings {

  /** `sep` occurs in `s` starting at position `k`. */
  predicate OccursAt(s: string, sep: string, k: int)
  {
    0 <= k && k + |sep| <= |s| && s[k..k + |sep|] == sep
  }

  /** An occurrence in `s[1..]` is an occurrence in `s` one position later. */
  lemma OccursAtTail(s: string, sep: string, k: int)
    requires |s| >= 1 && 0 <= k
    ensures OccursAt(s[1..], sep, k) <==> OccursAt(s, sep, k + 1)
  {
    if k + |sep| <= |s| - 1 {
      assert s[1..][k..k + |sep|] == s[k + 1..k + 1 + |sep|];
    }
  }

  /** A one-character separator occurs exactly where that character is. */
  lemma OccursAtChar(s: string, c: char, k: int)
    requires 0 <= k < |s|
    ensures OccursAt(s, [c], k) <==> s[k] == c
  {
    assert s[k..k + 1] == [s[k]];
  }

  /** An occurrence starts with the separator's first character. */
  lemma OccursAtHead(s: string, sep: string, k: int)
    requires OccursAt(s, sep, k) && sep != ""
    ensures s[k] == sep[0]
  {
    assert s[k..k + |sep|][0] == s[k];
  }

  /** The first position at or after `k` at which `sep` occurs in `s`, or
      -1 when it occurs at none of them. */
  function IndexFrom(s: string, sep: string, k: nat): (i: int)
    ensures -1 <= i <= |s|
    ensures i >= 0 ==> k <= i && OccursAt(s, sep, i)
    ensures forall j :: k <= j && (i < 0 || j < i) ==> !OccursAt(s, sep, j)
    decreases |s| - k
  {
    if k + |sep| > |s| then -1
    else if s[k..k + |sep|] == sep then k
    else IndexFrom(s, sep, k + 1)
  }

  /** strings.Index: the first position at which `sep` occurs in `s`, or -1
      when it does not occur at all (an empty `sep` occurs at 0). */
  function Index(s: string, sep: string): (i: int)
    ensures -1 <= i <= |s|
    ensures i >= 0 ==> OccursAt(s, sep, i)
    ensures forall k :: 0 <= k && (i < 0 || k < i) ==> !OccursAt(s, sep, k)
  {
    IndexFrom(s, sep, 0)
  }

  /** Any position with an occurrence and none before it is the Index. */
  lemma IndexIsFirst(s: string, sep: string, i: int)
    requires OccursAt(s, sep, i)
    requires forall k :: 0 <= k < i ==> !OccursAt(s, sep, k)
    ensures Index(s, sep) == i
  {
  }

  /** strings.Split with a non-empty separator: the pieces of `s` between
      successive non-overlapping occurrences of `sep`, found left to right. */
  function Split(s: string, sep: string): (parts: seq<string>)
    requires sep != ""
    ensures |parts| >= 1
    decreases |s|
  {
    var i := Index(s, sep);
    if i < 0 then [s] else [s[..i]] + Split(s[i + |sep|..], sep)
  }

  /** There is more than one part exactly when `sep` occurs. */
  lemma SplitCount(s: string, sep: string)
    requires sep != ""
    ensures |Split(s, sep)| == 1 <==> Index(s, sep) < 0
  {
    var i := Index(s, sep);
    if i >= 0 {
      var tail := Split(s[i + |sep|..], sep);
      assert |Split(s, sep)| == 1 + |tail|;
    }
  }

  /** The first part runs up to the first occurrence of `sep`, or is all of
      `s`; when `sep` occurs, the second part is the first part of what
      follows that occurrence. */
  lemma SplitHead(s: string, sep: string)
    requires sep != ""
    ensures var i := Index(s, sep);
      && Split(s, sep)[0] == (if i < 0 then s else s[..i])
      && (i >= 0 ==> |Split(s, sep)| >= 2 && Split(s, sep)[1] == Split(s[i + |sep|..], sep)[0])
  {
  }

  /** A string is its three consecutive slices put back together. */
  lemma SliceSplit3(s: string, i: int, j: int)
    requires 0 <= i <= j <= |s|
    ensures s == s[..i] + s[i..j] + s[j..]
  {
    assert s[..j] == s[..i] + s[i..j];
  }

  /** A prefix of a suffix is a slice of the string. */
  lemma PrefixOfSuffix(s: string, a: int, n: int)
    requires 0 <= a && 0 <= n && a + n <= |s|
    ensures s[a..][..n] == s[a..a + n]
  {
  }

  /** The first part of a split is a prefix of the string that contains no
      separator; when it is shorter than the string, a separator follows it. */
  lemma SplitFirstPart(s: string, sep: string)
    requires sep != ""
    ensures var p := Split(s, sep)[0];
      && |p| <= |s| && p == s[..|p|]
      && Index(p, sep) < 0
      && (|p| < |s| ==> OccursAt(s, sep, |p|))
  {
    SplitHead(s, sep);
    SplitPartsFree(s, sep, 0);
  }

  /** An occurrence in a suffix is an occurrence in the whole string. */
  lemma OccursAtSuffix(s: string, sep: string, a: int, k: int)
    requires 0 <= a <= |s| && OccursAt(s[a..], sep, k)
    ensures OccursAt(s, sep, a + k)
  {
    assert s[a..][k..k + |sep|] == s[a + k..a + k + |sep|];
  }

  /** When `sep` occurs, the second part is the first part of what follows
      the first occurrence. */
  lemma SplitSecondIsFirstOfRest(s: string, sep: string)
    requires sep != "" && Index(s, sep) >= 0
    ensures |Split(s, sep)| >= 2
    ensures Index(s, sep) + |sep| <= |s|
    ensures Split(s, sep)[1] == Split(s[Index(s, sep) + |sep|..], sep)[0]
  {
    SplitHead(s, sep);
  }

  /** When `sep` occurs, the second part starts right after its first
      occurrence and is followed by another occurrence unless it runs to the
      end of the string. */
  lemma SplitSecondPart(s: string, sep: string)
    requires sep != "" && Index(s, sep) >= 0
    ensures |Split(s, sep)| >= 2
    ensures var start, p := Index(s, sep) + |sep|, Split(s, sep)[1];
      && start <= |s|
      && |p| <= |s| - start && p == s[start..start + |p|]
      && (start + |p| < |s| ==> OccursAt(s, sep, start + |p|))
  {
    var start := Index(s, sep) + |sep|;
    SplitSecondIsFirstOfRest(s, sep);
    var p := Split(s, sep)[1];
    FollowedPart(s, sep, start, p);
  }

  /** A part that is the first part of the suffix from `start` is a slice
      of the string, followed by an occurrence unless it runs to the end. */
  lemma FollowedPart(s: string, sep: string, start: int, p: string)
    requires sep != "" && 0 <= start <= |s| && p == Split(s[start..], sep)[0]
    ensures |p| <= |s| - start && p == s[start..start + |p|]
    ensures start + |p| < |s| ==> OccursAt(s, sep, start + |p|)
  {
    SplitFirstPart(s[start..], sep);
    if start + |p| < |s| {
      OccursAtSuffix(s, sep, start, |p|);
    }
    PrefixOfSuffix(s, start, |p|);
  }

  /** strings.Join: the parts with `sep` between consecutive ones. */
  function Join(parts: seq<string>, sep: string): string
  {
    if |parts| == 0 then ""
    else if |parts| == 1 then parts[0]
    else parts[0] + sep + Join(parts[1..], sep)
  }

  /** Splitting loses nothing: joining the parts back gives the string. */
  lemma {:induction false} JoinSplit(s: string, sep: string)
    requires sep != ""
    ensures Join(Split(s, sep), sep) == s
    decreases |s|
  {
    var i := Index(s, sep);
    if i >= 0 {
      var rest := s[i + |sep|..];
      JoinSplit(rest, sep);
      var tail := Split(rest, sep);
      var parts := Split(s, sep);
      assert parts == [s[..i]] + tail;
      assert |parts| >= 2 && parts[0] == s[..i] && parts[1..] == tail;
      assert Join(parts, sep) == s[..i] + sep + Join(tail, sep);
      assert s[i..i + |sep|] == sep;
      SliceSplit3(s, i, i + |sep|);
    }
  }

  /** No part of a split contains the separator. */
  lemma {:induction false} SplitPartsFree(s: string, sep: string, n: int)
    requires sep != ""
    requires 0 <= n < |Split(s, sep)|
    ensures Index(Split(s, sep)[n], sep) < 0
    decreases |s|
  {
    var i := Index(s, sep);
    var p := Split(s, sep)[n];
    if i < 0 {
    } else if n == 0 {
      assert p == s[..i];
      forall k | 0 <= k
        ensures !OccursAt(p, sep, k)
      {
        if OccursAt(p, sep, k) {
          assert s[..i][k..k + |sep|] == s[k..k + |sep|];
          assert OccursAt(s, sep, k);
        }
      }
    } else {
      var rest := s[i + |sep|..];
      assert Split(s, sep) == [s[..i]] + Split(rest, sep);
      SplitPartsFree(rest, sep, n - 1);
    }
  }
}
