/** The Python `str` operations the core relies on: `strip()`, `in`,
    `split(sep)`, `sep.join(parts)` and `replace(old, new)`, each written out
    over `seq<char>` and related to the others by lemmas.
 */
module Text {
  import opened Storage

  /** The characters for which Python's `str.isspace()` holds. */
  const SpaceChars: set<char> := {
    '\U{9}', '\U{A}', '\U{B}', '\U{C}', '\U{D}',
    '\U{1C}', '\U{1D}', '\U{1E}', '\U{1F}', '\U{20}',
    '\U{85}', '\U{A0}', '\U{1680}',
    '\U{2000}', '\U{2001}', '\U{2002}', '\U{2003}', '\U{2004}', '\U{2005}',
    '\U{2006}', '\U{2007}', '\U{2008}', '\U{2009}', '\U{200A}',
    '\U{2028}', '\U{2029}', '\U{202F}', '\U{205F}', '\U{3000}'
  }

  /** Python's `str.isspace()` for one character. */
  predicate IsSpace(c: char) {
    c in SpaceChars
  }

  predicate AllSpace(s: string) {
    forall k :: 0 <= k < |s| ==> IsSpace(s[k])
  }

  /** The end of the run of white space that starts at index `i`. */
  function SpaceRunEnd(s: string, i: nat): (j: nat)
    requires i <= |s|
    ensures i <= j <= |s|
    ensures forall k :: i <= k < j ==> IsSpace(s[k])
    ensures j < |s| ==> !IsSpace(s[j])
    decreases |s| - i
  {
    if i < |s| && IsSpace(s[i]) then SpaceRunEnd(s, i + 1) else i
  }

  /** The start of the run of white space that ends just before index `j`. */
  function SpaceRunStart(s: string, j: nat): (i: nat)
    requires j <= |s|
    ensures i <= j
    ensures forall k :: i <= k < j ==> IsSpace(s[k])
    ensures 0 < i ==> !IsSpace(s[i - 1])
    decreases j
  {
    if 0 < j && IsSpace(s[j - 1]) then SpaceRunStart(s, j - 1) else j
  }

  /** `s.lstrip()`: `s` without its leading white space. */
  function TrimLeft(s: string): (r: string)
    ensures |r| <= |s| && r == s[|s| - |r|..]
    ensures forall k :: 0 <= k < |s| - |r| ==> IsSpace(s[k])
    ensures r != [] ==> !IsSpace(r[0])
  {
    s[SpaceRunEnd(s, 0)..]
  }

  /** `s.rstrip()`: `s` without its trailing white space. */
  function TrimRight(s: string): (r: string)
    ensures |r| <= |s| && r == s[..|r|]
    ensures forall k :: |r| <= k < |s| ==> IsSpace(s[k])
    ensures r != [] ==> !IsSpace(r[|r| - 1])
  {
    s[..SpaceRunStart(s, |s|)]
  }

  /** `s.strip()`: `s` without its leading and trailing white space. */
  function Strip(s: string): (r: string)
    ensures r != [] ==> !IsSpace(r[0]) && !IsSpace(r[|r| - 1])
  {
    TrimRight(TrimLeft(s))
  }

  /** What `strip()` keeps is one slice of `s`, with only white space cut on
      either side of it. */
  lemma StripIsSlice(s: string)
    ensures var r := Strip(s); var i := |s| - |TrimLeft(s)|;
      && 0 <= i <= |s| - |r| && r == s[i..i + |r|]
      && (forall k :: 0 <= k < i ==> IsSpace(s[k]))
      && (forall k :: i + |r| <= k < |s| ==> IsSpace(s[k]))
  {
    var left := TrimLeft(s);
    var r := TrimRight(left);
    var i := |s| - |left|;
    assert r == s[i..i + |r|];
    forall k | i + |r| <= k < |s|
      ensures IsSpace(s[k])
    {
      assert s[k] == left[k - i];
    }
  }

  /** `strip()` gives the empty text exactly when `s` is white space only. */
  lemma StripEmptyIff(s: string)
    ensures Strip(s) == [] <==> AllSpace(s)
  {
    StripIsSlice(s);
  }

  /** Stripping twice is stripping once. */
  lemma StripIdempotent(s: string)
    ensures Strip(Strip(s)) == Strip(s)
  {
    var r := Strip(s);
    assert TrimLeft(r) == r;
    assert TrimRight(r) == r;
  }

  /** `p` occurs in `s` starting at index `i`. */
  predicate OccursAt(s: string, p: string, i: int) {
    0 <= i && i + |p| <= |s| && s[i..i + |p|] == p
  }

  /** Python's `p in s`. */
  predicate Contains(s: string, p: string) {
    exists i :: 0 <= i <= |s| - |p| && OccursAt(s, p, i)
  }

  lemma ContainsChar(s: string, c: char)
    ensures Contains(s, [c]) <==> c in s
  {
    if c in s {
      var i :| 0 <= i < |s| && s[i] == c;
      assert OccursAt(s, [c], i);
    }
    if Contains(s, [c]) {
      var i :| 0 <= i <= |s| - 1 && OccursAt(s, [c], i);
      assert s[i..i + 1][0] == s[i];
    }
  }

  /** The first index at or after `i` where `p` occurs in `s`, if any: the
      left-to-right search `str.find` performs. */
  function FindFrom(s: string, p: string, i: nat): (r: Option<nat>)
    requires p != []
    ensures r.Some? ==> i <= r.value && OccursAt(s, p, r.value)
    ensures r.Some? ==> forall j :: i <= j < r.value ==> !OccursAt(s, p, j)
    ensures r.None? ==> forall j :: i <= j ==> !OccursAt(s, p, j)
    decreases |s| - i
  {
    if i + |p| > |s| then None
    else if OccursAt(s, p, i) then Some(i)
    else FindFrom(s, p, i + 1)
  }

  /** The search finds exactly the leftmost occurrence. */
  lemma FindFromIsLeftmost(s: string, p: string, i: nat, m: nat)
    requires p != [] && i <= m && OccursAt(s, p, m)
    requires forall j :: i <= j < m ==> !OccursAt(s, p, j)
    ensures FindFrom(s, p, i) == Some(m)
  {
  }

  /** The search finds something exactly when `p in s`. */
  lemma FindIffContains(s: string, p: string)
    requires p != []
    ensures FindFrom(s, p, 0).Some? <==> Contains(s, p)
  {
  }

  /** `s.split(p)` for a non-empty separator: the text up to the leftmost
      occurrence of `p`, then the split of what follows that occurrence;
      the whole text when `p` does not occur. */
  function Split(s: string, p: string): (parts: seq<string>)
    requires p != []
    ensures |parts| >= 1
    decreases |s|
  {
    match FindFrom(s, p, 0)
    case None => [s]
    case Some(i) => [s[..i]] + Split(s[i + |p|..], p)
  }

  /** `sep.join(parts)` for a non-empty list of pieces. */
  function Join(parts: seq<string>, sep: string): string
    requires |parts| >= 1
  {
    if |parts| == 1 then parts[0] else parts[0] + sep + Join(parts[1..], sep)
  }

  /** `s.replace(p, r)` for a non-empty pattern: every non-overlapping
      occurrence of `p`, found from left to right, becomes `r`. */
  function ReplaceAll(s: string, p: string, r: string): string
    requires p != []
    decreases |s|
  {
    match FindFrom(s, p, 0)
    case None => s
    case Some(i) => s[..i] + r + ReplaceAll(s[i + |p|..], p, r)
  }

  /** `s.replace(p, r)` equals `r.join(s.split(p))`: the pieces between the
      occurrences are kept and each occurrence becomes `r`. */
  lemma {:induction false} ReplaceIsJoinOfSplit(s: string, p: string, r: string)
    requires p != []
    ensures ReplaceAll(s, p, r) == Join(Split(s, p), r)
    decreases |s|
  {
    match FindFrom(s, p, 0)
    case None =>
    case Some(i) =>
      var tail := s[i + |p|..];
      ReplaceIsJoinOfSplit(tail, p, r);
      var parts := Split(s, p);
      assert parts == [s[..i]] + Split(tail, p);
      assert parts[1..] == Split(tail, p);
  }

  /** Replacing a pattern by itself leaves the text as it was. */
  lemma {:induction false} ReplaceBySelf(s: string, p: string)
    requires p != []
    ensures ReplaceAll(s, p, p) == s
    decreases |s|
  {
    match FindFrom(s, p, 0)
    case None =>
    case Some(i) =>
      ReplaceBySelf(s[i + |p|..], p);
      assert s == s[..i] + s[i..i + |p|] + s[i + |p|..];
  }

  /** Joining the pieces of a split with the same separator gives back the text. */
  lemma SplitJoinRoundTrip(s: string, p: string)
    requires p != []
    ensures Join(Split(s, p), p) == s
  {
    ReplaceIsJoinOfSplit(s, p, p);
    ReplaceBySelf(s, p);
  }

  /** The first piece of a split is a prefix of the text. */
  lemma SplitHeadIsPrefix(s: string, p: string)
    requires p != []
    ensures Split(s, p)[0] <= s
  {
  }

  /** The first piece of a split holds no occurrence of the separator. */
  lemma SplitHeadIsFree(s: string, p: string)
    requires p != []
    ensures !Contains(Split(s, p)[0], p)
  {
    match FindFrom(s, p, 0)
    case None =>
    case Some(i) =>
      var h := s[..i];
      forall j | 0 <= j <= |h| - |p|
        ensures !OccursAt(h, p, j)
      {
        if OccursAt(h, p, j) {
          assert s[j..j + |p|] == h[j..j + |p|];
          assert OccursAt(s, p, j) && j < i;
        }
      }
  }

  /** When `p` first occurs at `m`, the split is the text before `m` followed
      by the split of what comes after that occurrence. */
  lemma SplitAtLeftmost(s: string, p: string, m: nat)
    requires p != [] && OccursAt(s, p, m)
    requires forall j :: 0 <= j < m ==> !OccursAt(s, p, j)
    ensures Split(s, p) == [s[..m]] + Split(s[m + |p|..], p)
  {
    FindFromIsLeftmost(s, p, 0, m);
  }

  /** A text without the separator is its own single piece. */
  lemma SplitOfFree(s: string, p: string)
    requires p != [] && !Contains(s, p)
    ensures Split(s, p) == [s]
  {
    FindIffContains(s, p);
  }

  /** Either the split has one piece, the whole text, or the separator follows
      the first piece and the remaining pieces are the split of what comes
      after that occurrence. */
  lemma SplitFirstPiece(s: string, p: string)
    requires p != []
    ensures var parts := Split(s, p);
      && (|parts| == 1 ==> parts[0] == s)
      && (|parts| > 1 ==>
            && OccursAt(s, p, |parts[0]|)
            && parts[1..] == Split(s[|parts[0]| + |p|..], p))
  {
    match FindFrom(s, p, 0)
    case None =>
    case Some(i) =>
      var parts := Split(s, p);
      assert parts == [s[..i]] + Split(s[i + |p|..], p);
      assert parts[1..] == Split(s[i + |p|..], p);
  }

  /** A text that contains the separator splits into at least two pieces. */
  lemma SplitOfContained(s: string, p: string)
    requires p != [] && Contains(s, p)
    ensures |Split(s, p)| > 1
  {
    FindIffContains(s, p);
  }

  /** Every piece of a split is free of the separator. */
  lemma {:induction false} SplitPiecesFree(s: string, p: string, k: nat)
    requires p != [] && k < |Split(s, p)|
    ensures !Contains(Split(s, p)[k], p)
    decreases |s|
  {
    SplitHeadIsFree(s, p);
    if k > 0 {
      var i := FindFrom(s, p, 0).value;
      var tail := s[i + |p|..];
      SplitPiecesFree(tail, p, k - 1);
      assert Split(s, p)[k] == Split(tail, p)[k - 1];
    }
  }

  /** A joined text contains the separator whenever there are two pieces or more. */
  lemma JoinContainsSeparator(parts: seq<string>, sep: string)
    requires |parts| > 1
    ensures OccursAt(Join(parts, sep), sep, |parts[0]|)
  {
    var j := Join(parts, sep);
    assert j == parts[0] + sep + Join(parts[1..], sep);
    assert j[|parts[0]|..|parts[0]| + |sep|] == sep;
  }
}
