/** String searching, splitting and replacing, with the meaning of Rust's `str` methods. */
module Text {
  import opened Prelude

  /** `pat` occurs in `s` at index `i`. */
  predicate OccursAt(s: string, pat: string, i: nat) {
    i <= |s| && pat <= s[i..]
  }

  lemma OccursInTail(s: string, pat: string)
    requires s != []
    ensures forall i: nat :: i > 0 ==> OccursAt(s, pat, i) == OccursAt(s[1..], pat, i - 1)
  {
    forall i: nat | i > 0
      ensures OccursAt(s, pat, i) == OccursAt(s[1..], pat, i - 1)
    {
      if i <= |s| {
        assert s[1..][i - 1..] == s[i..];
      }
    }
  }

  /** The first occurrence. */
  function Find(s: string, pat: string): (r: Option<nat>)
    ensures r.Some? ==> OccursAt(s, pat, r.value) && forall i: nat :: i < r.value ==> !OccursAt(s, pat, i)
    ensures r.None? ==> forall i: nat :: !OccursAt(s, pat, i)
  {
    if pat <= s then Some(0)
    else if s == [] then None
    else
      OccursInTail(s, pat);
      match Find(s[1..], pat)
      case Some(k) => Some(k + 1)
      case None => None
  }

  /** The last occurrence. */
  function FindLast(s: string, pat: string): (r: Option<nat>)
    ensures r.Some? ==> OccursAt(s, pat, r.value) && forall i: nat :: i > r.value ==> !OccursAt(s, pat, i)
    ensures r.None? ==> forall i: nat :: !OccursAt(s, pat, i)
  {
    FindLastFrom(s, pat, |s|)
  }

  /** The last occurrence at or before `k`. */
  function FindLastFrom(s: string, pat: string, k: nat): (r: Option<nat>)
    requires k <= |s|
    ensures r.Some? ==> OccursAt(s, pat, r.value) && forall i: nat :: r.value < i <= k ==> !OccursAt(s, pat, i)
    ensures r.None? ==> forall i: nat :: i <= k ==> !OccursAt(s, pat, i)
  {
    if OccursAt(s, pat, k) then Some(k)
    else if k == 0 then None
    else FindLastFrom(s, pat, k - 1)
  }

  lemma FindIs(s: string, pat: string, k: nat)
    requires OccursAt(s, pat, k) && forall i: nat :: i < k ==> !OccursAt(s, pat, i)
    ensures Find(s, pat) == Some(k)
  {
  }

  lemma FindLastIs(s: string, pat: string, k: nat)
    requires OccursAt(s, pat, k) && forall i: nat :: i > k ==> !OccursAt(s, pat, i)
    ensures FindLast(s, pat) == Some(k)
  {
  }

  /** Split around the first occurrence. */
  function SplitOnce(s: string, pat: string): (r: Option<(string, string)>)
    ensures r.Some? ==> s == r.value.0 + pat + r.value.1
  {
    match Find(s, pat)
    case Some(i) => Some((s[..i], s[i + |pat|..]))
    case None => None
  }

  /** Split around the last occurrence. */
  function RSplitOnce(s: string, pat: string): (r: Option<(string, string)>)
    ensures r.Some? ==> s == r.value.0 + pat + r.value.1
  {
    match FindLast(s, pat)
    case Some(i) => Some((s[..i], s[i + |pat|..]))
    case None => None
  }

  /** The separator is found where it was put if its first character is absent before it. */
  lemma SplitOnceAt(a: string, pat: string, b: string)
    requires pat != [] && pat[0] !in a
    ensures SplitOnce(a + pat + b, pat) == Some((a, b))
  {
    var s := a + pat + b;
    forall i: nat | i < |a|
      ensures !OccursAt(s, pat, i)
    {
    }
    FindIs(s, pat, |a|);
    assert s[..|a|] == a && s[|a| + |pat|..] == b;
  }

  lemma NotBeforeFirst(s: string, c: char)
    requires SplitOnce(s, [c]).Some?
    ensures c !in SplitOnce(s, [c]).value.0
  {
    var k := Find(s, [c]).value;
    forall i | 0 <= i < k
      ensures s[i] != c
    {
      assert !OccursAt(s, [c], i);
    }
  }

  lemma RSplitOnceChar(a: string, c: char, b: string)
    requires c !in b
    ensures RSplitOnce(a + [c] + b, [c]) == Some((a, b))
  {
    var s := a + [c] + b;
    forall i: nat | i > |a|
      ensures !OccursAt(s, [c], i)
    {
      if i < |s| {
        assert s[i..][0] == b[i - |a| - 1];
      }
    }
    FindLastIs(s, [c], |a|);
    assert s[..|a|] == a && s[|a| + 1..] == b;
  }

  /** The last `::` is the one put before `b` when `b` holds none and does not start with a colon. */
  lemma RSplitOnceColons(a: string, b: string)
    requires b != [] && b[0] != ':' && forall i: nat :: !OccursAt(b, "::", i)
    ensures RSplitOnce(a + "::" + b, "::") == Some((a, b))
  {
    var s := a + "::" + b;
    assert s[|a| + 1..][1] == b[0];
    forall i: nat | i > |a|
      ensures !OccursAt(s, "::", i)
    {
      if |a| + 2 <= i <= |s| {
        assert !OccursAt(b, "::", i - |a| - 2);
      }
    }
    FindLastIs(s, "::", |a|);
    assert s[..|a|] == a && s[|a| + 2..] == b;
  }

  /** Where a string splits is not changed by what follows it. */
  lemma SplitOnceOfPrefix(s: string, t: string, pat: string)
    requires SplitOnce(s, pat).Some?
    ensures SplitOnce(s + t, pat) == Some((SplitOnce(s, pat).value.0, SplitOnce(s, pat).value.1 + t))
  {
    var i := Find(s, pat).value;
    forall j: nat | j <= i
      ensures OccursAt(s + t, pat, j) == OccursAt(s, pat, j)
    {
      OccursInPrefix(s, t, pat, j);
    }
    FindIs(s + t, pat, i);
    assert (s + t)[..i] == s[..i] && (s + t)[i + |pat|..] == s[i + |pat|..] + t;
  }

  lemma OccursInPrefix(s: string, t: string, pat: string, j: nat)
    requires j + |pat| <= |s|
    ensures OccursAt(s + t, pat, j) == OccursAt(s, pat, j)
  {
  }

  /** Every occurrence of `pat`, taken from the left without overlap, replaced by `sub`. */
  function Replace(s: string, pat: string, sub: string): (r: string)
    requires pat != []
    decreases |s|
  {
    if s == [] then []
    else if pat <= s then sub + Replace(s[|pat|..], pat, sub)
    else [s[0]] + Replace(s[1..], pat, sub)
  }
}
