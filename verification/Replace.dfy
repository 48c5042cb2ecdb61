/** bytes.ReplaceAll as Go runs it: one scan from left to right, each occurrence found is replaced and skipped. */
module Replace {
  import opened Bytes

  predicate OccursAt(s: Blob, p: Blob, i: int) {
    0 <= i && i + |p| <= |s| && s[i..i + |p|] == p
  }

  ghost predicate Contains(s: Blob, p: Blob) {
    exists i :: OccursAt(s, p, i)
  }

  function ReplaceAll(s: Blob, p: Blob, r: Blob): Blob
    requires p != []
    decreases |s|
  {
    if |s| < |p| then s
    else if s[..|p|] == p then r + ReplaceAll(s[|p|..], p, r)
    else [s[0]] + ReplaceAll(s[1..], p, r)
  }

  lemma OccursShift(s: Blob, p: Blob, k: nat, i: int)
    requires k <= |s| && 0 <= i
    ensures OccursAt(s[k..], p, i) <==> OccursAt(s, p, i + k)
  {
    if i + |p| + k <= |s| {
      assert s[k..][i..i + |p|] == s[i + k..i + k + |p|];
    }
  }

  lemma {:induction false} SameLength(s: Blob, p: Blob, r: Blob)
    requires p != [] && |r| == |p|
    ensures |ReplaceAll(s, p, r)| == |s|
    decreases |s|
  {
    if |s| >= |p| {
      if s[..|p|] == p {
        SameLength(s[|p|..], p, r);
      } else {
        SameLength(s[1..], p, r);
      }
    }
  }

  /** Without an occurrence nothing changes. */
  lemma {:induction false} NothingToReplace(s: Blob, p: Blob, r: Blob)
    requires p != [] && !Contains(s, p)
    ensures ReplaceAll(s, p, r) == s
    decreases |s|
  {
    if |s| >= |p| {
      assert !OccursAt(s, p, 0);
      forall i | OccursAt(s[1..], p, i)
        ensures false
      {
        OccursShift(s, p, 1, i);
      }
      NothingToReplace(s[1..], p, r);
    }
  }

  /** With an occurrence and a different replacement of the same length something does change. */
  lemma {:induction false} SomethingReplaced(s: Blob, p: Blob, r: Blob)
    requires p != [] && |r| == |p| && r != p && Contains(s, p)
    ensures ReplaceAll(s, p, r) != s
    decreases |s|
  {
    var i :| OccursAt(s, p, i);
    if s[..|p|] == p {
      assert ReplaceAll(s, p, r)[..|p|] == r;
    } else {
      assert i > 0;
      OccursShift(s, p, 1, i - 1);
      SomethingReplaced(s[1..], p, r);
      assert ReplaceAll(s, p, r)[1..] == ReplaceAll(s[1..], p, r);
    }
  }

  /** Up to the first occurrence nothing changes; there stands the replacement; and the scan goes on behind the occurrence. */
  lemma {:induction false} FirstThenRest(s: Blob, p: Blob, r: Blob, i: nat)
    requires p != [] && OccursAt(s, p, i) && forall j :: 0 <= j < i ==> !OccursAt(s, p, j)
    ensures ReplaceAll(s, p, r) == s[..i] + (r + ReplaceAll(s[i + |p|..], p, r))
    decreases |s|
  {
    if i > 0 {
      var rest, behind := s[1..], r + ReplaceAll(s[i + |p|..], p, r);
      assert !OccursAt(s, p, 0);
      OccursShift(s, p, 1, i - 1);
      forall j | 0 <= j < i - 1
        ensures !OccursAt(rest, p, j)
      {
        OccursShift(s, p, 1, j);
      }
      FirstThenRest(rest, p, r, i - 1);
      assert rest[i - 1 + |p|..] == s[i + |p|..];
      assert ReplaceAll(rest, p, r) == rest[..i - 1] + behind;
      HeadInFront(s, i, behind);
    }
  }

  lemma HeadInFront(s: Blob, i: nat, behind: Blob)
    requires 0 < i <= |s|
    ensures [s[0]] + (s[1..][..i - 1] + behind) == s[..i] + behind
  {
  }

  // ----- seams between pieces -----

  /** No occurrence lies across the point where `a` ends and `b` begins. */
  ghost predicate CleanSeam(a: Blob, b: Blob, p: Blob) {
    forall i :: OccursAt(a + b, p, i) ==> i + |p| <= |a| || |a| <= i
  }

  lemma CleanSeamDrop(a: Blob, b: Blob, p: Blob, k: nat)
    requires k <= |a| && CleanSeam(a, b, p)
    ensures CleanSeam(a[k..], b, p)
  {
    assert (a + b)[k..] == a[k..] + b;
    forall i | OccursAt(a[k..] + b, p, i)
      ensures i + |p| <= |a[k..]| || |a[k..]| <= i
    {
      OccursShift(a + b, p, k, i);
    }
  }

  /** Across a clean seam both sides can be rewritten on their own. */
  lemma {:induction false} ReplaceAcrossSeam(a: Blob, b: Blob, p: Blob, r: Blob)
    requires p != [] && CleanSeam(a, b, p)
    ensures ReplaceAll(a + b, p, r) == ReplaceAll(a, p, r) + ReplaceAll(b, p, r)
    decreases |a|
  {
    var s, n := a + b, |p|;
    if a == [] {
      assert s == b;
    } else if OccursAt(s, p, 0) {
      assert n <= |a| && a[..n] == p;
      CleanSeamDrop(a, b, p, n);
      assert s[n..] == a[n..] + b;
      ReplaceAcrossSeam(a[n..], b, p, r);
    } else {
      assert |a| >= n ==> a[..n] == s[..n];
      CleanSeamDrop(a, b, p, 1);
      assert s[1..] == a[1..] + b;
      ReplaceAcrossSeam(a[1..], b, p, r);
      if |s| < n {
        assert ReplaceAll(a[1..], p, r) == a[1..] && ReplaceAll(b, p, r) == b;
      } else if |a| < n {
        assert ReplaceAll(a[1..], p, r) == a[1..];
      }
    }
  }

  // ----- can a replacement create a new occurrence? -----

  /** No proper prefix of `p` is also its suffix, so two occurrences never overlap. */
  ghost predicate Unbordered(p: Blob) {
    forall k: nat :: 0 < k < |p| ==> !IsBorder(p, k)
  }

  predicate IsBorder(p: Blob, k: nat)
    requires k <= |p|
  {
    p[..k] == p[|p| - k..]
  }

  /** Rewriting `s` leaves or makes an occurrence of the pattern. */
  ghost predicate Survives(s: Blob, p: Blob, r: Blob)
    requires p != []
  {
    Contains(ReplaceAll(s, p, r), p)
  }

  /** Rewriting `s` a second time changes nothing more. */
  predicate Settles(s: Blob, p: Blob, r: Blob)
    requires p != []
  {
    ReplaceAll(ReplaceAll(s, p, r), p, r) == ReplaceAll(s, p, r)
  }

  /** `r` equals `p`, begins with a proper ending of `p`, or ends with a proper beginning of `p`. */
  ghost predicate Interlocks(p: Blob, r: Blob)
    requires |r| == |p|
  {
    p == r || exists k :: 0 < k < |p| && (BeginsWithEnding(p, r, k) || EndsWithBeginning(p, r, k))
  }

  predicate BeginsWithEnding(p: Blob, r: Blob, k: nat)
    requires k <= |p| == |r|
  {
    r[..k] == p[|p| - k..]
  }

  predicate EndsWithBeginning(p: Blob, r: Blob, k: nat)
    requires k <= |p| == |r|
  {
    r[|r| - k..] == p[..k]
  }

  /** The first `n` bytes of the output are the input's, up to the first replacement if there is one. */
  lemma {:induction false} OutputPrefix(s: Blob, p: Blob, r: Blob, n: nat) returns (j: nat)
    requires p != [] && |r| == |p| && n <= |s|
    ensures |ReplaceAll(s, p, r)| == |s| && j <= n
    ensures ReplaceAll(s, p, r)[..j] == s[..j]
    ensures j < n ==> j + |p| <= |s| && ReplaceAll(s, p, r)[j..j + |p|] == r
    decreases |s|
  {
    SameLength(s, p, r);
    var out := ReplaceAll(s, p, r);
    if n == 0 {
      j := 0;
    } else if |s| < |p| {
      j := n;
    } else if s[..|p|] == p {
      j := 0;
      assert out[..|p|] == r;
    } else {
      var i := OutputPrefix(s[1..], p, r, n - 1);
      j := i + 1;
      var rest := ReplaceAll(s[1..], p, r);
      assert out == [s[0]] + rest;
      assert out[..j] == [s[0]] + rest[..i] == [s[0]] + s[1..][..i] == s[..j];
      assert j < n ==> out[j..j + |p|] == rest[i..i + |p|];
    }
  }

  lemma HeadClash(out: Blob, p: Blob, r: Blob, j: nat)
    requires |r| == |p| && 0 < j < |p| && j + |p| <= |out|
    requires out[j..j + |p|] == r && !BeginsWithEnding(p, r, |p| - j)
    ensures !OccursAt(out, p, 0)
  {
    assert out[..|p|][j..] == out[j..|p|] == out[j..j + |p|][..|p| - j];
  }

  /** At the head of the output there is no occurrence when the replacement does not interlock with the pattern. */
  lemma {:induction false} NoneAtHead(s: Blob, p: Blob, r: Blob)
    requires p != [] && |r| == |p| <= |s| && !Interlocks(p, r)
    ensures !OccursAt(ReplaceAll(s, p, r), p, 0)
  {
    var out, n := ReplaceAll(s, p, r), |p|;
    if s[..n] == p {
      assert out[..n] == r;
    } else {
      var j := OutputPrefix(s, p, r, n);
      if j == 0 {
        assert out[..n] == r;
      } else if j < n {
        assert !BeginsWithEnding(p, r, n - j);
        HeadClash(out, p, r, j);
      } else {
        assert out[..n] == s[..n];
      }
    }
  }

  lemma {:induction false} NoneCreated(s: Blob, p: Blob, r: Blob, i: int)
    requires p != [] && |r| == |p| && !Interlocks(p, r)
    ensures !OccursAt(ReplaceAll(s, p, r), p, i)
    decreases |s|
  {
    SameLength(s, p, r);
    var out, n := ReplaceAll(s, p, r), |p|;
    if |s| >= n && 0 <= i && i + n <= |s| {
      if i == 0 {
        NoneAtHead(s, p, r);
      } else if s[..n] != p {
        NoneCreated(s[1..], p, r, i - 1);
        OccursShift(out, p, 1, i - 1);
        assert out[1..] == ReplaceAll(s[1..], p, r);
      } else if i >= n {
        NoneCreated(s[n..], p, r, i - n);
        OccursShift(out, p, n, i - n);
        assert out[n..] == ReplaceAll(s[n..], p, r);
      } else if out[i..i + n] == p {
        assert r[i..] == out[i..n] == p[..n - i];
        assert EndsWithBeginning(p, r, n - i);
      }
    }
  }

  /** An unbordered pattern put after a proper beginning of itself is found only where it was put. */
  lemma {:induction false} ReplaceAfter(x: Blob, p: Blob, r: Blob)
    requires p != [] && |r| == |p| && Unbordered(p) && |x| < |p|
    ensures ReplaceAll(x + p, p, r) == x + r
    decreases |x|
  {
    var s := x + p;
    if x == [] {
      assert s == p && s[|p|..] == [];
      assert r + [] == r;
    } else {
      var k := |p| - |x|;
      assert !IsBorder(p, k);
      assert s[..|p|][|x|..] == p[..k];
      assert s[1..] == x[1..] + p;
      ReplaceAfter(x[1..], p, r);
      assert x + r == [x[0]] + (x[1..] + r);
    }
  }

  lemma EndingSurvives(p: Blob, r: Blob, k: nat)
    requires |r| == |p| && Unbordered(p) && 0 < k < |p| && BeginsWithEnding(p, r, k)
    ensures Survives(p[..|p| - k] + p, p, r)
  {
    var x := p[..|p| - k];
    ReplaceAfter(x, p, r);
    assert (x + r)[..|p|] == x + r[..k] == p;
    assert OccursAt(x + r, p, 0);
  }

  lemma BeginningSurvives(p: Blob, r: Blob, k: nat)
    requires |r| == |p| && 0 < k < |p| && EndsWithBeginning(p, r, k)
    ensures Survives(p + p[k..], p, r)
  {
    var n, s := |p|, p + p[k..];
    assert s[..n] == p && s[n..] == p[k..];
    assert ReplaceAll(p[k..], p, r) == p[k..];
    assert ReplaceAll(s, p, r) == r + ReplaceAll(s[n..], p, r);
    assert (r + p[k..])[n - k..n - k + n] == r[n - k..] + p[k..] == p;
    assert OccursAt(r + p[k..], p, n - k);
  }

  /** A pattern and a replacement that interlock: some input whose output still shows the pattern. */
  lemma InterlockSurvives(p: Blob, r: Blob) returns (s: Blob)
    requires p != [] && |r| == |p| && Unbordered(p) && Interlocks(p, r)
    ensures Survives(s, p, r)
  {
    if p == r {
      s := p;
      ReplaceBySelf(p, p);
      assert OccursAt(p, p, 0);
    } else {
      var k :| 0 < k < |p| && (BeginsWithEnding(p, r, k) || EndsWithBeginning(p, r, k));
      if BeginsWithEnding(p, r, k) {
        s := p[..|p| - k] + p;
        EndingSurvives(p, r, k);
      } else {
        s := p + p[k..];
        BeginningSurvives(p, r, k);
      }
    }
  }

  /** For an unbordered pattern: no input keeps or gains an occurrence exactly when the two do not interlock. */
  lemma NoneSurvivesIff(p: Blob, r: Blob)
    requires p != [] && |r| == |p| && Unbordered(p)
    ensures (forall s :: !Survives(s, p, r)) <==> !Interlocks(p, r)
  {
    if Interlocks(p, r) {
      var s := InterlockSurvives(p, r);
    } else {
      forall s
        ensures !Survives(s, p, r)
      {
        NoneSurvives(s, p, r);
      }
    }
  }

  lemma NoneSurvives(s: Blob, p: Blob, r: Blob)
    requires p != [] && |r| == |p| && !Interlocks(p, r)
    ensures !Survives(s, p, r) && Settles(s, p, r)
  {
    var out := ReplaceAll(s, p, r);
    forall i
      ensures !OccursAt(out, p, i)
    {
      NoneCreated(s, p, r, i);
    }
    NothingToReplace(out, p, r);
  }

  /** Rewriting twice is rewriting once for every input exactly when nothing survives or nothing is changed at all. */
  lemma SettlesIff(p: Blob, r: Blob)
    requires p != [] && |r| == |p| && Unbordered(p)
    ensures (forall s :: Settles(s, p, r)) <==> p == r || !Interlocks(p, r)
  {
    if p != r && Interlocks(p, r) {
      var s := InterlockSurvives(p, r);
      SomethingReplaced(ReplaceAll(s, p, r), p, r);
      assert !Settles(s, p, r);
    } else {
      forall s
        ensures Settles(s, p, r)
      {
        if p == r {
          ReplaceBySelf(s, p);
        } else {
          NoneSurvives(s, p, r);
        }
      }
    }
  }

  lemma {:induction false} ReplaceBySelf(s: Blob, p: Blob)
    requires p != []
    ensures ReplaceAll(s, p, p) == s
    decreases |s|
  {
    if |s| >= |p| {
      if s[..|p|] == p {
        ReplaceBySelf(s[|p|..], p);
      } else {
        ReplaceBySelf(s[1..], p);
      }
    }
  }

  // ----- what the rewritten bytes are, without the scan -----

  /** Some occurrence of `p` in `s` covers position `j`. */
  ghost predicate Covered(s: Blob, p: Blob, j: int) {
    exists i :: i <= j < i + |p| && OccursAt(s, p, i)
  }

  /** No occurrence begins before `i` and reaches into it. */
  ghost predicate Isolated(s: Blob, p: Blob, i: int) {
    forall j :: i - |p| < j < i ==> !OccursAt(s, p, j)
  }

  lemma IsolatedShift(s: Blob, p: Blob, k: nat, i: nat)
    requires k <= i && k <= |s| && Isolated(s, p, i)
    ensures Isolated(s[k..], p, i - k)
  {
    forall j | i - k - |p| < j < i - k
      ensures !OccursAt(s[k..], p, j)
    {
      if j >= 0 {
        OccursShift(s, p, k, j);
      }
    }
  }

  lemma UnborderedIsIsolated(s: Blob, p: Blob, i: nat)
    requires Unbordered(p) && OccursAt(s, p, i)
    ensures Isolated(s, p, i)
  {
    forall j | i - |p| < j < i
      ensures !OccursAt(s, p, j)
    {
      var k := |p| - (i - j);
      if 0 <= j {
        assert s[j..j + |p|][i - j..] == s[i..j + |p|] == s[i..i + |p|][..k];
        assert !IsBorder(p, k);
      }
    }
  }

  lemma CoveredShift(s: Blob, p: Blob, k: nat, j: nat)
    requires k <= |s| && Covered(s[k..], p, j)
    ensures Covered(s, p, j + k)
  {
    var c :| c <= j < c + |p| && OccursAt(s[k..], p, c);
    OccursShift(s, p, k, c);
  }

  /** An occurrence that no earlier one reaches into becomes the replacement. */
  lemma {:induction false} OccurrenceReplaced(s: Blob, p: Blob, r: Blob, i: nat)
    requires p != [] && |r| == |p|
    requires OccursAt(s, p, i) && Isolated(s, p, i)
    ensures |ReplaceAll(s, p, r)| == |s| && ReplaceAll(s, p, r)[i..i + |p|] == r
    decreases |s|
  {
    SameLength(s, p, r);
    var n := |p|;
    var found := s[..n] == p;
    assert found ==> OccursAt(s, p, 0);
    var k := if found then n else 1;
    if i > 0 {
      OccursShift(s, p, k, i - k);
      IsolatedShift(s, p, k, i);
      OccurrenceReplaced(s[k..], p, r, i - k);
      SliceBehind(if found then r else [s[0]], ReplaceAll(s[k..], p, r), i - k, n);
    }
  }

  /** Every byte that no occurrence covers stays what it was, for any pattern. */
  lemma {:induction false} UncoveredKept(s: Blob, p: Blob, r: Blob, j: nat)
    requires p != [] && |r| == |p|
    requires j < |s| && !Covered(s, p, j)
    ensures |ReplaceAll(s, p, r)| == |s| && ReplaceAll(s, p, r)[j] == s[j]
    decreases |s|
  {
    SameLength(s, p, r);
    var n := |p|;
    if |s| >= n {
      var k := if s[..n] == p then n else 1;
      assert s[..n] == p ==> OccursAt(s, p, 0);
      if j >= k {
        if Covered(s[k..], p, j - k) {
          CoveredShift(s, p, k, j - k);
        }
        UncoveredKept(s[k..], p, r, j - k);
      }
    }
  }
}
