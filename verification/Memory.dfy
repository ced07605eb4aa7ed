// Sequences as memories: storing at a position, and what is where afterwards.
module Memory {
  function Min(a: int, b: int): int { if a < b then a else b }

  // A memory after s has been stored at position at.
  function Stored<T>(m: seq<T>, at: nat, s: seq<T>): (r: seq<T>)
    requires at + |s| <= |m|
    ensures |r| == |m|
  {
    m[..at] + s + m[at + |s|..]
  }

  method StoreAt<T>(a: array<T>, at: nat, s: seq<T>)
    requires at + |s| <= a.Length
    modifies a
    ensures a[..] == Stored(old(a[..]), at, s)
  {
    forall i | 0 <= i < |s| { a[at + i] := s[i]; }
  }

  lemma StoredNone<T>(m: seq<T>, at: nat)
    requires at <= |m|
    ensures Stored(m, at, []) == m
  {}

  // What is where after a store.
  lemma StoredReads<T>(m: seq<T>, at: nat, s: seq<T>)
    requires at + |s| <= |m|
    ensures Stored(m, at, s)[at..at + |s|] == s
    ensures Stored(m, at, s)[..at] == m[..at] && Stored(m, at, s)[at + |s|..] == m[at + |s|..]
  {}

  // A store at the end of a region extends it.
  lemma StoredExtends<T>(m: seq<T>, lo: nat, at: nat, s: seq<T>)
    requires lo <= at && at + |s| <= |m|
    ensures Stored(m, at, s)[lo..at + |s|] == m[lo..at] + s
  {
    hide Stored;
    var w := Stored(m, at, s);
    StoredReads(m, at, s);
    assert w[lo..at] == w[..at][lo..] && m[lo..at] == m[..at][lo..];
    assert w[lo..at + |s|] == w[lo..at] + w[at..at + |s|];
  }

  lemma StoredTwice<T>(m: seq<T>, at: nat, a: seq<T>, b: seq<T>)
    requires at + |a| + |b| <= |m|
    ensures Stored(Stored(m, at, a), at + |a|, b) == Stored(m, at, a + b)
  {}

  // A store just before another.
  lemma StoredBefore<T>(m: seq<T>, at: nat, a: seq<T>, b: seq<T>)
    requires at + |a| + |b| <= |m|
    ensures Stored(Stored(m, at + |a|, b), at, a) == Stored(m, at, a + b)
  {}

  // What a store leaves alone.
  lemma StoredKeeps<T>(m: seq<T>, at: nat, s: seq<T>, lo: nat, hi: nat)
    requires at + |s| <= |m| && lo <= hi <= |m|
    requires hi <= at || at + |s| <= lo
    ensures Stored(m, at, s)[lo..hi] == m[lo..hi]
  {
    hide Stored;
    var w := Stored(m, at, s);
    StoredReads(m, at, s);
    forall x | lo <= x < hi ensures w[x] == m[x] {
      if x < at {
        assert w[x] == w[..at][x];
      } else {
        assert w[x] == w[at + |s|..][x - at - |s|];
      }
    }
  }

  lemma StoredWhole<T>(m: seq<T>, w: seq<T>, s: seq<T>)
    requires |s| <= |m| == |w| && w[..|s|] == s && w[|s|..] == m[|s|..]
    ensures w == Stored(m, 0, s)
  {}

  // A slice of a slice.
  lemma Sliced<T>(m: seq<T>, a: nat, b: nat, c: nat, d: nat)
    requires a <= b <= |m| && c <= d <= b - a
    ensures m[a..b][c..d] == m[a + c..a + d]
  {
    var s := m[a..b];
    forall k | c <= k < d ensures s[k] == m[a + k] {}
    assert |s[c..d]| == d - c;
    forall k | 0 <= k < d - c ensures s[c..d][k] == m[a + c..a + d][k] {
      assert s[c..d][k] == s[c + k];
    }
  }

  lemma Joined3<T>(m: seq<T>, a: nat, b: nat, c: nat, d: nat)
    requires a <= b <= c <= d <= |m|
    ensures m[a..b] + m[b..c] + m[c..d] == m[a..d]
  {}

  lemma Rest<T>(m: seq<T>, i: nat)
    requires i <= |m|
    ensures m[i..] == m[i..|m|]
  {
    assert m[..|m|] == m;
  }

  lemma Rejoin<T>(m: seq<T>, i: nat)
    requires i <= |m|
    ensures m == m[..i] + m[i..]
  {}

  // A prefix and a suffix of a + b, seen from within b.
  lemma Regroup<T>(a: seq<T>, b: seq<T>, k: nat, l: nat)
    requires k <= |b| && l <= |b| - k
    ensures (a + b)[..|a| + k + l] == (a + b[..k]) + b[k..][..l]
    ensures (a + b)[|a| + k + l..] == b[k..][l..]
  {}

  // Two ways of cutting one sequence.
  lemma Overlap<T>(a: seq<T>, b: seq<T>, c: seq<T>, d: seq<T>)
    requires a + b == c + d && |a| <= |c|
    ensures c[..|a|] == a && b[..|c| - |a|] == c[|a|..] && b[|c| - |a|..] == d
    ensures c == a + b[..|c| - |a|] && b == b[..|c| - |a|] + d
  {
    var k := |c| - |a|;
    assert (a + b)[..|a|] == (c + d)[..|a|];
    assert (a + b)[|a|..] == (c + d)[|a|..];
    assert (c + d)[..|a|] == c[..|a|] && (c + d)[|a|..] == c[|a|..] + d;
    assert c == c[..|a|] + c[|a|..];
  }

  lemma Associative<T>(a: seq<T>, b: seq<T>, c: seq<T>)
    ensures a + b + c == a + (b + c)
  {}

  // Cutting a + b beyond a cut of a.
  lemma Recut<T>(a: seq<T>, b: seq<T>, k: nat, l: nat)
    requires k <= |a| && l <= |a| - k + |b|
    ensures (a + b)[..k + l] == a[..k] + (a[k..] + b)[..l]
    ensures (a + b)[k + l..] == (a[k..] + b)[l..]
  {}
}
