/** `unique`: the tiles of the match lists with repeated cells dropped,
    keeping the first occurrence of each and the order of the input. */
module Dedup {
  import opened Grid

  /** The sequence with every occurrence of d removed, order kept. */
  function Without(s: seq<Cell>, d: Cell): (r: seq<Cell>)
    ensures |r| <= |s|
    ensures forall e :: e in r <==> e in s && e != d
  {
    if s == [] then [] else (if s[0] == d then [] else [s[0]]) + Without(s[1..], d)
  }

  /** Keep each element's first occurrence: the head stays, and its later copies go. */
  function Unique(s: seq<Cell>): seq<Cell>
    decreases |s|
  {
    if s == [] then [] else [s[0]] + Unique(Without(s[1..], s[0]))
  }

  predicate Distinct(s: seq<Cell>) {
    forall i, j :: 0 <= i < j < |s| ==> s[i] != s[j]
  }

  /** `a` can be obtained from `b` by deleting elements. */
  predicate IsSubsequence(a: seq<Cell>, b: seq<Cell>)
    decreases |b|
  {
    if a == [] then true
    else if b == [] then false
    else if a[0] == b[0] then IsSubsequence(a[1..], b[1..])
    else IsSubsequence(a, b[1..])
  }

  /** Removing d from a concatenation removes it from both parts. */
  lemma {:induction false} WithoutAppend(a: seq<Cell>, b: seq<Cell>, d: Cell)
    ensures Without(a + b, d) == Without(a, d) + Without(b, d)
  {
    if a != [] {
      assert (a + b)[0] == a[0] && (a + b)[1..] == a[1..] + b;
      WithoutAppend(a[1..], b, d);
    } else {
      assert a + b == b;
    }
  }

  /** No element appears twice in the result, and exactly the input's elements appear. */
  lemma {:induction false} UniqueDistinct(s: seq<Cell>)
    ensures Distinct(Unique(s))
    ensures forall e :: e in Unique(s) <==> e in s
    decreases |s|
  {
    if s != [] {
      var rest := Without(s[1..], s[0]);
      UniqueDistinct(rest);
      var u := Unique(s);
      assert u == [s[0]] + Unique(rest);
      forall i, j | 0 <= i < j < |u|
        ensures u[i] != u[j]
      {
        if i == 0 {
          assert u[j] in Unique(rest);
        } else {
          assert u[i] == Unique(rest)[i - 1] && u[j] == Unique(rest)[j - 1];
        }
      }
      forall e
        ensures e in u <==> e in s
      {
        assert e in s <==> e == s[0] || e in s[1..];
      }
    }
  }

  /** A sequence without repetitions is left as it is. */
  lemma {:induction false} UniqueOfDistinct(s: seq<Cell>)
    requires Distinct(s)
    ensures Unique(s) == s
    decreases |s|
  {
    if s != [] {
      WithoutAbsent(s[1..], s[0]);
      assert Distinct(s[1..]) by {
        forall i, j | 0 <= i < j < |s[1..]| ensures s[1..][i] != s[1..][j] {
          assert s[1..][i] == s[i + 1] && s[1..][j] == s[j + 1];
        }
      }
      UniqueOfDistinct(s[1..]);
      assert s == [s[0]] + s[1..];
    }
  }

  lemma {:induction false} WithoutAbsent(s: seq<Cell>, d: Cell)
    requires d !in s
    ensures Without(s, d) == s
  {
    if s != [] {
      WithoutAbsent(s[1..], d);
      assert s == [s[0]] + s[1..];
    }
  }

  /** A subsequence of the tail is a subsequence of the whole. */
  lemma {:induction false} SubsequenceExtend(a: seq<Cell>, b: seq<Cell>)
    requires b != [] && IsSubsequence(a, b[1..])
    ensures IsSubsequence(a, b)
    decreases |b|, 1
  {
    if a != [] && a[0] == b[0] {
      SubsequenceDropFirst(a, b[1..]);
    }
  }

  /** Dropping the head of a subsequence keeps it a subsequence. */
  lemma {:induction false} SubsequenceDropFirst(a: seq<Cell>, b: seq<Cell>)
    requires a != [] && IsSubsequence(a, b)
    ensures IsSubsequence(a[1..], b)
    decreases |b|, 2
  {
    if a[0] != b[0] {
      SubsequenceDropFirst(a, b[1..]);
    }
    SubsequenceExtend(a[1..], b);
  }

  /** Subsequence is transitive. */
  lemma {:induction false} SubsequenceTrans(a: seq<Cell>, b: seq<Cell>, c: seq<Cell>)
    requires IsSubsequence(a, b) && IsSubsequence(b, c)
    ensures IsSubsequence(a, c)
    decreases |c|
  {
    if a != [] {
      if b[0] == c[0] {
        if a[0] == b[0] {
          SubsequenceTrans(a[1..], b[1..], c[1..]);
        } else {
          SubsequenceTrans(a, b[1..], c[1..]);
        }
      } else {
        SubsequenceTrans(a, b, c[1..]);
        if a[0] == c[0] {
          SubsequenceDropFirst(a, c[1..]);
        }
      }
    }
  }

  /** Removing an element keeps the rest in order. */
  lemma {:induction false} WithoutSubsequence(s: seq<Cell>, d: Cell)
    ensures IsSubsequence(Without(s, d), s)
  {
    if s != [] {
      WithoutSubsequence(s[1..], d);
      if s[0] == d {
        assert Without(s, d) == Without(s[1..], d);
        SubsequenceExtend(Without(s, d), s);
      } else {
        assert Without(s, d) == [s[0]] + Without(s[1..], d);
      }
    }
  }

  /** The result keeps the input's order: it is a subsequence of the input. */
  lemma {:induction false} UniqueSubsequence(s: seq<Cell>)
    ensures IsSubsequence(Unique(s), s)
    decreases |s|
  {
    if s != [] {
      var rest := Without(s[1..], s[0]);
      UniqueSubsequence(rest);
      WithoutSubsequence(s[1..], s[0]);
      SubsequenceTrans(Unique(rest), rest, s[1..]);
      assert Unique(s)[1..] == Unique(rest);
    }
  }

  /** Splicing out, at j, a later copy of the entry at i keeps the entries up
      to i and what remains after them once the copies are dropped. */
  lemma SpliceCopy(u: seq<Cell>, i: int, j: int)
    requires 0 <= i < j < |u| && u[j] == u[i]
    ensures var v := u[..j] + u[j + 1..];
      && v[..i + 1] == u[..i + 1]
      && Without(v[i + 1..], u[i]) == Without(u[i + 1..], u[i])
      && (forall k :: i + 1 <= k < j ==> v[k] == u[k])
  {
    var v := u[..j] + u[j + 1..];
    assert v[i + 1..] == u[i + 1..j] + u[j + 1..];
    assert u[i + 1..] == u[i + 1..j] + ([u[j]] + u[j + 1..]);
    WithoutAppend(u[i + 1..j], u[j + 1..], u[i]);
    WithoutAppend(u[i + 1..j], [u[j]] + u[j + 1..], u[i]);
    WithoutAppend([u[j]], u[j + 1..], u[i]);
  }

  /** Once the copies of entry i are gone from the rest, the entries up to i
      followed by the deduplicated rest are the deduplicated suffix from i. */
  lemma UniqueStep(before: seq<Cell>, u: seq<Cell>, i: int)
    requires 0 <= i < |before| && i < |u|
    requires u[..i + 1] == before[..i + 1]
    requires u[i + 1..] == Without(before[i + 1..], before[i])
    ensures u[..i + 1] + Unique(u[i + 1..]) == before[..i] + Unique(before[i..])
  {
    assert before[i..][1..] == before[i + 1..];
    assert before[i..][0] == before[i] == u[i];
    assert u[..i + 1] == before[..i] + [u[i]];
  }
}
