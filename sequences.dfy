/**
 * Order facts about sequences that the feature catalog relies on: a result
 * "in catalog order" is a subsequence of the catalog, and a subsequence of a
 * duplicate-free sequence is itself duplicate-free, no longer than it, and
 * determined by its members.
 */
module Sequences {

  /** No element occurs twice in `s`. */
  predicate Distinct<T(==)>(s: seq<T>) {
    forall i, j | 0 <= i < j < |s| :: s[i] != s[j]
  }

  /** `r` can be obtained from `s` by deleting elements: each element of `s`
      is either used for the next element of `r` or skipped. */
  predicate IsSubseq<T(==)>(r: seq<T>, s: seq<T>)
    decreases |s|
  {
    if s == [] then r == []
    else (r != [] && r[0] == s[0] && IsSubseq(r[1..], s[1..])) || IsSubseq(r, s[1..])
  }

  lemma {:induction false} SubseqMembers<T>(r: seq<T>, s: seq<T>)
    requires IsSubseq(r, s)
    ensures forall x | x in r :: x in s
    decreases |s|
  {
    if s == [] {
    } else if r != [] && r[0] == s[0] && IsSubseq(r[1..], s[1..]) {
      SubseqMembers(r[1..], s[1..]);
      forall x | x in r ensures x in s {
        if x != r[0] {
          assert x in r[1..];
        }
      }
    } else {
      SubseqMembers(r, s[1..]);
    }
  }

  lemma {:induction false} SubseqLength<T>(r: seq<T>, s: seq<T>)
    requires IsSubseq(r, s)
    ensures |r| <= |s|
    decreases |s|
  {
    if s == [] {
    } else if r != [] && r[0] == s[0] && IsSubseq(r[1..], s[1..]) {
      SubseqLength(r[1..], s[1..]);
    } else {
      SubseqLength(r, s[1..]);
    }
  }

  lemma {:induction false} SubseqDistinct<T>(r: seq<T>, s: seq<T>)
    requires IsSubseq(r, s) && Distinct(s)
    ensures Distinct(r)
    decreases |s|
  {
    if s == [] {
    } else if r != [] && r[0] == s[0] && IsSubseq(r[1..], s[1..]) {
      SubseqDistinct(r[1..], s[1..]);
      SubseqMembers(r[1..], s[1..]);
      assert s[0] !in s[1..];
      forall i, j | 0 <= i < j < |r| ensures r[i] != r[j] {
        assert r[j] == r[1..][j - 1];
        if i > 0 {
          assert r[i] == r[1..][i - 1];
        }
      }
    } else {
      SubseqDistinct(r, s[1..]);
    }
  }

  lemma {:induction false} SubseqTransitive<T>(a: seq<T>, b: seq<T>, c: seq<T>)
    requires IsSubseq(a, b) && IsSubseq(b, c)
    ensures IsSubseq(a, c)
    decreases |c|
  {
    if c == [] {
    } else if b != [] && b[0] == c[0] && IsSubseq(b[1..], c[1..]) {
      if a != [] && a[0] == b[0] && IsSubseq(a[1..], b[1..]) {
        SubseqTransitive(a[1..], b[1..], c[1..]);
      } else {
        SubseqTransitive(a, b[1..], c[1..]);
      }
    } else {
      SubseqTransitive(a, b, c[1..]);
    }
  }

  /** A subsequence of a duplicate-free sequence is fixed by its set of
      members: the order is the one `s` imposes. */
  lemma {:induction false} SubseqUnique<T>(a: seq<T>, b: seq<T>, s: seq<T>)
    requires Distinct(s) && IsSubseq(a, s) && IsSubseq(b, s)
    requires forall x :: x in a <==> x in b
    ensures a == b
    decreases |s|
  {
    if s == [] {
      return;
    }
    var t := s[1..];
    assert Distinct(t) by {
      forall i, j | 0 <= i < j < |t| ensures t[i] != t[j] {
        assert t[i] == s[i + 1] && t[j] == s[j + 1];
      }
    }
    assert s[0] !in t by {
      forall k | 0 <= k < |t| ensures t[k] != s[0] {
        assert t[k] == s[k + 1];
      }
    }
    var aUses := a != [] && a[0] == s[0] && IsSubseq(a[1..], t);
    var bUses := b != [] && b[0] == s[0] && IsSubseq(b[1..], t);
    if !aUses {
      assert IsSubseq(a, t);
      SubseqMembers(a, t);
    }
    if !bUses {
      assert IsSubseq(b, t);
      SubseqMembers(b, t);
    }
    assert !aUses ==> s[0] !in a;
    assert !bUses ==> s[0] !in b;
    assert aUses == bUses;
    if aUses {
      SubseqDistinct(a, s);
      SubseqDistinct(b, s);
      forall x ensures x in a[1..] <==> x in b[1..] {
        if x in a[1..] {
          assert x != a[0] by { var k :| 0 <= k < |a[1..]| && a[1..][k] == x; assert a[k + 1] == x; }
          assert x in a;
        }
        if x in b[1..] {
          assert x != b[0] by { var k :| 0 <= k < |b[1..]| && b[1..][k] == x; assert b[k + 1] == x; }
          assert x in b;
        }
        if x in a && x != a[0] {
          assert x in a[1..];
        }
        if x in b && x != b[0] {
          assert x in b[1..];
        }
      }
      SubseqUnique(a[1..], b[1..], t);
      assert a == [a[0]] + a[1..] && b == [b[0]] + b[1..];
    } else {
      SubseqUnique(a, b, t);
    }
  }
}
