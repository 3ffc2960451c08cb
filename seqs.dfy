/** Order-preserving deduplication, the idiom
      unique = []
      for x in xs:
          if x not in unique: unique.append(x)
    and the facts about first occurrences and subsequences that describe it. */
module Seqs {
  ghost predicate NoDup<T>(s: seq<T>) {
    forall i, j :: 0 <= i < j < |s| ==> s[i] != s[j]
  }

  lemma NoDupSnoc<T>(s: seq<T>, x: T)
    ensures NoDup(s + [x]) <==> NoDup(s) && x !in s
  {
    var t := s + [x];
    assert forall i :: 0 <= i < |s| ==> t[i] == s[i];
    if NoDup(t) {
      assert forall i :: 0 <= i < |s| ==> s[i] != t[|s|];
    }
  }

  lemma SnocDecompose<T>(q: seq<T>)
    requires q != []
    ensures q == q[..|q| - 1] + [q[|q| - 1]]
  {
  }

  lemma ConsDecompose<T>(q: seq<T>)
    requires q != []
    ensures q == [q[0]] + q[1..]
  {
  }

  lemma ConcatPrefixSnoc<T>(s: seq<T>, a: seq<T>, j: nat)
    requires j < |a|
    ensures s + a[..j + 1] == (s + a[..j]) + [a[j]]
  {
    assert a[..j + 1] == a[..j] + [a[j]];
  }

  /** The position of the first occurrence of `x` in `s`. */
  function FirstIndex<T(==)>(s: seq<T>, x: T): (k: nat)
    requires x in s
    ensures k < |s| && s[k] == x && x !in s[..k]
  {
    if s[0] == x then 0 else 1 + FirstIndex(s[1..], x)
  }

  /** Nothing before position `n` equals an element missing from `s[..n]`. */
  lemma NotInPrefix<T>(s: seq<T>, n: nat, x: T)
    requires n <= |s| && x !in s[..n]
    ensures forall i :: 0 <= i < n ==> s[i] != x
  {
    forall i | 0 <= i < n ensures s[i] != x {
      assert s[i] == s[..n][i];
    }
  }

  /** The first occurrence is the only occurrence with none before it. */
  lemma FirstIndexUnique<T>(s: seq<T>, x: T, k: nat)
    requires k < |s| && s[k] == x && x !in s[..k]
    ensures FirstIndex(s, x) == k
  {
    var f := FirstIndex(s, x);
    NotInPrefix(s, k, x);
    NotInPrefix(s, f, x);
  }

  /** A prefix has the same first occurrences as the whole sequence. */
  lemma FirstIndexPrefix<T>(s: seq<T>, n: nat, x: T)
    requires n <= |s| && x in s[..n]
    ensures x in s && FirstIndex(s, x) == FirstIndex(s[..n], x)
  {
    var k := FirstIndex(s[..n], x);
    assert s[..n][..k] == s[..k];
    FirstIndexUnique(s, x, k);
  }

  /** `r` lists its elements in the order in which they first occur in `s`. */
  ghost predicate InFirstOccurrenceOrder<T>(r: seq<T>, s: seq<T>) {
    (forall x :: x in r ==> x in s) &&
    forall i, j :: 0 <= i < j < |r| ==> FirstIndex(s, r[i]) < FirstIndex(s, r[j])
  }

  /** The dedup loop as a function: each element is kept at its first
      occurrence and dropped at every later one. The result has no duplicates
      and holds exactly the elements of the input. */
  function Dedup<T(==,!new)>(s: seq<T>): (r: seq<T>)
    ensures NoDup(r)
    ensures forall x :: x in r <==> x in s
    decreases |s|
  {
    if s == [] then []
    else
      var d := Dedup(s[..|s| - 1]);
      var x := s[|s| - 1];
      assert forall y :: y in s <==> y in s[..|s| - 1] || y == x by {
        assert s == s[..|s| - 1] + [x];
      }
      if x in d then d else d + [x]
  }

  /** One more element at the end: appended exactly when it is new. */
  lemma DedupSnoc<T(!new)>(s: seq<T>, x: T)
    ensures Dedup(s + [x]) == if x in s then Dedup(s) else Dedup(s) + [x]
  {
    assert (s + [x])[..|s|] == s;
  }

  /** The result is ordered by first occurrence in the input. */
  lemma {:induction false} DedupOrder<T(!new)>(s: seq<T>)
    ensures InFirstOccurrenceOrder(Dedup(s), s)
    decreases |s|
  {
    if s != [] {
      var p, x := s[..|s| - 1], s[|s| - 1];
      assert s == p + [x];
      DedupOrder(p);
      var d := Dedup(p);
      var r := Dedup(s);
      forall i | 0 <= i < |d| ensures d[i] in s && FirstIndex(s, d[i]) == FirstIndex(p, d[i]) {
        FirstIndexPrefix(s, |p|, d[i]);
      }
      if x !in p {
        FirstIndexUnique(s, x, |p|);
        assert r == d + [x];
      }
    }
  }

  /** A sequence without duplicates is its own dedup; so deduplicating twice
      is the same as deduplicating once. */
  lemma {:induction false} DedupNoDup<T(!new)>(s: seq<T>)
    requires NoDup(s)
    ensures Dedup(s) == s
    decreases |s|
  {
    if s != [] {
      var p, x := s[..|s| - 1], s[|s| - 1];
      DedupNoDup(p);
      assert forall k :: 0 <= k < |p| ==> p[k] == s[k] != x;
    }
  }

  lemma DedupIdempotent<T(!new)>(s: seq<T>)
    ensures Dedup(Dedup(s)) == Dedup(s)
  {
    DedupNoDup(Dedup(s));
  }

  /** `t` lists the elements of `s` without duplicates, in first-occurrence order. */
  ghost predicate ListsFirstOccurrences<T(!new)>(t: seq<T>, s: seq<T>) {
    NoDup(t) && (forall x :: x in t <==> x in s) && InFirstOccurrenceOrder(t, s)
  }

  lemma HeadInNonEmpty<T>(t: seq<T>)
    ensures t != [] ==> t[0] in t
  {
  }

  /** Dropping a last element that occurred earlier keeps such a listing. */
  lemma ListsFirstOccurrencesRepeat<T(!new)>(s: seq<T>, t: seq<T>)
    requires s != [] && s[|s| - 1] in s[..|s| - 1]
    requires ListsFirstOccurrences(t, s)
    ensures ListsFirstOccurrences(t, s[..|s| - 1])
  {
    var p, x := s[..|s| - 1], s[|s| - 1];
    assert s == p + [x];
    forall y ensures y in t <==> y in p {
      assert y in s <==> y in p || y == x;
    }
    forall i, j | 0 <= i < j < |t| ensures FirstIndex(p, t[i]) < FirstIndex(p, t[j]) {
      FirstIndexPrefix(s, |p|, t[i]);
      FirstIndexPrefix(s, |p|, t[j]);
    }
  }

  /** A last element that is new has the latest first occurrence, so it stands
      last in any listing ordered by first occurrence. */
  lemma NewLastListedLast<T>(s: seq<T>, t: seq<T>)
    requires s != [] && s[|s| - 1] !in s[..|s| - 1]
    requires s[|s| - 1] in t
    requires InFirstOccurrenceOrder(t, s)
    ensures t != [] && t[|t| - 1] == s[|s| - 1]
    ensures forall i :: 0 <= i < |t| - 1 ==> t[i] != s[|s| - 1]
  {
    var x := s[|s| - 1];
    FirstIndexUnique(s, x, |s| - 1);
    forall i | 0 <= i < |t| - 1 ensures t[i] != x {
      assert FirstIndex(s, t[i]) < FirstIndex(s, t[|t| - 1]) < |s|;
    }
  }

  /** A last element that is new occurs last in such a listing, and the rest of
      the listing lists the rest of the input. */
  lemma ListsFirstOccurrencesNew<T(!new)>(s: seq<T>, t: seq<T>)
    requires s != [] && s[|s| - 1] !in s[..|s| - 1]
    requires ListsFirstOccurrences(t, s)
    ensures t != [] && t[|t| - 1] == s[|s| - 1]
    ensures ListsFirstOccurrences(t[..|t| - 1], s[..|s| - 1])
  {
    var p, x := s[..|s| - 1], s[|s| - 1];
    assert s == p + [x];
    NewLastListedLast(s, t);
    var t' := t[..|t| - 1];
    assert t == t' + [x];
    assert forall y :: y in t' <==> y in p by {
      forall y ensures y in t' <==> y in p {
        assert y in t <==> y in t' || y == x;
        assert y in s <==> y in p || y == x;
      }
    }
    assert InFirstOccurrenceOrder(t', p) by {
      forall i, j | 0 <= i < j < |t'| ensures FirstIndex(p, t'[i]) < FirstIndex(p, t'[j]) {
        assert t'[i] == t[i] && t'[j] == t[j];
        FirstIndexPrefix(s, |p|, t'[i]);
        FirstIndexPrefix(s, |p|, t'[j]);
      }
    }
  }

  /** The three properties above determine the dedup completely: any
      duplicate-free listing of the input's elements in order of first
      occurrence is the dedup. */
  lemma {:induction false} DedupUnique<T(!new)>(s: seq<T>, t: seq<T>)
    requires NoDup(t)
    requires forall x :: x in t <==> x in s
    requires InFirstOccurrenceOrder(t, s)
    ensures t == Dedup(s)
    decreases |s|
  {
    if s == [] {
      HeadInNonEmpty(t);
    } else {
      var p := s[..|s| - 1];
      if s[|s| - 1] in p {
        ListsFirstOccurrencesRepeat(s, t);
        DedupUnique(p, t);
      } else {
        ListsFirstOccurrencesNew(s, t);
        DedupUnique(p, t[..|t| - 1]);
        assert t == t[..|t| - 1] + [s[|s| - 1]];
      }
    }
  }

  /** Appending more input never disturbs what has already been kept: the
      dedup of a prefix is a prefix of the dedup. */
  lemma {:induction false} DedupPrefix<T(!new)>(a: seq<T>, b: seq<T>)
    ensures Dedup(a) <= Dedup(a + b)
    decreases |b|
  {
    if b == [] {
      assert a + b == a;
    } else {
      var b', y := b[..|b| - 1], b[|b| - 1];
      assert a + b == (a + b') + [y];
      DedupPrefix(a, b');
      DedupSnoc(a + b', y);
      var d := Dedup(a + b');
      assert (d + [y])[..|Dedup(a)|] == d[..|Dedup(a)|];
    }
  }

  /** Deduplicating a concatenation: the dedup of the first part comes first,
      and everything after it occurs only in the second part. */
  lemma DedupConcat<T(!new)>(a: seq<T>, b: seq<T>)
    ensures Dedup(a) <= Dedup(a + b)
    ensures forall k :: |Dedup(a)| <= k < |Dedup(a + b)| ==> Dedup(a + b)[k] !in a && Dedup(a + b)[k] in b
  {
    var r := Dedup(a + b);
    var d := Dedup(a);
    DedupPrefix(a, b);
    forall k | |d| <= k < |r| ensures r[k] !in a && r[k] in b {
      assert forall i :: 0 <= i < |d| ==> d[i] == r[i] != r[k];
      assert r[k] in a + b;
    }
  }

  /** `a` is a subsequence of `b`: it keeps the relative order of the
      elements it takes from `b`. */
  predicate IsSubsequence<T(==)>(a: seq<T>, b: seq<T>)
    decreases |b|
  {
    if a == [] then true
    else if b == [] then false
    else if a[|a| - 1] == b[|b| - 1] then IsSubsequence(a[..|a| - 1], b[..|b| - 1])
    else IsSubsequence(a, b[..|b| - 1])
  }

  /** Extending the longer sequence keeps a subsequence a subsequence. */
  lemma {:induction false} SubsequenceSnocRight<T>(a: seq<T>, b: seq<T>, y: T)
    requires IsSubsequence(a, b)
    ensures IsSubsequence(a, b + [y])
    decreases |b|, 1
  {
    assert (b + [y])[..|b|] == b;
    if a != [] && a[|a| - 1] == y {
      SubsequenceDropLast(a, b);
    }
  }

  /** The same element added to both ends keeps a subsequence. */
  lemma SubsequenceSnocBoth<T>(a: seq<T>, b: seq<T>, y: T)
    requires IsSubsequence(a, b)
    ensures IsSubsequence(a + [y], b + [y])
  {
    assert (a + [y])[..|a|] == a && (b + [y])[..|b|] == b;
  }

  lemma {:induction false} SubsequenceDropLast<T>(a: seq<T>, b: seq<T>)
    requires a != [] && IsSubsequence(a, b)
    ensures IsSubsequence(a[..|a| - 1], b)
    decreases |b|, 0
  {
    var a' := a[..|a| - 1];
    if a[|a| - 1] == b[|b| - 1] {
      SubsequenceSnocRight(a', b[..|b| - 1], b[|b| - 1]);
      assert b[..|b| - 1] + [b[|b| - 1]] == b;
    } else {
      SubsequenceDropLast(a, b[..|b| - 1]);
      SubsequenceSnocRight(a', b[..|b| - 1], b[|b| - 1]);
      assert b[..|b| - 1] + [b[|b| - 1]] == b;
    }
  }
}
