/**
 The ordering Swift's `sorted()` uses on the header values, taken here as
 lexicographic order on the UTF-8 bytes, and a sort that is proved to
 return the one sorted permutation of its input.
 */
module ByteOrder {
  import opened AsciiBytes

  /** `a` sorts no later than `b`: lexicographic on bytes, a proper prefix first. */
  predicate LexLessEq(a: Bytes, b: Bytes)
  {
    if |a| == 0 then true
    else if |b| == 0 then false
    else if a[0] != b[0] then a[0] < b[0]
    else LexLessEq(a[1..], b[1..])
  }

  lemma {:induction false} LexReflexive(a: Bytes)
    ensures LexLessEq(a, a)
  {
    if |a| > 0 {
      LexReflexive(a[1..]);
    }
  }

  lemma {:induction false} LexTotal(a: Bytes, b: Bytes)
    ensures LexLessEq(a, b) || LexLessEq(b, a)
  {
    if |a| > 0 && |b| > 0 && a[0] == b[0] {
      LexTotal(a[1..], b[1..]);
    }
  }

  lemma {:induction false} LexAntisymmetric(a: Bytes, b: Bytes)
    requires LexLessEq(a, b) && LexLessEq(b, a)
    ensures a == b
  {
    if |a| > 0 && |b| > 0 {
      LexAntisymmetric(a[1..], b[1..]);
      assert a == [a[0]] + a[1..] && b == [b[0]] + b[1..];
    }
  }

  lemma {:induction false} LexTransitive(a: Bytes, b: Bytes, c: Bytes)
    requires LexLessEq(a, b) && LexLessEq(b, c)
    ensures LexLessEq(a, c)
  {
    if |a| > 0 && |b| > 0 && |c| > 0 && a[0] == b[0] && b[0] == c[0] {
      LexTransitive(a[1..], b[1..], c[1..]);
    }
  }

  predicate Sorted(s: seq<Bytes>)
  {
    forall i, j :: 0 <= i < j < |s| ==> LexLessEq(s[i], s[j])
  }

  /** The head of a sorted sequence sorts no later than any of its elements. */
  lemma SortedHeadIsLeast(s: seq<Bytes>, x: Bytes)
    requires Sorted(s) && x in s
    ensures LexLessEq(s[0], x)
  {
    var i :| 0 <= i < |s| && s[i] == x;
    if i == 0 {
      LexReflexive(x);
    }
  }

  /** Removing the head of a sequence removes one copy of it from the bag. */
  lemma MultisetTail(s: seq<Bytes>)
    requires |s| > 0
    ensures multiset(s[1..]) == multiset(s) - multiset{s[0]}
  {
    assert s == [s[0]] + s[1..];
  }

  /** Putting an element that sorts no later than every element in front of a sorted sequence keeps it sorted. */
  lemma ConsSorted(h: Bytes, t: seq<Bytes>)
    requires Sorted(t)
    requires forall j :: 0 <= j < |t| ==> LexLessEq(h, t[j])
    ensures Sorted([h] + t)
  {
    var r := [h] + t;
    forall i, j | 0 <= i < j < |r| ensures LexLessEq(r[i], r[j]) {
      assert r[j] == t[j - 1];
      if i > 0 {
        assert r[i] == t[i - 1];
      }
    }
  }

  /** Dropping the head of a sorted sequence leaves it sorted. */
  lemma SortedTail(s: seq<Bytes>)
    requires Sorted(s) && |s| > 0
    ensures Sorted(s[1..])
  {
    var t := s[1..];
    forall i, j | 0 <= i < j < |t| ensures LexLessEq(t[i], t[j]) {
      assert t[i] == s[i + 1] && t[j] == s[j + 1];
    }
  }

  /** An element sorting no later than the head of a sorted sequence sorts no later than all of it. */
  lemma BelowHead(x: Bytes, s: seq<Bytes>)
    requires Sorted(s) && |s| > 0 && LexLessEq(x, s[0])
    ensures forall j :: 0 <= j < |s| ==> LexLessEq(x, s[j])
  {
    forall j | 0 <= j < |s| ensures LexLessEq(x, s[j]) {
      SortedHeadIsLeast(s, s[j]);
      LexTransitive(x, s[0], s[j]);
    }
  }

  /** The head of a sorted sequence sorts no later than anything built from its tail and a larger element. */
  lemma HeadBelowAll(h: Bytes, x: Bytes, s: seq<Bytes>, rest: seq<Bytes>)
    requires Sorted(s) && |s| > 0 && h == s[0] && LexLessEq(h, x)
    requires multiset(rest) == multiset(s[1..]) + multiset{x}
    ensures forall j :: 0 <= j < |rest| ==> LexLessEq(h, rest[j])
  {
    forall j | 0 <= j < |rest| ensures LexLessEq(h, rest[j]) {
      assert rest[j] in multiset(rest);
      if rest[j] != x {
        assert rest[j] in s[1..];
        assert rest[j] in s;
        SortedHeadIsLeast(s, rest[j]);
      }
    }
  }

  /** Inserts `x` before the first element it sorts no later than. */
  function Insert(x: Bytes, s: seq<Bytes>): (r: seq<Bytes>)
    requires Sorted(s)
    ensures Sorted(r)
    ensures multiset(r) == multiset(s) + multiset{x}
  {
    if |s| == 0 then [x]
    else if LexLessEq(x, s[0]) then
      BelowHead(x, s);
      ConsSorted(x, s);
      [x] + s
    else
      LexTotal(x, s[0]);
      SortedTail(s);
      var rest := Insert(x, s[1..]);
      HeadBelowAll(s[0], x, s, rest);
      ConsSorted(s[0], rest);
      MultisetTail(s);
      [s[0]] + rest
  }

  /** An insertion sort: a sorted permutation of `s`. */
  function Sort(s: seq<Bytes>): (r: seq<Bytes>)
    ensures Sorted(r)
    ensures multiset(r) == multiset(s)
  {
    if |s| == 0 then []
    else
      assert s == [s[0]] + s[1..];
      Insert(s[0], Sort(s[1..]))
  }

  /** Two sorted sequences with the same elements start with the same element. */
  lemma SortedSameHead(a: seq<Bytes>, b: seq<Bytes>)
    requires Sorted(a) && Sorted(b) && |a| > 0
    requires multiset(a) == multiset(b)
    ensures |b| > 0 && a[0] == b[0]
  {
    assert a[0] in multiset(a);
    assert a[0] in b;
    assert b[0] in multiset(b);
    assert b[0] in a;
    SortedHeadIsLeast(b, a[0]);
    SortedHeadIsLeast(a, b[0]);
    LexAntisymmetric(a[0], b[0]);
  }

  /** A sorted permutation is unique: two sorted sequences with the same elements are equal. */
  lemma {:induction false} SortedUnique(a: seq<Bytes>, b: seq<Bytes>)
    requires Sorted(a) && Sorted(b)
    requires multiset(a) == multiset(b)
    ensures a == b
  {
    if |a| > 0 {
      SortedSameHead(a, b);
      MultisetTail(a);
      MultisetTail(b);
      SortedTail(a);
      SortedTail(b);
      SortedUnique(a[1..], b[1..]);
      assert a == [a[0]] + a[1..];
      assert b == [b[0]] + b[1..];
    } else {
      assert |multiset(b)| == 0;
    }
  }

  /** Sorting identifies exactly the sequences that are permutations of each other. */
  lemma SortEqualIffPermutation(a: seq<Bytes>, b: seq<Bytes>)
    ensures Sort(a) == Sort(b) <==> multiset(a) == multiset(b)
  {
    if multiset(a) == multiset(b) {
      SortedUnique(Sort(a), Sort(b));
    }
  }
}
