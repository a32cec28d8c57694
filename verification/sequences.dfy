/**
 Generic sequence helpers shared by the header and error modules: joining
 pieces with a separator and splitting at a separator, the two halves of
 Swift's `joined(separator:)` and `split(separator:)`.
 */
module Sequences {

  /** `pieces` joined with `sep` between consecutive pieces. */
  function Join<T>(pieces: seq<seq<T>>, sep: T): seq<T>
  {
    if |pieces| == 0 then []
    else if |pieces| == 1 then pieces[0]
    else pieces[0] + [sep] + Join(pieces[1..], sep)
  }

  /** True when `sep` occurs in no piece. */
  predicate SeparatorFree<T(==)>(pieces: seq<seq<T>>, sep: T)
  {
    forall i :: 0 <= i < |pieces| ==> sep !in pieces[i]
  }

  /**
   Splits `s` at every occurrence of `sep`, keeping empty pieces: the pieces
   are separator-free and joining them back gives `s`.
   */
  function SplitAll<T(==)>(s: seq<T>, sep: T): (r: seq<seq<T>>)
    ensures |r| >= 1
    ensures SeparatorFree(r, sep)
    ensures Join(r, sep) == s
  {
    if |s| == 0 then [[]]
    else
      var rest := SplitAll(s[1..], sep);
      if s[0] == sep then
        assert Join([[]] + rest, sep) == [sep] + Join(rest, sep);
        assert s == [sep] + s[1..];
        [[]] + rest
      else
        var r := [[s[0]] + rest[0]] + rest[1..];
        assert Join(r, sep) == [s[0]] + Join(rest, sep) by {
          if |rest| > 1 {
            assert r[1..] == rest[1..];
          }
        }
        assert s == [s[0]] + s[1..];
        r
  }

  /** The non-empty pieces of `pieces`, in order. */
  function NonEmpty<T>(pieces: seq<seq<T>>): (r: seq<seq<T>>)
    ensures |r| <= |pieces|
    ensures forall i :: 0 <= i < |r| ==> |r[i]| > 0
    ensures forall i :: 0 <= i < |r| ==> r[i] in pieces
    ensures forall i :: 0 <= i < |pieces| && |pieces[i]| > 0 ==> pieces[i] in r
  {
    if |pieces| == 0 then []
    else if |pieces[0]| == 0 then NonEmpty(pieces[1..])
    else [pieces[0]] + NonEmpty(pieces[1..])
  }

  /**
   Swift's `split(separator:)` with its default of omitting empty
   subsequences: the empty pieces are dropped before anything else sees them.
   */
  function Split<T(==)>(s: seq<T>, sep: T): (r: seq<seq<T>>)
    ensures forall i :: 0 <= i < |r| ==> |r[i]| > 0 && sep !in r[i]
  {
    NonEmpty(SplitAll(s, sep))
  }

  /** Joining one more piece appends the separator and that piece. */
  lemma {:induction false} JoinAppend<T>(pieces: seq<seq<T>>, last: seq<T>, sep: T)
    requires |pieces| > 0
    ensures Join(pieces + [last], sep) == Join(pieces, sep) + [sep] + last
    decreases |pieces|
  {
    if |pieces| == 1 {
      assert pieces + [last] == [pieces[0], last];
      assert [last][1..] == [];
    } else {
      assert (pieces + [last])[1..] == pieces[1..] + [last];
      JoinAppend(pieces[1..], last, sep);
    }
  }

  /** A single piece is kept exactly when it is non-empty. */
  lemma NonEmptyOne<T>(p: seq<T>)
    ensures NonEmpty([p]) == if |p| > 0 then [p] else []
  {
    assert [p][1..] == [];
  }

  /**
   Dropping empty pieces distributes over concatenation; with `NonEmptyOne`
   this fixes the result as the non-empty pieces in their original order,
   each as often as it occurs.
   */
  lemma {:induction false} NonEmptyAppend<T>(a: seq<seq<T>>, b: seq<seq<T>>)
    ensures NonEmpty(a + b) == NonEmpty(a) + NonEmpty(b)
  {
    if |a| == 0 {
      assert a + b == b;
    } else {
      assert (a + b)[0] == a[0];
      assert (a + b)[1..] == a[1..] + b;
      NonEmptyAppend(a[1..], b);
    }
  }

  /** Splitting a separator-free sequence gives it back as the only piece. */
  lemma {:induction false} SplitAllNoSeparator<T>(p: seq<T>, sep: T)
    requires sep !in p
    ensures SplitAll(p, sep) == [p]
  {
    if |p| > 0 {
      SplitAllNoSeparator(p[1..], sep);
      assert [p[0]] + p[1..] == p;
    }
  }

  /** A separator-free head piece followed by `sep` splits off as one piece. */
  lemma {:induction false} SplitAllHead<T>(p: seq<T>, sep: T, t: seq<T>)
    requires sep !in p
    ensures SplitAll(p + [sep] + t, sep) == [p] + SplitAll(t, sep)
  {
    if |p| == 0 {
      assert p + [sep] + t == [sep] + t;
      assert ([sep] + t)[1..] == t;
    } else {
      SplitAllHead(p[1..], sep, t);
      assert (p + [sep] + t)[1..] == p[1..] + [sep] + t;
      assert [p[0]] + p[1..] == p;
    }
  }

  /**
   Round trip in the other direction: splitting the join of separator-free
   pieces gives the pieces back, so SplitAll is the inverse of Join.
   */
  lemma {:induction false} SplitAllJoin<T>(pieces: seq<seq<T>>, sep: T)
    requires |pieces| >= 1
    requires SeparatorFree(pieces, sep)
    ensures SplitAll(Join(pieces, sep), sep) == pieces
  {
    if |pieces| == 1 {
      SplitAllNoSeparator(pieces[0], sep);
    } else {
      SplitAllJoin(pieces[1..], sep);
      SplitAllHead(pieces[0], sep, Join(pieces[1..], sep));
      assert [pieces[0]] + pieces[1..] == pieces;
    }
  }

  /** Joining behind an empty first piece puts the separator in front. */
  lemma JoinEmptyHead<T>(pieces: seq<seq<T>>, sep: T)
    requires |pieces| > 0
    ensures Join([[]] + pieces, sep) == [sep] + Join(pieces, sep)
  {
    assert ([[]] + pieces)[1..] == pieces;
  }

  /**
   What `split` returns: a sequence written as separator-free pieces joined
   by `sep` splits into exactly the non-empty ones among those pieces, in order.
   Every sequence is so written, by `SplitAll`.
   */
  lemma SplitOfJoin<T>(pieces: seq<seq<T>>, sep: T)
    requires |pieces| >= 1
    requires SeparatorFree(pieces, sep)
    ensures Split(Join(pieces, sep), sep) == NonEmpty(pieces)
  {
    SplitAllJoin(pieces, sep);
  }
}
