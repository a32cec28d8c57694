/**
 Equality of header blocks (`==`): same number of entries, the same set of
 lowercased names, and for each such name the same sorted list of values.
 The keep-alive state plays no part.
 */
module HeadersEquality {
  import opened Wrappers
  import opened AsciiBytes
  import opened ByteOrder
  import opened HttpHeaders

  /** The `names` of a block, lowercased, as a set. */
  function LowerNames(entries: seq<Header>): (r: set<Bytes>)
    ensures forall i :: 0 <= i < |entries| ==> LowerBytes(entries[i].name) in r
    ensures forall n :: n in r ==> LowerBytes(n) == n
  {
    var r := set i | 0 <= i < |entries| :: LowerBytes(entries[i].name);
    assert forall n :: n in r ==> LowerBytes(n) == n by {
      forall n | n in r ensures LowerBytes(n) == n {
        var i :| 0 <= i < |entries| && n == LowerBytes(entries[i].name);
        LowerBytesIdempotent(entries[i].name);
      }
    }
    r
  }

  /** An empty block has no names. */
  lemma LowerNamesEmpty()
    ensures LowerNames([]) == {}
  {
  }

  /**
   The names of a concatenation are the names of its parts; with
   `LowerNamesOfOne` this makes the set exactly the entries' lowercased names.
   */
  lemma LowerNamesAppend(a: seq<Header>, b: seq<Header>)
    ensures LowerNames(a + b) == LowerNames(a) + LowerNames(b)
  {
    forall n | n in LowerNames(a + b) ensures n in LowerNames(a) + LowerNames(b) {
      var i :| 0 <= i < |a + b| && n == LowerBytes((a + b)[i].name);
      if i < |a| {
        assert (a + b)[i] == a[i];
      } else {
        assert (a + b)[i] == b[i - |a|];
      }
    }
    forall n | n in LowerNames(a) ensures n in LowerNames(a + b) {
      var i :| 0 <= i < |a| && n == LowerBytes(a[i].name);
      assert (a + b)[i] == a[i];
    }
    forall n | n in LowerNames(b) ensures n in LowerNames(a + b) {
      var i :| 0 <= i < |b| && n == LowerBytes(b[i].name);
      assert (a + b)[|a| + i] == b[i];
    }
  }

  /** `==`: the keep-alive state plays no part, so blocks with the same entries are equal. */
  predicate Equal(lhs: Headers, rhs: Headers)
    ensures Equal(lhs, rhs) ==> |lhs.entries| == |rhs.entries|
    ensures lhs.entries == rhs.entries ==> Equal(lhs, rhs)
  {
    && |lhs.entries| == |rhs.entries|
    && LowerNames(lhs.entries) == LowerNames(rhs.entries)
    && forall name :: name in LowerNames(lhs.entries) ==>
         Sort(Values(lhs.entries, name)) == Sort(Values(rhs.entries, name))
  }

  /** What the sorting in `==` amounts to: the values per name are compared as bags. */
  lemma EqualIffSameValueBags(lhs: Headers, rhs: Headers)
    ensures Equal(lhs, rhs) <==>
            && |lhs.entries| == |rhs.entries|
            && LowerNames(lhs.entries) == LowerNames(rhs.entries)
            && forall name :: name in LowerNames(lhs.entries) ==>
                 multiset(Values(lhs.entries, name)) == multiset(Values(rhs.entries, name))
  {
    forall name | name in LowerNames(lhs.entries)
      ensures Sort(Values(lhs.entries, name)) == Sort(Values(rhs.entries, name))
              <==> multiset(Values(lhs.entries, name)) == multiset(Values(rhs.entries, name))
    {
      SortEqualIffPermutation(Values(lhs.entries, name), Values(rhs.entries, name));
    }
  }

  lemma EqualReflexive(h: Headers)
    ensures Equal(h, h)
  {
  }

  lemma EqualSymmetric(lhs: Headers, rhs: Headers)
    ensures Equal(lhs, rhs) <==> Equal(rhs, lhs)
  {
    EqualIffSameValueBags(lhs, rhs);
    EqualIffSameValueBags(rhs, lhs);
  }

  lemma EqualTransitive(a: Headers, b: Headers, c: Headers)
    requires Equal(a, b) && Equal(b, c)
    ensures Equal(a, c)
  {
    EqualIffSameValueBags(a, b);
    EqualIffSameValueBags(b, c);
    EqualIffSameValueBags(a, c);
  }

  /** Taking out the entry at `k` takes one copy of it out of the bag. */
  lemma MultisetWithout(b: seq<Header>, k: nat)
    requires k < |b|
    ensures multiset(b[..k] + b[k + 1..]) == multiset(b) - multiset{b[k]}
  {
    assert b == b[..k] + [b[k]] + b[k + 1..];
    assert multiset(b) == multiset(b[..k]) + multiset{b[k]} + multiset(b[k + 1..]);
  }

  /** The values of a block are those of the entry at `k` together with those of the rest. */
  lemma ValuesWithout(b: seq<Header>, k: nat, name: Bytes)
    requires k < |b|
    ensures multiset(Values(b, name))
            == multiset(Values([b[k]], name)) + multiset(Values(b[..k] + b[k + 1..], name))
  {
    assert b == b[..k] + [b[k]] + b[k + 1..];
    ValuesAppend(b[..k] + [b[k]], b[k + 1..], name);
    ValuesAppend(b[..k], [b[k]], name);
    ValuesAppend(b[..k], b[k + 1..], name);
  }

  /** The bag of values found for a name depends only on the bag of entries. */
  lemma {:induction false} ValuesPermutation(a: seq<Header>, b: seq<Header>, name: Bytes)
    requires multiset(a) == multiset(b)
    ensures multiset(Values(a, name)) == multiset(Values(b, name))
    decreases |a|
  {
    if |a| == 0 {
      assert |b| == |multiset(b)| == 0;
    } else {
      var x := a[0];
      assert x in multiset(b);
      var k :| 0 <= k < |b| && b[k] == x;
      var rest := b[..k] + b[k + 1..];
      assert a == [x] + a[1..];
      assert multiset(a[1..]) == multiset(a) - multiset{x};
      MultisetWithout(b, k);
      ValuesPermutation(a[1..], rest, name);
      ValuesAppend([x], a[1..], name);
      ValuesWithout(b, k, name);
    }
  }

  /** Equality ignores the order of the entries. */
  lemma EqualIgnoresOrder(lhs: Headers, rhs: Headers)
    requires multiset(lhs.entries) == multiset(rhs.entries)
    ensures Equal(lhs, rhs)
  {
    assert |lhs.entries| == |multiset(lhs.entries)| == |rhs.entries|;
    forall e | e in lhs.entries ensures e in rhs.entries {
      assert e in multiset(lhs.entries);
    }
    forall e | e in rhs.entries ensures e in lhs.entries {
      assert e in multiset(rhs.entries);
    }
    assert LowerNames(lhs.entries) == LowerNames(rhs.entries) by {
      forall n | n in LowerNames(lhs.entries) ensures n in LowerNames(rhs.entries) {
        var i :| 0 <= i < |lhs.entries| && n == LowerBytes(lhs.entries[i].name);
        assert lhs.entries[i] in rhs.entries;
      }
      forall n | n in LowerNames(rhs.entries) ensures n in LowerNames(lhs.entries) {
        var i :| 0 <= i < |rhs.entries| && n == LowerBytes(rhs.entries[i].name);
        assert rhs.entries[i] in lhs.entries;
      }
    }
    forall name | name in LowerNames(lhs.entries)
      ensures multiset(Values(lhs.entries, name)) == multiset(Values(rhs.entries, name))
    {
      ValuesPermutation(lhs.entries, rhs.entries, name);
    }
    EqualIffSameValueBags(lhs, rhs);
  }

  lemma LowerBytesIdempotent(s: Bytes)
    ensures LowerBytes(LowerBytes(s)) == LowerBytes(s)
  {
  }

  /** Every entry's name matches some lowercased name of its block, and that one stands for it in lookups. */
  lemma EntryNameMatchesLowerName(entries: seq<Header>, i: nat)
    requires i < |entries|
    ensures LowerBytes(entries[i].name) in LowerNames(entries)
    ensures NamesMatch(entries[i].name, LowerBytes(entries[i].name))
  {
    LowerBytesIdempotent(entries[i].name);
    LowerEqualImpliesMatch(entries[i].name, LowerBytes(entries[i].name));
  }

  /** A name that matches no lowercased name of a block matches no entry of it. */
  lemma NoLowerNameNoValues(entries: seq<Header>, name: Bytes)
    requires forall n :: n in LowerNames(entries) ==> !NamesMatch(name, n)
    ensures Values(entries, name) == []
  {
    if Values(entries, name) != [] {
      LookupsAgree(entries, name);
      var i :| 0 <= i < |entries| && NamesMatch(entries[i].name, name);
      EntryNameMatchesLowerName(entries, i);
      NamesMatchSymmetric(entries[i].name, name);
      NamesMatchTransitive(name, entries[i].name, LowerBytes(entries[i].name));
      assert false;
    }
  }

  /** Equal blocks give the same bag of values for every lookup, whatever the case of the name. */
  lemma EqualLookupsAgree(lhs: Headers, rhs: Headers, name: Bytes)
    requires Equal(lhs, rhs)
    ensures multiset(Values(lhs.entries, name)) == multiset(Values(rhs.entries, name))
    ensures Contains(lhs.entries, name) == Contains(rhs.entries, name)
  {
    EqualIffSameValueBags(lhs, rhs);
    if n :| n in LowerNames(lhs.entries) && NamesMatch(name, n) {
      ValuesCaseInsensitive(lhs.entries, name, n);
      ValuesCaseInsensitive(rhs.entries, name, n);
    } else {
      NoLowerNameNoValues(lhs.entries, name);
      NoLowerNameNoValues(rhs.entries, name);
    }
    LookupsAgree(lhs.entries, name);
    LookupsAgree(rhs.entries, name);
  }

  lemma LowerNamesOfOne(e: Header)
    ensures LowerNames([e]) == {LowerBytes(e.name)}
  {
    assert LowerBytes([e][0].name) in LowerNames([e]);
  }

  lemma LowerNamesOfTwo(e1: Header, e2: Header)
    ensures LowerNames([e1, e2]) == {LowerBytes(e1.name), LowerBytes(e2.name)}
  {
    assert LowerBytes([e1, e2][0].name) in LowerNames([e1, e2]);
    assert LowerBytes([e1, e2][1].name) in LowerNames([e1, e2]);
  }

  /** Names compare without case, values exactly: [x: 1] equals [X: 1] but not [x: 2]. */
  lemma EqualityExamples(n: Bytes, m: Bytes, v: Bytes, w: Bytes)
    requires LowerBytes(n) == LowerBytes(m) && v != w
    ensures Equal(FromPairs([Header(n, v)]), FromPairs([Header(m, v)]))
    ensures !Equal(FromPairs([Header(n, v)]), FromPairs([Header(n, w)]))
  {
    var nv := FromPairs([Header(n, v)]);
    var mv := FromPairs([Header(m, v)]);
    var nw := FromPairs([Header(n, w)]);
    LowerNamesOfOne(nv.entries[0]);
    LowerNamesOfOne(mv.entries[0]);
    LowerNamesOfOne(nw.entries[0]);
    var lower := LowerBytes(n);
    LowerEqualImpliesMatch(n, m);
    EntryNameMatchesLowerName(nv.entries, 0);
    NamesMatchTransitive(m, n, lower);
    NamesMatchSymmetric(m, n);
    forall name | name in LowerNames(nv.entries)
      ensures multiset(Values(nv.entries, name)) == multiset(Values(mv.entries, name))
    {
      assert name == lower;
      assert Values(nv.entries, name) == [v];
      assert Values(mv.entries, name) == [v];
    }
    EqualIffSameValueBags(nv, mv);
    EqualIffSameValueBags(nv, nw);
    assert Values(nv.entries, lower) == [v];
    assert Values(nw.entries, lower) == [w];
    assert multiset(Values(nv.entries, lower)) != multiset(Values(nw.entries, lower)) by {
      assert v in multiset(Values(nv.entries, lower));
    }
  }

  lemma ValuesOfTwo(e1: Header, e2: Header, name: Bytes)
    ensures Values([e1, e2], name)
            == (if NamesMatch(e1.name, name) then [e1.value] else [])
               + (if NamesMatch(e2.name, name) then [e2.value] else [])
  {
    assert [e1, e2][1..] == [e2];
    assert [e2][1..] == [];
  }

  /** Swapping the values of two matching names leaves every lookup with the same bag of values. */
  lemma SwappedValuesSameBag(n1: Bytes, n2: Bytes, v1: Bytes, v2: Bytes, name: Bytes)
    requires NamesMatch(n1, n2)
    ensures multiset(Values([Header(n1, v1), Header(n2, v2)], name))
            == multiset(Values([Header(n1, v2), Header(n2, v1)], name))
  {
    ValuesOfTwo(Header(n1, v1), Header(n2, v2), name);
    ValuesOfTwo(Header(n1, v2), Header(n2, v1), name);
    if NamesMatch(n1, name) {
      NamesMatchSymmetric(n1, n2);
      NamesMatchTransitive(n2, n1, name);
      assert multiset([v1, v2]) == multiset([v2, v1]) by {
        assert [v1, v2] == [v1] + [v2] && [v2, v1] == [v2] + [v1];
      }
    } else if NamesMatch(n2, name) {
      NamesMatchTransitive(n1, n2, name);
    }
  }

  /**
   Because lookups use the mask, two names that match without being the same
   name share their values in `==`: [n1: v1, n2: v2] equals [n1: v2, n2: v1],
   although `first(name:)` under n1 answers v1 in one and v2 in the other.
   Names such as "@" and "`" match in this way (see `MaskIsNotCaseFolding`).
   */
  lemma EqualityMaskQuirk(n1: Bytes, n2: Bytes, v1: Bytes, v2: Bytes)
    requires NamesMatch(n1, n2)
    ensures Equal(FromPairs([Header(n1, v1), Header(n2, v2)]),
                  FromPairs([Header(n1, v2), Header(n2, v1)]))
    ensures First([Header(n1, v1), Header(n2, v2)], n1) == Some(v1)
    ensures First([Header(n1, v2), Header(n2, v1)], n1) == Some(v2)
  {
    NamesMatchReflexive(n1);
    var a := FromPairs([Header(n1, v1), Header(n2, v2)]);
    var b := FromPairs([Header(n1, v2), Header(n2, v1)]);
    LowerNamesOfTwo(a.entries[0], a.entries[1]);
    LowerNamesOfTwo(b.entries[0], b.entries[1]);
    forall name | name in LowerNames(a.entries)
      ensures multiset(Values(a.entries, name)) == multiset(Values(b.entries, name))
    {
      SwappedValuesSameBag(n1, n2, v1, v2, name);
    }
    EqualIffSameValueBags(a, b);
  }
}
