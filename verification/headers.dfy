/**
 The header block: an ordered multi-map of (name, value) byte strings whose
 names are compared with the 0xDF mask, plus a cached keep-alive state that
 every mutation touching a `Connection` header resets to `Unknown`.
 */
module HttpHeaders {
  import opened Wrappers
  import opened AsciiBytes

  /** What is known about connection persistence without rescanning the headers. */
  datatype KeepAliveState = KeepAlive | Close | Unknown

  /** One header line: a name and its value, both UTF-8 bytes. */
  datatype Header = Header(name: Bytes, value: Bytes)

  /** The entries in insertion order (duplicates allowed) and the cached keep-alive state. */
  datatype Headers = Headers(entries: seq<Header>, keepAliveState: KeepAliveState)

  /** "connection" */
  const Connection: Bytes := [0x63, 0x6F, 0x6E, 0x6E, 0x65, 0x63, 0x74, 0x69, 0x6F, 0x6E]

  /** `init(_:)` and `init(dictionaryLiteral:)`: the pairs as given, with no check on the names. */
  function FromPairs(pairs: seq<Header>): (h: Headers)
    ensures h.entries == pairs && h.keepAliveState == Unknown
  {
    Headers(pairs, Unknown)
  }

  /**
   `isConnectionHeader`: the name matches "connection" under the mask. Every
   byte of "connection" is a letter, so the mask's quirk cannot reach it:
   the Connection names are exactly the case variants of "connection".
   */
  predicate IsConnectionHeader(name: Bytes)
    ensures IsConnectionHeader(name) <==> LowerBytes(name) == Connection
    ensures IsConnectionHeader(name) ==> |name| == |Connection|
  {
    assert LowerLetters(Connection);
    MatchLettersIsCaseVariant(name, Connection);
    NamesMatch(name, Connection)
  }

  /** The state after a mutation that touches `name`: reset only for `Connection`. */
  function Invalidated(state: KeepAliveState, name: Bytes): KeepAliveState
  {
    if IsConnectionHeader(name) then Unknown else state
  }

  // ---------------------------------------------------------------- lookups

  /** `self[name]`: the values of the entries whose name matches, in order. */
  function Values(entries: seq<Header>, name: Bytes): (r: seq<Bytes>)
    ensures |r| <= |entries|
  {
    if |entries| == 0 then []
    else (if NamesMatch(entries[0].name, name) then [entries[0].value] else [])
         + Values(entries[1..], name)
  }

  /** `first(name:)`: the value of the earliest entry whose name matches. */
  function First(entries: seq<Header>, name: Bytes): (r: Option<Bytes>)
    ensures r.None? <==> forall i :: 0 <= i < |entries| ==> !NamesMatch(entries[i].name, name)
    ensures r.Some? ==> exists i :: 0 <= i < |entries| && NamesMatch(entries[i].name, name)
                                    && entries[i].value == r.value
                                    && forall j :: 0 <= j < i ==> !NamesMatch(entries[j].name, name)
  {
    if |entries| == 0 then None
    else if NamesMatch(entries[0].name, name) then Some(entries[0].value)
    else
      var r := First(entries[1..], name);
      assert forall i :: 0 < i < |entries| ==> entries[i] == entries[1..][i - 1];
      if r.Some? then
        var k :| 0 <= k < |entries| - 1 && NamesMatch(entries[1..][k].name, name)
                 && entries[1..][k].value == r.value
                 && forall j :: 0 <= j < k ==> !NamesMatch(entries[1..][j].name, name);
        assert entries[k + 1] == entries[1..][k];
        r
      else
        r
  }

  /** `contains(name:)`: whether some entry's name matches. */
  function Contains(entries: seq<Header>, name: Bytes): (found: bool)
    ensures found <==> exists i :: 0 <= i < |entries| && NamesMatch(entries[i].name, name)
  {
    if |entries| == 0 then false
    else if NamesMatch(entries[0].name, name) then true
    else
      var found := Contains(entries[1..], name);
      assert forall i :: 0 < i < |entries| ==> entries[i] == entries[1..][i - 1];
      if found then
        var k :| 0 <= k < |entries| - 1 && NamesMatch(entries[1..][k].name, name);
        assert entries[k + 1] == entries[1..][k];
        found
      else
        found
  }

  /** Lookup is a homomorphism of concatenation. */
  lemma {:induction false} ValuesAppend(a: seq<Header>, b: seq<Header>, name: Bytes)
    ensures Values(a + b, name) == Values(a, name) + Values(b, name)
  {
    if |a| == 0 {
      assert a + b == b;
    } else {
      var hit := if NamesMatch(a[0].name, name) then [a[0].value] else [];
      assert (a + b)[0] == a[0];
      assert (a + b)[1..] == a[1..] + b;
      assert Values(a + b, name) == hit + Values(a[1..] + b, name);
      ValuesAppend(a[1..], b, name);
      assert Values(a, name) == hit + Values(a[1..], name);
    }
  }

  /** Lookup depends on the name only up to the mask. */
  lemma {:induction false} ValuesCaseInsensitive(entries: seq<Header>, n1: Bytes, n2: Bytes)
    requires NamesMatch(n1, n2)
    ensures Values(entries, n1) == Values(entries, n2)
    ensures First(entries, n1) == First(entries, n2)
    ensures Contains(entries, n1) == Contains(entries, n2)
  {
    if |entries| > 0 {
      ValuesCaseInsensitive(entries[1..], n1, n2);
      if NamesMatch(entries[0].name, n1) {
        NamesMatchTransitive(entries[0].name, n1, n2);
      } else if NamesMatch(entries[0].name, n2) {
        NamesMatchSymmetric(n1, n2);
        NamesMatchTransitive(entries[0].name, n2, n1);
      }
    }
  }

  /** The three lookups agree: `first` is the head of `self[name]` and `contains` says it is non-empty. */
  lemma {:induction false} LookupsAgree(entries: seq<Header>, name: Bytes)
    ensures First(entries, name) == if |Values(entries, name)| == 0 then None else Some(Values(entries, name)[0])
    ensures Contains(entries, name) <==> |Values(entries, name)| > 0
  {
    if |entries| > 0 {
      LookupsAgree(entries[1..], name);
    }
  }

  /** An entry's value is in `self[name]` exactly when that entry's name matches. */
  lemma {:induction false} ValuesMembership(entries: seq<Header>, name: Bytes, i: nat)
    requires i < |entries|
    requires NamesMatch(entries[i].name, name)
    ensures entries[i].value in Values(entries, name)
  {
    if i > 0 {
      ValuesMembership(entries[1..], name, i - 1);
    }
  }

  /** `self[name]` holds a value exactly when some entry whose name matches carries it. */
  lemma {:induction false} ValuesContents(entries: seq<Header>, name: Bytes, v: Bytes)
    ensures v in Values(entries, name) <==>
            exists i :: 0 <= i < |entries| && NamesMatch(entries[i].name, name) && entries[i].value == v
  {
    if |entries| > 0 {
      ValuesContents(entries[1..], name, v);
      assert forall i :: 0 < i < |entries| ==> entries[i] == entries[1..][i - 1];
      if v in Values(entries[1..], name) {
        var i :| 0 <= i < |entries| - 1 && NamesMatch(entries[1..][i].name, name) && entries[1..][i].value == v;
        assert entries[i + 1] == entries[1..][i];
      }
    }
  }

  // -------------------------------------------------------------- mutations

  /** `add(name:value:)`: strictly additive; the name must be ASCII. */
  function Add(h: Headers, name: Bytes, value: Bytes): (r: Headers)
    requires IsAscii(name)
    ensures |r.entries| == |h.entries| + 1
    ensures r.entries[..|h.entries|] == h.entries
    ensures r.entries[|h.entries|] == Header(name, value)
    ensures IsConnectionHeader(name) ==> r.keepAliveState == Unknown
    ensures !IsConnectionHeader(name) ==> r.keepAliveState == h.keepAliveState
  {
    Headers(h.entries + [Header(name, value)], Invalidated(h.keepAliveState, name))
  }

  predicate AllNamesAscii(pairs: seq<Header>)
  {
    forall i :: 0 <= i < |pairs| ==> IsAscii(pairs[i].name)
  }

  /** `add(contentsOf:)` over a sequence of pairs: `add` for each pair, in order. */
  function AddAll(h: Headers, pairs: seq<Header>): (r: Headers)
    requires AllNamesAscii(pairs)
    ensures r.entries == h.entries + pairs
    ensures (exists i :: 0 <= i < |pairs| && IsConnectionHeader(pairs[i].name)) ==> r.keepAliveState == Unknown
    ensures (forall i :: 0 <= i < |pairs| ==> !IsConnectionHeader(pairs[i].name)) ==> r.keepAliveState == h.keepAliveState
    decreases |pairs|
  {
    if |pairs| == 0 then h
    else
      var r := AddAll(Add(h, pairs[0].name, pairs[0].value), pairs[1..]);
      assert h.entries + [pairs[0]] + pairs[1..] == h.entries + pairs;
      assert forall i :: 0 < i < |pairs| ==> pairs[i] == pairs[1..][i - 1];
      r
  }

  /** `add(contentsOf:)` with another block: appends its entries; propagates only an `Unknown` state. */
  function AddHeaders(h: Headers, other: Headers): (r: Headers)
    ensures r.entries == h.entries + other.entries
    ensures other.keepAliveState == Unknown ==> r.keepAliveState == Unknown
    ensures other.keepAliveState != Unknown ==> r.keepAliveState == h.keepAliveState
  {
    Headers(h.entries + other.entries,
            if other.keepAliveState == Unknown then Unknown else h.keepAliveState)
  }

  /**
   The entries left by `remove(name:)`'s `removeAll`: those whose name does
   not match. The source also compares byte lengths first; `NamesMatch`
   already requires equal lengths.
   */
  function Without(entries: seq<Header>, name: Bytes): (r: seq<Header>)
    ensures |r| <= |entries|
    ensures forall i :: 0 <= i < |r| ==> r[i] in entries && !NamesMatch(name, r[i].name)
    ensures forall i :: 0 <= i < |entries| && !NamesMatch(name, entries[i].name) ==> entries[i] in r
  {
    if |entries| == 0 then []
    else
      var rest := Without(entries[1..], name);
      assert forall i :: 0 < i < |entries| ==> entries[i] == entries[1..][i - 1];
      (if NamesMatch(name, entries[0].name) then [] else [entries[0]]) + rest
  }

  /** `remove(name:)`. */
  function Remove(h: Headers, name: Bytes): (r: Headers)
    ensures r.entries == Without(h.entries, name)
    ensures !Contains(r.entries, name)
    ensures IsConnectionHeader(name) ==> r.keepAliveState == Unknown
    ensures !IsConnectionHeader(name) ==> r.keepAliveState == h.keepAliveState
  {
    var kept := Without(h.entries, name);
    assert forall i :: 0 <= i < |kept| ==> !NamesMatch(kept[i].name, name) by {
      forall i | 0 <= i < |kept| ensures !NamesMatch(kept[i].name, name) {
        NamesMatchSymmetric(kept[i].name, name);
      }
    }
    Headers(kept, Invalidated(h.keepAliveState, name))
  }

  /** `replaceOrAdd(name:value:)`: remove every matching entry, then add the new one at the end. */
  function ReplaceOrAdd(h: Headers, name: Bytes, value: Bytes): (r: Headers)
    requires IsAscii(name)
    ensures |r.entries| > 0 && r.entries[|r.entries| - 1] == Header(name, value)
    ensures r.entries[..|r.entries| - 1] == Without(h.entries, name)
    ensures IsConnectionHeader(name) ==> r.keepAliveState == Unknown
    ensures !IsConnectionHeader(name) ==> r.keepAliveState == h.keepAliveState
  {
    var cleared := h.(keepAliveState := Invalidated(h.keepAliveState, name));
    Add(Remove(cleared, name), name, value)
  }

  /** Removal keeps the surviving entries in their original relative order. */
  lemma {:induction false} WithoutAppend(a: seq<Header>, b: seq<Header>, name: Bytes)
    ensures Without(a + b, name) == Without(a, name) + Without(b, name)
  {
    if |a| == 0 {
      assert a + b == b;
    } else {
      assert (a + b)[0] == a[0];
      assert (a + b)[1..] == a[1..] + b;
      WithoutAppend(a[1..], b, name);
    }
  }

  /** Removing a name that no entry has changes nothing; removing twice is removing once. */
  lemma {:induction false} WithoutIdempotent(entries: seq<Header>, name: Bytes)
    ensures Without(Without(entries, name), name) == Without(entries, name)
  {
    if |entries| > 0 {
      WithoutIdempotent(entries[1..], name);
      var rest := Without(entries[1..], name);
      if !NamesMatch(name, entries[0].name) {
        var once := [entries[0]] + rest;
        assert Without(entries, name) == once;
        assert once[0] == entries[0] && once[1..] == rest;
        assert Without(once, name) == [entries[0]] + Without(rest, name);
      } else {
        assert Without(entries, name) == rest;
      }
    }
  }

  /** After removing `name`, lookups of a matching name find nothing and other lookups are unchanged. */
  lemma {:induction false} WithoutValues(entries: seq<Header>, name: Bytes, other: Bytes)
    ensures NamesMatch(other, name) ==> Values(Without(entries, name), other) == []
    ensures !NamesMatch(other, name) ==> Values(Without(entries, name), other) == Values(entries, other)
  {
    if |entries| > 0 {
      WithoutValues(entries[1..], name, other);
      var e := entries[0].name;
      var rest := Without(entries[1..], name);
      assert entries == [entries[0]] + entries[1..];
      ValuesAppend([entries[0]], entries[1..], other);
      if NamesMatch(name, e) {
        assert Without(entries, name) == rest;
        if NamesMatch(e, other) {
          NamesMatchSymmetric(name, e);
          NamesMatchTransitive(other, e, name);
          NamesMatchSymmetric(other, name);
        }
      } else {
        assert Without(entries, name) == [entries[0]] + rest;
        ValuesAppend([entries[0]], rest, other);
        if NamesMatch(other, name) {
          if NamesMatch(e, other) {
            NamesMatchTransitive(e, other, name);
            NamesMatchSymmetric(e, name);
          }
        }
      }
    }
  }

  /** `add` then lookup, under any case variant of the name. */
  lemma AddValues(h: Headers, name: Bytes, value: Bytes, other: Bytes)
    requires IsAscii(name)
    ensures Values(Add(h, name, value).entries, other)
            == Values(h.entries, other) + (if NamesMatch(name, other) then [value] else [])
  {
    ValuesAppend(h.entries, [Header(name, value)], other);
  }

  /**
   After `replaceOrAdd(name, value)` exactly one entry matches `name` and its
   value is `value`; the lookups of every other name are unchanged.
   */
  lemma ReplaceOrAddValues(h: Headers, name: Bytes, value: Bytes, other: Bytes)
    requires IsAscii(name)
    ensures NamesMatch(other, name) ==> Values(ReplaceOrAdd(h, name, value).entries, other) == [value]
    ensures !NamesMatch(other, name) ==> Values(ReplaceOrAdd(h, name, value).entries, other) == Values(h.entries, other)
  {
    var kept := Without(h.entries, name);
    ValuesAppend(kept, [Header(name, value)], other);
    WithoutValues(h.entries, name, other);
    NamesMatchSymmetric(name, other);
  }

  /** The second of two `replaceOrAdd` calls on matching names overrides the first entirely. */
  lemma ReplaceOrAddTwice(h: Headers, n1: Bytes, v1: Bytes, n2: Bytes, v2: Bytes)
    requires IsAscii(n1) && IsAscii(n2)
    requires NamesMatch(n1, n2)
    ensures ReplaceOrAdd(ReplaceOrAdd(h, n1, v1), n2, v2) == ReplaceOrAdd(h, n2, v2)
  {
    var kept1 := Without(h.entries, n1);
    var kept2 := Without(h.entries, n2);
    assert kept1 == kept2 by {
      WithoutSameName(h.entries, n1, n2);
    }
    var r1 := ReplaceOrAdd(h, n1, v1);
    assert r1.entries == kept1 + [Header(n1, v1)];
    NamesMatchSymmetric(n1, n2);
    assert Without([Header(n1, v1)], n2) == [];
    WithoutAppend(kept1, [Header(n1, v1)], n2);
    WithoutIdempotent(h.entries, n2);
    assert Without(r1.entries, n2) == kept2;
    var r2 := ReplaceOrAdd(r1, n2, v2);
    assert r2.entries == kept2 + [Header(n2, v2)];
    assert ReplaceOrAdd(h, n2, v2).entries == kept2 + [Header(n2, v2)];
    assert IsConnectionHeader(n1) ==> IsConnectionHeader(n2) by {
      if IsConnectionHeader(n1) {
        NamesMatchTransitive(n2, n1, Connection);
      }
    }
  }

  /** Removal depends on the name only up to the mask. */
  lemma {:induction false} WithoutSameName(entries: seq<Header>, n1: Bytes, n2: Bytes)
    requires NamesMatch(n1, n2)
    ensures Without(entries, n1) == Without(entries, n2)
  {
    if |entries| > 0 {
      WithoutSameName(entries[1..], n1, n2);
      var e := entries[0].name;
      if NamesMatch(n1, e) {
        NamesMatchSymmetric(n1, n2);
        NamesMatchTransitive(n2, n1, e);
      } else if NamesMatch(n2, e) {
        NamesMatchTransitive(n1, n2, e);
      }
    }
  }

  /** `remove` after `add`, in any case variants, leaves nothing to find. */
  lemma RemoveAfterAdd(h: Headers, added: Bytes, value: Bytes, removed: Bytes, looked: Bytes)
    requires IsAscii(added)
    requires NamesMatch(added, removed) && NamesMatch(removed, looked)
    ensures !Contains(Remove(Add(h, added, value), removed).entries, looked)
    ensures Values(Remove(Add(h, added, value), removed).entries, looked) == []
  {
    WithoutValues(Add(h, added, value).entries, removed, looked);
    NamesMatchSymmetric(removed, looked);
    LookupsAgree(Remove(Add(h, added, value), removed).entries, looked);
  }

  /** Building a block from ASCII-named pairs is adding them one by one to an empty block. */
  lemma FromPairsIsAddAll(pairs: seq<Header>)
    requires AllNamesAscii(pairs)
    ensures FromPairs(pairs) == AddAll(FromPairs([]), pairs)
  {
  }

  // ------------------------------------------------------ keep-alive cache

  /**
   The cache is sound across a mutation when it was reset, or when it kept
   its value and the `Connection` values it summarises did not change.
   */
  predicate CacheStillValid(before: Headers, after: Headers)
  {
    after.keepAliveState == Unknown
    || (after.keepAliveState == before.keepAliveState
        && Values(after.entries, Connection) == Values(before.entries, Connection))
  }

  lemma AddKeepsCacheValid(h: Headers, name: Bytes, value: Bytes)
    requires IsAscii(name)
    ensures CacheStillValid(h, Add(h, name, value))
  {
    AddValues(h, name, value, Connection);
  }

  lemma {:induction false} AddAllKeepsCacheValid(h: Headers, pairs: seq<Header>)
    requires AllNamesAscii(pairs)
    ensures CacheStillValid(h, AddAll(h, pairs))
    decreases |pairs|
  {
    if |pairs| > 0 {
      var mid := Add(h, pairs[0].name, pairs[0].value);
      AddKeepsCacheValid(h, pairs[0].name, pairs[0].value);
      AddAllKeepsCacheValid(mid, pairs[1..]);
    }
  }

  lemma RemoveKeepsCacheValid(h: Headers, name: Bytes)
    ensures CacheStillValid(h, Remove(h, name))
  {
    WithoutValues(h.entries, name, Connection);
    NamesMatchSymmetric(name, Connection);
  }

  lemma ReplaceOrAddKeepsCacheValid(h: Headers, name: Bytes, value: Bytes)
    requires IsAscii(name)
    ensures CacheStillValid(h, ReplaceOrAdd(h, name, value))
  {
    ReplaceOrAddValues(h, name, value, Connection);
    NamesMatchSymmetric(name, Connection);
  }

  /** Merging keeps the cache sound when the other block has an unknown state or no `Connection` entry. */
  lemma MergeKeepsCacheValid(h: Headers, other: Headers)
    requires other.keepAliveState == Unknown || !Contains(other.entries, Connection)
    ensures CacheStillValid(h, AddHeaders(h, other))
  {
    ValuesAppend(h.entries, other.entries, Connection);
    LookupsAgree(other.entries, Connection);
  }

  /**
   Merging a block whose own state is resolved keeps the receiver's resolved
   state even when the merged entries carry a `Connection` header.
   */
  lemma MergeMayKeepStaleState()
    ensures var h := Headers([], KeepAlive);
            var other := Headers([Header(Connection, [0x63, 0x6C, 0x6F, 0x73, 0x65])], Close);
            !CacheStillValid(h, AddHeaders(h, other))
  {
    var other := Headers([Header(Connection, [0x63, 0x6C, 0x6F, 0x73, 0x65])], Close);
    NamesMatchReflexive(Connection);
    assert Values(other.entries, Connection) != [];
  }
}
