/**
 `subscript(canonicalForm:)`: the values of a header split on commas and
 trimmed of spaces and tabs (the list rule of section 5.6.1 of RFC 9110),
 except for `Set-Cookie`, whose values are returned whole because a cookie
 may itself contain commas (section 3 of RFC 6265).
 */
module CanonicalForm {
  import opened AsciiBytes
  import opened Sequences
  import opened HttpHeaders

  const Comma: Byte := 0x2C
  /** "set-cookie" */
  const SetCookie: Bytes := [0x73, 0x65, 0x74, 0x2D, 0x63, 0x6F, 0x6F, 0x6B, 0x69, 0x65]

  /** A list element as the canonical form yields it: no comma, no space or tab at either end. */
  predicate IsListElement(p: Bytes)
  {
    Comma !in p && (p == [] || (!IsWhitespace(p[0]) && !IsWhitespace(p[|p| - 1])))
  }

  /** The trimmed slice holds only bytes of its input. */
  lemma TrimWithin(s: Bytes)
    ensures forall i :: 0 <= i < |TrimWhitespace(s)| ==> TrimWhitespace(s)[i] in s
  {
    var r := TrimWhitespace(s);
    var lo := TrimSlice(s);
    forall i | 0 <= i < |r| ensures r[i] in s {
      assert r[i] == s[lo + i];
    }
  }

  /**
   Trimming is determined by its contract: whatever whitespace surrounds a
   slice without whitespace at its ends, trimming gives back that slice.
   */
  lemma TrimExact(p: Bytes, s: Bytes, q: Bytes)
    requires AllWhitespace(p) && AllWhitespace(q)
    requires s == [] || (!IsWhitespace(s[0]) && !IsWhitespace(s[|s| - 1]))
    ensures TrimWhitespace(p + s + q) == s
  {
    var t := p + s + q;
    if s == [] {
      assert AllWhitespace(t) by {
        forall i | 0 <= i < |t| ensures IsWhitespace(t[i]) {
          if i < |p| { assert t[i] == p[i]; } else { assert t[i] == q[i - |p|]; }
        }
      }
    } else {
      var first := FirstNonWhitespace(t);
      var last := EndOfLastNonWhitespace(t);
      assert t[|p|] == s[0];
      assert t[|p| + |s| - 1] == s[|s| - 1];
      assert first == |p|;
      assert last == |p| + |s|;
      assert t[first..last] == s;
    }
  }

  /** Each piece trimmed, in order (the `map` over the split pieces). */
  function TrimEach(pieces: seq<Bytes>): (r: seq<Bytes>)
    ensures |r| == |pieces|
    ensures forall i :: 0 <= i < |r| ==> r[i] == TrimWhitespace(pieces[i])
  {
    if |pieces| == 0 then []
    else
      var rest := TrimEach(pieces[1..]);
      var r := [TrimWhitespace(pieces[0])] + rest;
      assert forall i :: 1 <= i < |r| ==> r[i] == rest[i - 1];
      r
  }

  /** The pieces of one value: split on commas with empty pieces dropped, each piece then trimmed. */
  function SplitAndTrim(value: Bytes): (r: seq<Bytes>)
    ensures forall i :: 0 <= i < |r| ==> IsListElement(r[i])
  {
    var pieces := Split(value, Comma);
    var r := TrimEach(pieces);
    assert forall i :: 0 <= i < |r| ==> IsListElement(r[i]) by {
      forall i | 0 <= i < |r| ensures IsListElement(r[i]) {
        TrimWithin(pieces[i]);
      }
    }
    r
  }

  lemma ListElementsAppend(a: seq<Bytes>, b: seq<Bytes>)
    requires forall i :: 0 <= i < |a| ==> IsListElement(a[i])
    requires forall i :: 0 <= i < |b| ==> IsListElement(b[i])
    ensures forall i :: 0 <= i < |a + b| ==> IsListElement((a + b)[i])
  {
    forall i | 0 <= i < |a + b| ensures IsListElement((a + b)[i]) {
      if i < |a| {
        assert (a + b)[i] == a[i];
      } else {
        assert (a + b)[i] == b[i - |a|];
      }
    }
  }

  /** The pieces of every value, in order: `flatMap` over the values. */
  function SplitAndTrimAll(values: seq<Bytes>): (r: seq<Bytes>)
    ensures forall i :: 0 <= i < |r| ==> IsListElement(r[i])
  {
    if |values| == 0 then []
    else
      var head := SplitAndTrim(values[0]);
      var rest := SplitAndTrimAll(values[1..]);
      ListElementsAppend(head, rest);
      head + rest
  }

  function CanonicalForm(entries: seq<Header>, name: Bytes): (r: seq<Bytes>)
    ensures Values(entries, name) == [] ==> r == []
    ensures LowerBytes(name) == SetCookie ==> r == Values(entries, name)
    ensures LowerBytes(name) != SetCookie ==> forall i :: 0 <= i < |r| ==> IsListElement(r[i])
  {
    var result := Values(entries, name);
    if |result| == 0 then []
    else if LowerBytes(name) == SetCookie then result
    else SplitAndTrimAll(result)
  }

  /** The canonical form of a block is the canonical forms of its header lines, one after another. */
  lemma {:induction false} SplitAndTrimAllAppend(a: seq<Bytes>, b: seq<Bytes>)
    ensures SplitAndTrimAll(a + b) == SplitAndTrimAll(a) + SplitAndTrimAll(b)
  {
    if |a| == 0 {
      assert a + b == b;
    } else {
      assert (a + b)[0] == a[0];
      assert (a + b)[1..] == a[1..] + b;
      SplitAndTrimAllAppend(a[1..], b);
    }
  }

  /** Canonical form over the concatenation of two blocks, for a name other than `set-cookie`. */
  lemma CanonicalFormAppend(a: seq<Header>, b: seq<Header>, name: Bytes)
    requires LowerBytes(name) != SetCookie
    ensures CanonicalForm(a + b, name) == CanonicalForm(a, name) + CanonicalForm(b, name)
  {
    ValuesAppend(a, b, name);
    SplitAndTrimAllAppend(Values(a, name), Values(b, name));
  }

  /**
   The canonical form of one header line, for a name other than
   `set-cookie`: the line's value split and trimmed when its name matches,
   nothing otherwise. With `CanonicalFormAppend` this gives the canonical
   form of every block, line by line.
   */
  lemma CanonicalFormOne(e: Header, name: Bytes)
    requires LowerBytes(name) != SetCookie
    ensures CanonicalForm([e], name) == if NamesMatch(e.name, name) then SplitAndTrim(e.value) else []
  {
    assert [e][1..] == [];
    assert Values([e], name) == (if NamesMatch(e.name, name) then [e.value] else []);
    if NamesMatch(e.name, name) {
      assert SplitAndTrimAll([e.value]) == SplitAndTrim(e.value) + SplitAndTrimAll([]);
    }
  }

  /** Commas at either end of a value add nothing to its pieces. */
  lemma OuterCommasIgnored(value: Bytes)
    ensures SplitAndTrim([Comma] + value + [Comma]) == SplitAndTrim(value)
  {
    var pieces := SplitAll(value, Comma);
    var empty: Bytes := [];
    JoinEmptyHead(pieces, Comma);
    JoinAppend([empty] + pieces, empty, Comma);
    assert [Comma] + value + [Comma] == Join([empty] + pieces + [empty], Comma);
    assert SeparatorFree([empty] + pieces + [empty], Comma) by {
      var all := [empty] + pieces + [empty];
      forall i | 0 <= i < |all| ensures Comma !in all[i] {
        if 0 < i < |all| - 1 { assert all[i] == pieces[i - 1]; }
      }
    }
    SplitOfJoin([empty] + pieces + [empty], Comma);
    NonEmptyAppend([empty] + pieces, [empty]);
    NonEmptyAppend([empty], pieces);
    NonEmptyOne(empty);
    assert NonEmpty([empty] + pieces + [empty]) == NonEmpty(pieces);
  }

  /** An empty value, or one of commas only, has no pieces at all. */
  lemma NoPiecesWithoutContent(n: nat)
    ensures SplitAndTrim([]) == []
    ensures SplitAndTrim(seq(n, _ => Comma)) == []
  {
    CommasOnly(n);
  }

  lemma {:induction false} CommasOnly(n: nat)
    ensures Split(seq(n, _ => Comma), Comma) == []
  {
    var s := seq(n, _ => Comma);
    if n > 0 {
      CommasOnly(n - 1);
      assert s[1..] == seq(n - 1, _ => Comma);
      assert SplitAll(s, Comma) == [[]] + SplitAll(s[1..], Comma);
      NonEmptyAppend([[]], SplitAll(s[1..], Comma));
      NonEmptyOne<Byte>([]);
    }
  }

  lemma TrimAfterSpace(s: Bytes)
    requires s != [] && !IsWhitespace(s[0]) && !IsWhitespace(s[|s| - 1])
    ensures TrimWhitespace([0x20] + s) == s
  {
    TrimExact([0x20], s, []);
    assert [0x20] + s + [] == [0x20] + s;
  }

  /** A value of two comma-separated non-empty pieces. */
  lemma SplitAndTrimTwo(x: Bytes, y: Bytes)
    requires |x| > 0 && |y| > 0
    requires Comma !in x && Comma !in y
    ensures SplitAndTrim(x + [Comma] + y) == [TrimWhitespace(x), TrimWhitespace(y)]
  {
    JoinTwo(x, y);
    SplitOfJoin([x, y], Comma);
    NonEmptyTwo(x, y);
    TrimEachTwo(x, y);
  }

  /** Two commas in a row: the empty piece between them is dropped. */
  lemma SplitAndTrimDoubleComma(x: Bytes, z: Bytes)
    requires |x| > 0 && |z| > 0
    requires Comma !in x && Comma !in z
    ensures SplitAndTrim(x + [Comma, Comma] + z) == [TrimWhitespace(x), TrimWhitespace(z)]
  {
    var empty: Bytes := [];
    JoinThree(x, empty, z);
    assert x + [Comma] + empty + [Comma] + z == x + [Comma, Comma] + z;
    SplitOfJoin([x, empty, z], Comma);
    NonEmptyThree(x, empty, z);
    NonEmptyTwo(empty, z);
    TrimEachTwo(x, z);
  }

  /** A non-empty middle piece is kept even when trimming then empties it. */
  lemma SplitAndTrimThree(x: Bytes, y: Bytes, z: Bytes)
    requires |x| > 0 && |y| > 0 && |z| > 0
    requires Comma !in x && Comma !in y && Comma !in z
    ensures SplitAndTrim(x + [Comma] + y + [Comma] + z)
            == [TrimWhitespace(x), TrimWhitespace(y), TrimWhitespace(z)]
  {
    JoinThree(x, y, z);
    SplitOfJoin([x, y, z], Comma);
    NonEmptyThree(x, y, z);
    NonEmptyTwo(y, z);
    TrimEachThree(x, y, z);
  }

  lemma TrimEachTwo(x: Bytes, y: Bytes)
    ensures TrimEach([x, y]) == [TrimWhitespace(x), TrimWhitespace(y)]
  {
  }

  lemma TrimEachThree(x: Bytes, y: Bytes, z: Bytes)
    ensures TrimEach([x, y, z]) == [TrimWhitespace(x), TrimWhitespace(y), TrimWhitespace(z)]
  {
  }

  lemma JoinTwo(x: Bytes, y: Bytes)
    ensures Join([x, y], Comma) == x + [Comma] + y
  {
    assert [x, y][1..] == [y];
  }

  lemma JoinThree(x: Bytes, y: Bytes, z: Bytes)
    ensures Join([x, y, z], Comma) == x + [Comma] + y + [Comma] + z
  {
    assert [x, y, z][1..] == [y, z];
    JoinTwo(y, z);
  }

  lemma NonEmptyTwo(x: Bytes, y: Bytes)
    ensures NonEmpty([x, y]) == (if |x| > 0 then [x] else []) + (if |y| > 0 then [y] else [])
  {
    assert [x, y][1..] == [y];
    assert [y][1..] == [];
    assert NonEmpty([y]) == (if |y| > 0 then [y] else []) + NonEmpty([]);
  }

  lemma NonEmptyThree(x: Bytes, y: Bytes, z: Bytes)
    ensures NonEmpty([x, y, z]) == (if |x| > 0 then [x] else []) + NonEmpty([y, z])
  {
    assert [x, y, z][1..] == [y, z];
  }

  lemma {:induction false} NonEmptyKeepsNonEmpty(pieces: seq<Bytes>)
    requires forall i :: 0 <= i < |pieces| ==> |pieces[i]| > 0
    ensures NonEmpty(pieces) == pieces
  {
    if |pieces| > 0 {
      var rest := pieces[1..];
      assert forall i :: 0 <= i < |rest| ==> rest[i] == pieces[i + 1];
      NonEmptyKeepsNonEmpty(rest);
      assert NonEmpty(pieces) == [pieces[0]] + NonEmpty(rest);
      assert pieces == [pieces[0]] + rest;
    }
  }

  /**
   A value written as comma-separated pieces splits into the non-empty ones
   among them, in order, each then trimmed. Empty pieces, from a leading or
   trailing comma, a run of commas or an empty value, are dropped; a piece of
   spaces is not empty when split, so it stays and is trimmed to "".
   */
  lemma SplitAndTrimJoin(pieces: seq<Bytes>)
    requires |pieces| >= 1 && SeparatorFree(pieces, Comma)
    ensures SplitAndTrim(Join(pieces, Comma)) == TrimEach(NonEmpty(pieces))
  {
    SplitOfJoin(pieces, Comma);
  }

  lemma {:induction false} TrimEachKeepsElements(elems: seq<Bytes>)
    requires forall i :: 0 <= i < |elems| ==> IsListElement(elems[i])
    ensures TrimEach(elems) == elems
  {
    if |elems| > 0 {
      TrimNothing(elems[0]);
      TrimEachKeepsElements(elems[1..]);
      assert elems == [elems[0]] + elems[1..];
    }
  }

  /** Non-empty list elements joined with ',' come back unchanged: the canonical form inverts joining. */
  lemma ListElementsRoundTrip(elems: seq<Bytes>)
    requires |elems| >= 1
    requires forall i :: 0 <= i < |elems| ==> |elems[i]| > 0 && IsListElement(elems[i])
    ensures SplitAndTrim(Join(elems, Comma)) == elems
  {
    SplitAndTrimJoin(elems);
    NonEmptyKeepsNonEmpty(elems);
    TrimEachKeepsElements(elems);
  }

  /** Trimming leaves a value that already has no space or tab at its ends as it is. */
  lemma TrimNothing(s: Bytes)
    requires s == [] || (!IsWhitespace(s[0]) && !IsWhitespace(s[|s| - 1]))
    ensures TrimWhitespace(s) == s
  {
    TrimExact([], s, []);
    assert [] + s + [] == s;
  }

  /**
   A list header such as "Accept-Encoding: gzip, deflate", looked up under
   any case variant of its name, has the canonical form ["gzip", "deflate"]:
   the value is split at the comma and the space after it is trimmed.
   */
  lemma ListHeaderExample(name: Bytes, lookup: Bytes, first: Bytes, second: Bytes)
    requires NamesMatch(name, lookup) && LowerBytes(lookup) != SetCookie
    requires |first| > 0 && IsListElement(first)
    requires |second| > 0 && IsListElement(second)
    ensures CanonicalForm([Header(name, first + [Comma, 0x20] + second)], lookup) == [first, second]
  {
    var value := first + [Comma, 0x20] + second;
    assert Values([Header(name, value)], lookup) == [value];
    var spaced := [0x20] + second;
    assert value == first + [Comma] + spaced;
    assert Comma !in spaced;
    SplitAndTrimTwo(first, spaced);
    TrimNothing(first);
    TrimAfterSpace(second);
    assert SplitAndTrimAll([value]) == SplitAndTrim(value) + SplitAndTrimAll([]);
  }

  /** A `Set-Cookie` value such as "a=1, b=2" is returned whole, commas and all, under any case of the name. */
  lemma SetCookieExample(name: Bytes, value: Bytes)
    requires NamesMatch(name, SetCookie)
    ensures CanonicalForm([Header(name, value)], SetCookie) == [value]
  {
    assert LowerBytes(SetCookie) == SetCookie;
    assert Values([Header(name, value)], SetCookie) == [value];
  }

  /** "a,,b" splits into ["a", "b"]: the empty piece is dropped before trimming. */
  lemma DoubleCommaExample(a: Bytes, b: Bytes)
    requires |a| > 0 && IsListElement(a)
    requires |b| > 0 && IsListElement(b)
    ensures SplitAndTrim(a + [Comma, Comma] + b) == [a, b]
  {
    SplitAndTrimDoubleComma(a, b);
    TrimNothing(a);
    TrimNothing(b);
  }

  /** "a, ,b" splits into ["a", "", "b"]: the piece " " is not empty when split, so it survives as "". */
  lemma SpacedCommaExample(a: Bytes, b: Bytes)
    requires |a| > 0 && IsListElement(a)
    requires |b| > 0 && IsListElement(b)
    ensures SplitAndTrim(a + [Comma, 0x20, Comma] + b) == [a, [], b]
  {
    var space: Bytes := [0x20];
    assert a + [Comma, 0x20, Comma] + b == a + [Comma] + space + [Comma] + b;
    SplitAndTrimThree(a, space, b);
    TrimNothing(a);
    TrimNothing(b);
    TrimExact(space, [], []);
    assert space + [] + [] == space;
  }
}
