/**
 Byte-level helpers of the header block: the ASCII case-insensitive name
 comparison (a mask of 0xDF on every byte), ASCII lowercasing, the ASCII
 check on names and trimming of space and tab.
 */
module AsciiBytes {

  /** One UTF-8 code unit. */
  type Byte = bv8

  /** A string seen through its UTF-8 view. */
  type Bytes = seq<Byte>

  /** Clears bit 5 of a byte: upper-cases ASCII letters, and also maps 0x60 to 0x40, 0x7B to 0x5B, etc. */
  function Fold(b: Byte): Byte
  {
    b & 0xDF
  }

  /**
   The name comparison every lookup uses: equal lengths and equal bytes
   once bit 5 is masked off. This is the element-wise fallback of the
   comparison; `CompareCaseInsensitiveASCIIBytes` is the indexed fast path.
   */
  predicate NamesMatch(a: Bytes, b: Bytes)
    ensures NamesMatch(a, b) <==>
              |a| == |b| && forall i :: 0 <= i < |a| ==> a[i] == b[i] || a[i] ^ b[i] == 0x20
  {
    assert forall i :: 0 <= i < |a| && i < |b| ==>
             (Fold(a[i]) == Fold(b[i]) <==> a[i] == b[i] || a[i] ^ b[i] == 0x20) by {
      forall i | 0 <= i < |a| && i < |b|
        ensures Fold(a[i]) == Fold(b[i]) <==> a[i] == b[i] || a[i] ^ b[i] == 0x20
      {
        FoldCharacterization(a[i], b[i]);
      }
    }
    |a| == |b| && forall i :: 0 <= i < |a| ==> Fold(a[i]) == Fold(b[i])
  }

  /** The indexed fast path of the comparison: a length check, then one masked compare per byte. */
  method CompareCaseInsensitiveASCIIBytes(lhs: Bytes, rhs: Bytes) returns (equal: bool)
    ensures equal <==> NamesMatch(lhs, rhs)
    ensures equal ==> |lhs| == |rhs|
  {
    if |lhs| != |rhs| {
      return false;
    }
    var idx := 0;
    while idx < |lhs|
      invariant 0 <= idx <= |lhs|
      invariant forall k :: 0 <= k < idx ==> Fold(lhs[k]) == Fold(rhs[k])
    {
      if lhs[idx] & 0xDF != rhs[idx] & 0xDF {
        return false;
      }
      idx := idx + 1;
    }
    return true;
  }

  lemma NamesMatchReflexive(a: Bytes)
    ensures NamesMatch(a, a)
  {
  }

  lemma NamesMatchSymmetric(a: Bytes, b: Bytes)
    ensures NamesMatch(a, b) <==> NamesMatch(b, a)
  {
  }

  lemma NamesMatchTransitive(a: Bytes, b: Bytes, c: Bytes)
    requires NamesMatch(a, b) && NamesMatch(b, c)
    ensures NamesMatch(a, c)
  {
  }

  /** Two bytes fold alike exactly when they are equal or differ in bit 5 alone. */
  lemma FoldCharacterization(x: Byte, y: Byte)
    ensures Fold(x) == Fold(y) <==> (x == y || x ^ y == 0x20)
  {
  }

  /** ASCII lowercasing, the model of `lowercased()` on the names: only A-Z change. */
  function Lower(b: Byte): (r: Byte)
    ensures 0x41 <= b <= 0x5A ==> r == b + 0x20
    ensures !(0x41 <= b <= 0x5A) ==> r == b
  {
    if 0x41 <= b <= 0x5A then b | 0x20 else b
  }

  function LowerBytes(s: Bytes): (r: Bytes)
    ensures |r| == |s|
    ensures forall i :: 0 <= i < |s| ==> r[i] == Lower(s[i])
  {
    seq(|s|, i requires 0 <= i < |s| => Lower(s[i]))
  }

  /** Lowercasing never changes what the mask sees. */
  lemma FoldLower(b: Byte)
    ensures Fold(Lower(b)) == Fold(b)
  {
  }

  /**
   Names with equal lowercase forms match under the mask; the converse
   fails (see `MaskIsNotCaseFolding`).
   */
  lemma {:induction false} LowerEqualImpliesMatch(a: Bytes, b: Bytes)
    requires LowerBytes(a) == LowerBytes(b)
    ensures NamesMatch(a, b)
  {
    forall i | 0 <= i < |a|
      ensures Fold(a[i]) == Fold(b[i])
    {
      FoldLower(a[i]);
      FoldLower(b[i]);
      assert LowerBytes(a)[i] == LowerBytes(b)[i];
    }
  }

  /** Every byte is a lowercase ASCII letter, a-z. */
  predicate LowerLetters(word: Bytes)
  {
    forall i :: 0 <= i < |word| ==> 0x61 <= word[i] <= 0x7A
  }

  /** A byte that agrees with a lowercase letter under the mask is that letter or its capital. */
  lemma FoldLetter(x: Byte, c: Byte)
    requires 0x61 <= c <= 0x7A && Fold(x) == Fold(c)
    ensures Lower(x) == c
  {
    FoldCharacterization(x, c);
    if x != c {
      assert x == c ^ 0x20;
      assert x == c - 0x20;
    }
  }

  /**
   Where the other name is made of letters only, the mask is case folding:
   matching it means having it as lowercase form.
   */
  lemma MatchLettersIsCaseVariant(name: Bytes, word: Bytes)
    requires LowerLetters(word)
    ensures NamesMatch(name, word) <==> LowerBytes(name) == word
  {
    if NamesMatch(name, word) {
      forall i | 0 <= i < |name| ensures LowerBytes(name)[i] == word[i] {
        FoldLetter(name[i], word[i]);
      }
    }
    if LowerBytes(name) == word {
      assert LowerBytes(word) == word;
      LowerEqualImpliesMatch(name, word);
    }
  }

  /** The mask is not case folding: "@" matches "`" and "[" matches "{" while their lowercase forms differ. */
  lemma MaskIsNotCaseFolding()
    ensures NamesMatch([0x40], [0x60]) && LowerBytes([0x40]) != LowerBytes([0x60])
    ensures NamesMatch([0x5B], [0x7B]) && LowerBytes([0x5B]) != LowerBytes([0x7B])
  {
    assert LowerBytes([0x40])[0] == 0x40;
    assert LowerBytes([0x5B])[0] == 0x5B;
  }

  /**
   Every byte is at most 127, the check `add` makes on a name: the top bit
   is clear, so no byte belongs to a multi-byte UTF-8 sequence.
   */
  predicate IsAscii(s: Bytes)
    ensures IsAscii(s) <==> forall i :: 0 <= i < |s| ==> s[i] & 0x80 == 0
  {
    forall i :: 0 <= i < |s| ==> s[i] <= 127
  }

  /**
   `isASCIIWhitespace`: space (0x20) or horizontal tab (0x09), the only
   whitespace trimming removes; carriage return and line feed stay.
   */
  predicate IsWhitespace(b: Byte)
    ensures b == 0x20 || b == 0x09 ==> IsWhitespace(b)
    ensures IsWhitespace(b) ==> b & 0x80 == 0
    ensures b == 0x0D || b == 0x0A ==> !IsWhitespace(b)
  {
    b == 0x20 || b == 0x09
  }

  predicate AllWhitespace(s: Bytes)
  {
    forall i :: 0 <= i < |s| ==> IsWhitespace(s[i])
  }

  /** Index of the first byte that is not whitespace, or |s| when there is none. */
  function FirstNonWhitespace(s: Bytes): (n: nat)
    ensures n <= |s|
    ensures AllWhitespace(s[..n])
    ensures n < |s| ==> !IsWhitespace(s[n])
  {
    if |s| == 0 || !IsWhitespace(s[0]) then 0
    else
      var n := 1 + FirstNonWhitespace(s[1..]);
      assert forall i :: 1 <= i < n ==> s[..n][i] == s[1..][..n - 1][i - 1];
      n
  }

  /** Length of the prefix that ends at the last byte that is not whitespace (0 when there is none). */
  function EndOfLastNonWhitespace(s: Bytes): (n: nat)
    ensures n <= |s|
    ensures AllWhitespace(s[n..])
    ensures n > 0 ==> !IsWhitespace(s[n - 1])
  {
    if |s| == 0 || !IsWhitespace(s[|s| - 1]) then |s|
    else
      var n := EndOfLastNonWhitespace(s[..|s| - 1]);
      assert forall i :: n <= i < |s| - 1 ==> s[i] == s[..|s| - 1][i];
      n
  }

  /**
   Strips leading and trailing spaces and tabs: the result is a slice of `s`
   that is empty or starts and ends with a non-whitespace byte, and all that
   is cut away on either side is whitespace.
   */
  function TrimWhitespace(s: Bytes): (r: Bytes)
    ensures |r| <= |s|
    ensures r == [] <==> AllWhitespace(s)
    ensures r != [] ==> !IsWhitespace(r[0]) && !IsWhitespace(r[|r| - 1])
  {
    var first := FirstNonWhitespace(s);
    if first == |s| then
      assert s[..first] == s;
      []
    else
      var last := EndOfLastNonWhitespace(s);
      assert first < last;
      var r := s[first..last];
      assert !AllWhitespace(s) by {
        assert !IsWhitespace(s[first]);
      }
      r
  }

  /**
   What trimming cuts away: the result is the slice of `s` starting at `lo`,
   and everything before and after that slice is whitespace.
   */
  lemma TrimSlice(s: Bytes) returns (lo: nat)
    ensures lo + |TrimWhitespace(s)| <= |s|
    ensures TrimWhitespace(s) == s[lo..lo + |TrimWhitespace(s)|]
    ensures AllWhitespace(s[..lo]) && AllWhitespace(s[lo + |TrimWhitespace(s)|..])
  {
    var first := FirstNonWhitespace(s);
    if first == |s| {
      assert s[..first] == s;
      lo := 0;
      assert AllWhitespace(s[0..]);
    } else {
      lo := first;
    }
  }

  /** Trimming removes only whitespace, and only from the two ends. */
  lemma TrimIsSlice(s: Bytes)
    ensures exists lo :: 0 <= lo <= |s| - |TrimWhitespace(s)|
                         && TrimWhitespace(s) == s[lo..lo + |TrimWhitespace(s)|]
                         && AllWhitespace(s[..lo]) && AllWhitespace(s[lo + |TrimWhitespace(s)|..])
  {
    var lo := TrimSlice(s);
  }

  /** Trimming a single byte removes it exactly when it is a space or a tab. */
  lemma TrimOneByte(b: Byte)
    ensures TrimWhitespace([b]) == [] <==> b == 0x20 || b == 0x09
  {
    assert AllWhitespace([b]) <==> IsWhitespace([b][0]);
  }

  /** Trimming twice trims no more than trimming once. */
  lemma TrimIdempotent(s: Bytes)
    ensures TrimWhitespace(TrimWhitespace(s)) == TrimWhitespace(s)
  {
    var r := TrimWhitespace(s);
    var rr := TrimWhitespace(r);
    if r != [] {
      var lo := TrimSlice(r);
      assert lo == 0;
    }
  }
}
