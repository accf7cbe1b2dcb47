/** Bytes, and which of their sequences section 4 of RFC 3629 calls UTF-8.

    A Rust `&str` is modelled by its bytes, so every offset in the source is an
    index into the sequence.  `WellFormed` says the bytes are a `str`. */
module Utf8 {

  type Byte = b: int | 0 <= b < 256
  type Text = seq<Byte>

  predicate IsContinuation(b: Byte) {
    0x80 <= b < 0xC0
  }

  /** Whether `second` may follow the lead byte `lead` of a multibyte character. */
  predicate SecondByteOk(lead: Byte, second: Byte) {
    && IsContinuation(second)
    && (lead == 0xE0 ==> 0xA0 <= second)
    && (lead == 0xED ==> second < 0xA0)
    && (lead == 0xF0 ==> 0x90 <= second)
    && (lead == 0xF4 ==> second < 0x90)
  }

  /** The byte length of the well-formed character `s` begins with, or 0. */
  function HeadLength(s: Text): (n: nat)
    ensures n <= |s| && n <= 4
    ensures forall i :: 1 <= i < n ==> IsContinuation(s[i])
    ensures n > 0 ==> !IsContinuation(s[0])
  {
    if s == [] then 0
    else if s[0] < 0x80 then 1
    else if |s| < 2 || !SecondByteOk(s[0], s[1]) then 0
    else if 0xC2 <= s[0] < 0xE0 then 2
    else if |s| < 3 || !IsContinuation(s[2]) then 0
    else if 0xE0 <= s[0] < 0xF0 then 3
    else if |s| < 4 || !IsContinuation(s[3]) then 0
    else if 0xF0 <= s[0] <= 0xF4 then 4
    else 0
  }

  predicate WellFormed(s: Text)
    decreases |s|
  {
    s == [] || (HeadLength(s) > 0 && WellFormed(s[HeadLength(s)..]))
  }

  /** `str::is_char_boundary`. */
  predicate IsBoundary(s: Text, i: int) {
    0 <= i <= |s| && (0 < i < |s| ==> !IsContinuation(s[i]))
  }

  predicate Ascii(s: Text) {
    forall i :: 0 <= i < |s| ==> s[i] < 0x80
  }

  lemma {:induction false} AsciiIsWellFormed(s: Text)
    requires Ascii(s)
    ensures WellFormed(s)
    decreases |s|
  {
    if s != [] { AsciiIsWellFormed(s[1..]); }
  }

  lemma HeadOfConcat(a: Text, b: Text)
    requires HeadLength(a) > 0
    ensures HeadLength(a + b) == HeadLength(a)
    ensures (a + b)[HeadLength(a)..] == a[HeadLength(a)..] + b
  {
  }

  lemma {:induction false} ConcatIsWellFormed(a: Text, b: Text)
    requires WellFormed(a) && WellFormed(b)
    ensures WellFormed(a + b)
    decreases |a|
  {
    if a == [] {
      assert a + b == b;
    } else {
      HeadOfConcat(a, b);
      ConcatIsWellFormed(a[HeadLength(a)..], b);
    }
  }

  /** The first character is the same in every prefix that holds it. */
  lemma HeadOfPrefix(s: Text, i: nat)
    requires 0 < HeadLength(s) <= i <= |s|
    ensures HeadLength(s[..i]) == HeadLength(s)
  {
  }

  lemma BoundaryAfterCut(s: Text, n: nat, i: nat)
    requires n <= i && IsBoundary(s, i)
    ensures IsBoundary(s[n..], i - n)
  {
  }

  lemma CutTwice(s: Text, n: nat, i: nat)
    requires n <= i <= |s|
    ensures s[n..][i - n..] == s[i..] && s[..i][n..] == s[n..][..i - n]
  {
  }

  /** Cutting well-formed text at a boundary gives two well-formed texts. */
  lemma {:induction false} SplitAtBoundary(s: Text, i: nat)
    requires WellFormed(s) && IsBoundary(s, i)
    ensures WellFormed(s[..i]) && WellFormed(s[i..])
    decreases |s|
  {
    if i == 0 {
      assert s[0..] == s;
    } else {
      var n := HeadLength(s);
      assert n <= i;
      HeadOfPrefix(s, i);
      CutTwice(s, n, i);
      BoundaryAfterCut(s, n, i);
      SplitAtBoundary(s[n..], i - n);
    }
  }

  lemma SuffixIsWellFormed(s: Text, i: nat)
    requires WellFormed(s) && IsBoundary(s, i)
    ensures WellFormed(s[i..])
  {
    SplitAtBoundary(s, i);
  }

  lemma PrefixIsWellFormed(s: Text, i: nat)
    requires WellFormed(s) && IsBoundary(s, i)
    ensures WellFormed(s[..i])
  {
    SplitAtBoundary(s, i);
  }

  lemma BetweenIsWellFormed(text: Text, a: nat, b: nat)
    requires WellFormed(text) && IsBoundary(text, a) && IsBoundary(text, b) && a <= b
    ensures WellFormed(text[a..b])
  {
    SuffixIsWellFormed(text, a);
    BoundaryAfterCut(text, a, b);
    PrefixIsWellFormed(text[a..], b - a);
    CutTwice(text, a, b);
  }

  /** A character never begins with a continuation byte, and the boundary after
      the one at `i` is exactly `HeadLength` bytes on. */
  lemma NextBoundary(s: Text, i: nat)
    requires WellFormed(s) && IsBoundary(s, i) && i < |s|
    ensures !IsContinuation(s[i])
    ensures HeadLength(s[i..]) > 0 && IsBoundary(s, i + HeadLength(s[i..]))
    ensures forall j :: i < j < i + HeadLength(s[i..]) ==> IsContinuation(s[j])
  {
    SplitAtBoundary(s, i);
    var n := HeadLength(s[i..]);
    assert forall j :: i < j < i + n ==> s[j] == s[i..][j - i];
    if i + n < |s| {
      assert WellFormed(s[i..][n..]);
      assert s[i..][n..][0] == s[i + n];
    }
  }

  /** Which byte pairs occur in well-formed text. */
  predicate PairOk(a: Byte, b: Byte) {
    && (a == 0xE0 ==> 0xA0 <= b < 0xC0)
    && (a == 0xF0 ==> 0x90 <= b < 0xC0)
  }

  lemma {:induction false} WellFormedBytes(s: Text, i: nat)
    requires WellFormed(s) && i < |s|
    ensures s[i] != 0xC0 && s[i] != 0xC1 && s[i] < 0xF5
    ensures i + 1 < |s| ==> PairOk(s[i], s[i + 1])
    decreases |s|
  {
    var n := HeadLength(s);
    if i >= n {
      WellFormedBytes(s[n..], i - n);
    }
  }

  /** ASCII bytes are characters of their own. */
  lemma AsciiIsBoundary(source: Text, i: nat)
    requires WellFormed(source) && i < |source| && source[i] < 0x80
    ensures IsBoundary(source, i) && IsBoundary(source, i + 1)
  {
    NextBoundary(source, i);
    assert HeadLength(source[i..]) == 1;
  }

  /** The last boundary at or before `i`. */
  function BoundaryBefore(source: Text, i: nat): (b: nat)
    requires i <= |source|
    ensures b <= i && IsBoundary(source, b) && forall j :: b < j <= i ==> !IsBoundary(source, j)
  {
    if i == 0 || IsBoundary(source, i) then i else BoundaryBefore(source, i - 1)
  }

  /** The first boundary at or after `i`. */
  function BoundaryAfter(source: Text, i: nat): (b: nat)
    requires i <= |source|
    ensures i <= b <= |source| && IsBoundary(source, b) && forall j :: i <= j < b ==> !IsBoundary(source, j)
    decreases |source| - i
  {
    if IsBoundary(source, i) then i else BoundaryAfter(source, i + 1)
  }

  /** The bytes of an ASCII string. */
  function OfAscii(s: string): (bytes: Text)
    ensures |bytes| == |s|
  {
    seq(|s|, i requires 0 <= i < |s| => if s[i] < 128 as char then s[i] as int else 0x3F)
  }
}
