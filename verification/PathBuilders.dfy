/** The builders against the host's rule: which text makes a segment, what the
    host decodes it to, where the segment may stand, and what a built query
    carries (`crates/krit-capability/src/request_target.rs`). */
module PathBuilders {
  import opened Utf8
  import opened Wrappers
  import opened RequestTarget
  import opened PathStability
  import Split

  // ----- What the encoding writes

  predicate BuilderByte(b: Byte) {
    IsUnreserved(b) || b == PERCENT
  }

  lemma {:induction false} EncodedBytes(text: Text, i: nat)
    requires i < |PercentEncoded(text)|
    ensures BuilderByte(PercentEncoded(text)[i])
    decreases |text|
  {
    var head := EncodedByte(text[0]);
    if i >= |head| {
      EncodedBytes(text[1..], i - |head|);
    }
  }

  lemma EncodedLacks(text: Text, b: Byte)
    requires !BuilderByte(b)
    ensures b !in PercentEncoded(text)
  {
    forall i | 0 <= i < |PercentEncoded(text)| ensures PercentEncoded(text)[i] != b {
      EncodedBytes(text, i);
    }
  }

  predicate HoldsForbidden(text: Text) {
    exists i :: 0 <= i < |text| && ForbiddenInSegment(text[i])
  }

  /** The host's decoder undoes the encoding exactly, refusing just the text
      that holds a byte whose escape it refuses. */
  lemma {:induction false} HostDecodesEncoding(text: Text)
    ensures DecodedSegment(PercentEncoded(text)) == (if HoldsForbidden(text) then None else Some(text))
    decreases |text|
  {
    if text != [] {
      var head, rest := EncodedByte(text[0]), PercentEncoded(text[1..]);
      var s := PercentEncoded(text);
      HostDecodesEncoding(text[1..]);
      assert HoldsForbidden(text) <==> ForbiddenInSegment(text[0]) || HoldsForbidden(text[1..]) by {
        if HoldsForbidden(text[1..]) {
          var i :| 0 <= i < |text[1..]| && ForbiddenInSegment(text[1..][i]);
          assert ForbiddenInSegment(text[i + 1]);
        }
        if i :| 0 <= i < |text| && ForbiddenInSegment(text[i]) && i > 0 {
          assert ForbiddenInSegment(text[1..][i - 1]);
        }
      }
      assert text == [text[0]] + text[1..];
      if IsUnreserved(text[0]) {
        assert s[1..] == rest;
      } else {
        assert s[3..] == rest;
        assert EscapeAhead(s) && EscapedByte(s) == text[0];
      }
    }
  }

  lemma WellFormedIsNotOverlong(text: Text)
    requires WellFormed(text)
    ensures !HoldsOverlongUtf8(text)
  {
    forall i | 0 <= i < |text| ensures !OverlongAt(text, i) {
      WellFormedBytes(text, i);
    }
  }

  lemma {:induction false} EmptyOnlyFromEmpty(text: Text)
    ensures PercentEncoded(text) == [] <==> text == []
  {
    if text != [] { assert |EncodedByte(text[0])| > 0; }
  }

  // ----- The builder agrees with the host

  lemma SlashedShape(segment: Text)
    requires forall i :: 0 <= i < |segment| ==> BuilderByte(segment[i])
    ensures HasOriginFormShape([SLASH] + segment)
  {
    var path := [SLASH] + segment;
    forall i | 0 <= i < |path| ensures !SchemeAt(path, i) && !ForbiddenInPath(path[i]) {
      if i > 0 { assert BuilderByte(segment[i - 1]); }
    }
  }

  lemma SlashedTraversal(segment: Text)
    requires SLASH !in segment
    ensures HasTraversalForm([SLASH] + segment) <==> !SafeSegment(segment)
  {
    var path := [SLASH] + segment;
    assert path == [] + [SLASH] + segment;
    Split.PartsOfFront([], segment, SLASH);
    Split.PartsOfSingle(segment, SLASH);
    assert Split.Parts(path, SLASH) == [[], segment];
    assert Split.Parts(path, SLASH)[1] == segment;
    assert SafeSegment([]) by { assert NamePart([]) == []; }
  }

  /** `encode_path_segment` is `Ok` exactly for the non-empty text whose
      encoding the host accepts after `/`; what the host and any other decoder
      make of it is that text again. */
  lemma SegmentAgreesWithHost(text: Text)
    requires WellFormed(text)
    ensures EncodePathSegment(text).Ok? <==>
            text != [] && IsOriginFormPath([SLASH] + PercentEncoded(text))
    ensures EncodePathSegment(text).Ok? ==>
              var segment := EncodePathSegment(text).value;
              && segment != [] && SafeSegment(segment) && SLASH !in segment
              && DecodedSegment(segment) == Some(text)
              && Decode(segment, None) == text
  {
    var segment := PercentEncoded(text);
    forall i | 0 <= i < |segment| ensures BuilderByte(segment[i]) { EncodedBytes(text, i); }
    SlashedShape(segment);
    EncodedLacks(text, SLASH);
    SlashedTraversal(segment);
    HostDecodesEncoding(text);
    WellFormedIsNotOverlong(text);
    EmptyOnlyFromEmpty(text);
    if !HoldsForbidden(text) {
      DecodeFront(segment, [], None);
      assert segment + [] == segment;
    }
  }

  // ----- Where an accepted segment may stand

  /** The prefixes that a following `/segment` breaks: the root alone, and one
      that ends in `:/`. */
  predicate BreaksComposition(prefix: Text) {
    prefix == [SLASH] || (|prefix| >= 2 && prefix[|prefix| - 2] == COLON && prefix[|prefix| - 1] == SLASH)
  }

  function Composed(prefix: Text, segment: Text, suffix: Text): Text {
    prefix + [SLASH] + segment + [SLASH] + suffix
  }

  lemma ComposedTraversal(prefix: Text, segment: Text, suffix: Text)
    requires !HasTraversalForm(prefix) && !HasTraversalForm([SLASH] + suffix)
    requires SLASH !in segment && SafeSegment(segment)
    ensures !HasTraversalForm(Composed(prefix, segment, suffix))
  {
    var rest := segment + [SLASH] + suffix;
    assert Composed(prefix, segment, suffix) == prefix + [SLASH] + rest;
    Split.PartsOfConcat(prefix, rest, SLASH);
    Split.PartsOfFront(segment, suffix, SLASH);
    assert [SLASH] + suffix == [] + [SLASH] + suffix;
    Split.PartsOfFront([], suffix, SLASH);
    var tail := Split.Parts(suffix, SLASH);
    assert forall p :: p in tail ==> p in [[]] + tail;
  }

  lemma ComposedSchemes(prefix: Text, segment: Text, suffix: Text, i: nat)
    requires HasOriginFormShape(prefix) && HasOriginFormShape([SLASH] + suffix)
    requires segment != [] && forall j :: 0 <= j < |segment| ==> BuilderByte(segment[j])
    requires i < |Composed(prefix, segment, suffix)|
    ensures SchemeAt(Composed(prefix, segment, suffix), i) <==>
            i == |prefix| - 2 && prefix[i] == COLON && prefix[i + 1] == SLASH
    ensures !ForbiddenInPath(Composed(prefix, segment, suffix)[i])
  {
    var path := Composed(prefix, segment, suffix);
    var p, q := |prefix|, |prefix| + 1 + |segment|;
    assert path[p] == SLASH && path[p + 1] == segment[0];
    if i < p {
      assert path[i] == prefix[i] && !SchemeAt(prefix, i);
      assert i + 1 < p ==> path[i + 1] == prefix[i + 1];
      assert i + 2 < p ==> path[i + 2] == prefix[i + 2];
      assert BuilderByte(segment[0]);
    } else if p < i < q {
      assert path[i] == segment[i - p - 1] && BuilderByte(segment[i - p - 1]);
    } else if i >= q {
      var tail := [SLASH] + suffix;
      assert path[q..] == tail;
      assert path[i] == tail[i - q] && !SchemeAt(tail, i - q);
      assert i + 1 < |path| ==> path[i + 1] == tail[i - q + 1];
      assert i + 2 < |path| ==> path[i + 2] == tail[i - q + 2];
    }
  }

  lemma ComposedShape(prefix: Text, segment: Text, suffix: Text)
    requires HasOriginFormShape(prefix) && HasOriginFormShape([SLASH] + suffix)
    requires segment != [] && forall j :: 0 <= j < |segment| ==> BuilderByte(segment[j])
    ensures HasOriginFormShape(Composed(prefix, segment, suffix)) <==> !BreaksComposition(prefix)
  {
    var path := Composed(prefix, segment, suffix);
    forall i | 0 <= i < |path|
      ensures SchemeAt(path, i) <==> i == |prefix| - 2 && prefix[i] == COLON && prefix[i + 1] == SLASH
      ensures !ForbiddenInPath(path[i])
    {
      ComposedSchemes(prefix, segment, suffix, i);
    }
    assert path[0] == prefix[0] && path[|prefix|] == SLASH;
    if |prefix| == 1 {
      assert prefix == [SLASH];
    } else {
      assert path[1] == prefix[1];
      if BreaksComposition(prefix) {
        assert SchemeAt(path, |prefix| - 2);
      } else {
        assert forall i :: 0 <= i < |path| ==> !SchemeAt(path, i);
      }
    }
  }

  /** An `Ok` segment between an accepted prefix and a suffix accepted after
      `/` is accepted exactly when the prefix is not one that breaks. */
  lemma SegmentComposes(prefix: Text, text: Text, suffix: Text)
    requires WellFormed(text) && EncodePathSegment(text).Ok?
    requires IsOriginFormPath(prefix) && IsOriginFormPath([SLASH] + suffix)
    ensures IsOriginFormPath(Composed(prefix, EncodePathSegment(text).value, suffix)) <==>
            !BreaksComposition(prefix)
  {
    SegmentAgreesWithHost(text);
    var segment := EncodePathSegment(text).value;
    forall i | 0 <= i < |segment| ensures BuilderByte(segment[i]) { EncodedBytes(text, i); }
    ComposedTraversal(prefix, segment, suffix);
    ComposedShape(prefix, segment, suffix);
  }

  const SCHEME_PREFIX: Text := [SLASH, 0x61, COLON, SLASH]

  /** The prefix `/a:/` is accepted on its own. */
  lemma SchemePrefixAccepted()
    ensures IsOriginFormPath(SCHEME_PREFIX)
  {
    var path := SCHEME_PREFIX;
    var name: Text := [0x61, COLON];
    assert HasOriginFormShape(path) by {
      forall i | 0 <= i < |path| ensures !SchemeAt(path, i) && !ForbiddenInPath(path[i]) {}
    }
    assert path == [] + [SLASH] + (name + [SLASH] + []);
    Split.PartsOfFront([], name + [SLASH] + [], SLASH);
    Split.PartsOfFront(name, [], SLASH);
    Split.PartsOfSingle([], SLASH);
    assert Split.Parts(path, SLASH) == [[], name, []];
    assert SafeSegment([]) by { assert NamePart([]) == []; }
    PlainSegment(name);
  }

  lemma PlainSegment(name: Text)
    requires name == [0x61, COLON]
    ensures SafeSegment(name)
  {
    var colon: Text := [COLON];
    assert name[1..] == colon && colon[1..] == [];
    assert DecodedSegment([]) == Some([]);
    assert DecodedSegment(colon) == Some([COLON] + []);
    assert [COLON] + [] == colon && [0x61] + colon == name;
    assert DecodedSegment(name) == Some(name);
    assert NamePart(colon) == colon;
    assert NamePart(name) == name;
  }

  /** The documented promise for every safe prefix fails at the root and after
      a colon. */
  lemma RootPrefixBreaks()
    ensures WellFormed([0x61]) && EncodePathSegment([0x61]).Ok?
    ensures IsOriginFormPath([SLASH])
    ensures !IsOriginFormPath(Composed([SLASH], EncodePathSegment([0x61]).value, []))
    ensures IsOriginFormPath(SCHEME_PREFIX)
    ensures !IsOriginFormPath(Composed(SCHEME_PREFIX, EncodePathSegment([0x61]).value, []))
  {
    var text: Text := [0x61];
    AsciiIsWellFormed(text);
    assert EncodePathSegment(text).Ok? by {
      assert NamePart(text) == [0x61] by { assert text[1..] == []; }
      assert Trim([0x61]) == [0x61];
    }
    assert IsOriginFormPath([SLASH]) by {
      SlashedShape([]);
      SlashedTraversal([]);
      assert [SLASH] + [] == [SLASH];
      assert SafeSegment([]) by { assert NamePart([]) == []; }
    }
    assert [SLASH] + [] == [SLASH];
    SegmentComposes([SLASH], text, []);
    SchemePrefixAccepted();
    SegmentComposes(SCHEME_PREFIX, text, []);
  }

  // ----- Queries

  predicate QueryByte(b: Byte) {
    BuilderByte(b) || b == EQUALS || b == AMPERSAND
  }

  lemma EncodedPairBytes(pair: Pair)
    ensures forall b :: b in EncodedPair(pair) ==> QueryByte(b)
    ensures AMPERSAND !in EncodedPair(pair)
  {
    EncodedLacks(pair.0, AMPERSAND);
    EncodedLacks(pair.1, AMPERSAND);
    forall i | 0 <= i < |PercentEncoded(pair.0)| ensures BuilderByte(PercentEncoded(pair.0)[i]) {
      EncodedBytes(pair.0, i);
    }
    forall i | 0 <= i < |PercentEncoded(pair.1)| ensures BuilderByte(PercentEncoded(pair.1)[i]) {
      EncodedBytes(pair.1, i);
    }
  }

  lemma {:induction false} JoinedQueryBytes(parts: seq<Text>)
    requires |parts| > 0 && forall p, b :: p in parts && b in p ==> QueryByte(b)
    ensures forall b :: b in Split.Join(parts, AMPERSAND) ==> QueryByte(b)
  {
    if |parts| > 1 {
      JoinedQueryBytes(parts[1..]);
      assert forall b :: b in parts[0] ==> QueryByte(b);
    }
  }

  /** The two sides of the first `sep`, as `str::split_once`. */
  function SplitOnce(s: Text, sep: Byte): (Text, Text) {
    if s == [] then ([], [])
    else if s[0] == sep then ([], s[1..])
    else var (front, back) := SplitOnce(s[1..], sep); ([s[0]] + front, back)
  }

  lemma {:induction false} SplitOnceAt(front: Text, back: Text, sep: Byte)
    requires sep !in front
    ensures SplitOnce(front + [sep] + back, sep) == (front, back)
    decreases |front|
  {
    var s := front + [sep] + back;
    if front == [] {
      assert s[1..] == back;
    } else {
      assert s[1..] == front[1..] + [sep] + back;
      SplitOnceAt(front[1..], back, sep);
      assert front == [front[0]] + front[1..];
    }
  }

  lemma {:induction false} DecodeUndoesEncode(text: Text)
    ensures Decode(PercentEncoded(text), None) == text
    decreases |text|
  {
    if text != [] {
      var s := PercentEncoded(text);
      DecodeUndoesEncode(text[1..]);
      if IsUnreserved(text[0]) {
        assert s[1..] == PercentEncoded(text[1..]);
      } else {
        assert s[3..] == PercentEncoded(text[1..]);
        assert EscapeAhead(s) && EscapedByte(s) == text[0];
      }
    }
  }

  /** How a server reads one `name=value` part. */
  function ReadPair(part: Text): Pair {
    var (name, value) := SplitOnce(part, EQUALS);
    (Decode(name, None), Decode(value, None))
  }

  function ReadPairs(parts: seq<Text>): seq<Pair> {
    if parts == [] then [] else [ReadPair(parts[0])] + ReadPairs(parts[1..])
  }

  function ReadQuery(query: Text): seq<Pair> {
    if query == [] then [] else ReadPairs(Split.Parts(query, AMPERSAND))
  }

  lemma {:induction false} ReadEncodedPairs(pairs: seq<Pair>)
    ensures ReadPairs(EncodedPairs(pairs)) == pairs
  {
    if pairs != [] {
      EncodedLacks(pairs[0].0, EQUALS);
      SplitOnceAt(PercentEncoded(pairs[0].0), PercentEncoded(pairs[0].1), EQUALS);
      DecodeUndoesEncode(pairs[0].0);
      DecodeUndoesEncode(pairs[0].1);
      ReadEncodedPairs(pairs[1..]);
      assert EncodedPairs(pairs)[1..] == EncodedPairs(pairs[1..]);
    }
  }

  lemma EncodedPairsBytes(pairs: seq<Pair>)
    ensures forall p :: p in EncodedPairs(pairs) ==> AMPERSAND !in p && EQUALS in p
    ensures forall p, b :: p in EncodedPairs(pairs) && b in p ==> QueryByte(b)
  {
    var parts := EncodedPairs(pairs);
    forall p | p in parts
      ensures AMPERSAND !in p && EQUALS in p
      ensures forall b :: b in p ==> QueryByte(b)
    {
      var i :| 0 <= i < |parts| && parts[i] == p;
      EncodedPairBytes(pairs[i]);
    }
  }

  lemma QueryBytesAreValid(query: Text)
    requires forall b :: b in query ==> QueryByte(b)
    ensures IsValidQuery(query)
  {
    forall i | 0 <= i < |query| ensures QueryByte(query[i]) { assert query[i] in query; }
  }

  /** `is_valid_query` accepts every built query. */
  lemma QueryIsValid(pairs: seq<Pair>)
    ensures IsValidQuery(QueryOf(pairs))
  {
    if pairs != [] {
      EncodedPairsBytes(pairs);
      JoinedQueryBytes(EncodedPairs(pairs));
      QueryBytesAreValid(QueryOf(pairs));
    }
  }

  /** A server that splits a built query at `&`, then at `=`, and decodes
      recovers exactly the pairs. */
  lemma QueryRoundTrip(pairs: seq<Pair>)
    ensures ReadQuery(QueryOf(pairs)) == pairs
  {
    if pairs != [] {
      var parts := EncodedPairs(pairs);
      EncodedPairsBytes(pairs);
      Split.PartsOfJoin(parts, AMPERSAND);
      ReadEncodedPairs(pairs);
      assert EQUALS in parts[0];
    }
  }

  /** So no two lists of pairs build the same query. */
  lemma QueryIsInjective(a: seq<Pair>, b: seq<Pair>)
    requires QueryOf(a) == QueryOf(b)
    ensures a == b
  {
    QueryRoundTrip(a);
    QueryRoundTrip(b);
  }
}
