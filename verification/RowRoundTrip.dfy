/** A reader of the document gets back exactly what was encoded
    (`crates/krit-database/src/value.rs`). */
module RowRoundTrip {
  import opened Utf8
  import opened Wrappers
  import opened RowJson

  // ----- Strings

  lemma HexRoundTrip(nibble: int)
    requires 0 <= nibble < 16
    ensures HexValue(HexDigit(nibble)) == Some(nibble)
  {
  }

  lemma UnicodeRoundTrip(b: Byte, rest: Text)
    requires b < 0x20
    ensures EscapeAt(UnicodeEscape(b)[1..] + rest) == Some(([b], 5))
  {
    var s := UnicodeEscape(b)[1..] + rest;
    HexRoundTrip(b / 16 % 16);
    HexRoundTrip(b % 16);
    HexRoundTrip(0);
    assert s[1..][..4] == [HexDigit(0), HexDigit(0), HexDigit(b / 16 % 16), HexDigit(b % 16)];
    assert FourHex(s[1..]) == Some(b) by {
      assert s[1..][0] == HexDigit(0) && s[1..][1] == HexDigit(0);
      assert s[1..][2] == HexDigit(b / 16 % 16) && s[1..][3] == HexDigit(b % 16);
    }
  }

  lemma EscapeRoundTrip(b: Byte, rest: Text)
    requires EscapedByte(b)[0] == ESCAPE
    ensures EscapeAt(EscapedByte(b)[1..] + rest) == Some(([b], |EscapedByte(b)| - 1))
  {
    if b < 0x20 && b != 0x0A && b != 0x0D && b != 0x09 {
      UnicodeRoundTrip(b, rest);
    }
  }

  lemma {:induction false} StringRoundTrip(s: Text, rest: Text)
    ensures StringRest(Escaped(s) + [QUOTE] + rest) == Some((s, rest))
    decreases |s|
  {
    var text := Escaped(s) + [QUOTE] + rest;
    if s == [] {
      assert text[1..] == rest;
    } else {
      var tail := Escaped(s[1..]) + [QUOTE] + rest;
      assert text == EscapedByte(s[0]) + tail;
      StringRoundTrip(s[1..], rest);
      ByteRoundTrip(s[0], s[1..], tail, rest);
      assert s == [s[0]] + s[1..];
    }
  }

  /** One byte more in front. */
  lemma ByteRoundTrip(b: Byte, s: Text, tail: Text, rest: Text)
    requires StringRest(tail) == Some((s, rest))
    ensures StringRest(EscapedByte(b) + tail) == Some(([b] + s, rest))
  {
    var head := EscapedByte(b);
    var text := head + tail;
    assert text[1..] == head[1..] + tail && text[|head|..] == tail;
    if head[0] == ESCAPE {
      EscapeRoundTrip(b, tail);
    } else {
      assert head[1..] + tail == tail;
    }
  }

  lemma ReadsString(s: Text, rest: Text)
    ensures ReadString(JsonString(s) + rest) == Some((s, rest))
  {
    var text := JsonString(s) + rest;
    assert text[1..] == Escaped(s) + [QUOTE] + rest;
    StringRoundTrip(s, rest);
  }

  // ----- Integers

  lemma {:induction false} DigitsRoundTrip(n: nat, rest: Text)
    ensures DigitsFrom(DecimalNat(n) + rest, 0) == DigitsFrom(rest, n)
  {
    var text := DecimalNat(n) + rest;
    if n < 10 {
      assert text[1..] == rest;
    } else {
      var tail := [ZERO + n % 10] + rest;
      assert text == DecimalNat(n / 10) + tail;
      DigitsRoundTrip(n / 10, tail);
      assert tail[1..] == rest;
    }
  }

  lemma {:induction false} FirstDigit(n: nat)
    ensures IsDigit(DecimalNat(n)[0]) && (DecimalNat(n)[0] == ZERO <==> n == 0)
  {
    if n >= 10 { FirstDigit(n / 10); }
  }

  lemma ReadsNat(n: nat, rest: Text)
    requires !DigitAhead(rest)
    ensures ReadNat(DecimalNat(n) + rest) == Some((n, rest))
  {
    var text := DecimalNat(n) + rest;
    FirstDigit(n);
    assert text[0] == DecimalNat(n)[0];
    if n == 0 {
      assert text[1..] == rest;
    } else {
      DigitsRoundTrip(n, rest);
    }
  }

  lemma ReadsInt(n: int, rest: Text)
    requires !DigitAhead(rest)
    ensures ReadInt(Decimal(n) + rest) == Some((n, rest))
  {
    var text := Decimal(n) + rest;
    if n < 0 {
      assert text[1..] == DecimalNat(-n) + rest;
      ReadsNat(-n, rest);
    } else {
      FirstDigit(n);
      assert text[0] == DecimalNat(n)[0];
      ReadsNat(n, rest);
    }
  }

  // ----- Values

  /** What may follow an item of a list. */
  predicate Delimited(rest: Text) {
    rest != [] && (rest[0] == COMMA || rest[0] == CLOSE)
  }

  lemma ReadsValue(value: Value, rest: Text)
    requires Representable(value) && Delimited(rest)
    ensures ReadValue(Rendered(value) + rest) == Some((value, rest))
    ensures Rendered(value) != [] && Rendered(value)[0] != CLOSE
  {
    var text := Rendered(value) + rest;
    match value
    case Null =>
      assert NullText() <= text && text[4..] == rest;
    case Integer(n) =>
      ReadsInt(n, rest);
      IntegerFront(n);
      assert text[0] == Decimal(n)[0];
    case TextValue(bytes) =>
      ReadsString(bytes, rest);
      assert text[0] == QUOTE;
  }

  lemma IntegerFront(n: int)
    ensures Decimal(n) != [] && (Decimal(n)[0] == MINUS || IsDigit(Decimal(n)[0]))
  {
    FirstDigit(if n < 0 then -n else n);
  }

  // ----- Lists

  /** `item` reads back what `render` wrote, wherever a list item may stand. */
  ghost predicate Reads<T(!new)>(v: T, render: T -> Text, item: Text -> Parsed<T>) {
    && render(v) != [] && render(v)[0] != CLOSE
    && forall rest :: Delimited(rest) ==> item(render(v) + rest) == Some((v, rest))
  }

  lemma ListedDelimited(items: seq<Text>, from: nat, rest: Text)
    requires 0 < from <= |items|
    ensures Delimited(Listed(items, from) + [CLOSE] + rest)
  {
  }

  lemma {:induction false} MoreItemsRoundTrip<T(!new)>(vs: seq<T>, from: nat, render: T -> Text,
                                                       item: Text -> Parsed<T>,
                                                       rest: Text)
    requires 0 < from <= |vs| && forall i :: 0 <= i < |vs| ==> Reads(vs[i], render, item)
    ensures MoreItems(Listed(Mapped(vs, render), from) + [CLOSE] + rest, item) == Some((vs[from..], rest))
    decreases |vs| - from
  {
    var items := Mapped(vs, render);
    var text := Listed(items, from) + [CLOSE] + rest;
    if from == |vs| {
      assert text[1..] == rest && vs[from..] == [];
    } else {
      var tail := Listed(items, from + 1) + [CLOSE] + rest;
      assert text == [COMMA] + render(vs[from]) + tail;
      assert text[1..] == render(vs[from]) + tail;
      ListedDelimited(items, from + 1, rest);
      assert Reads(vs[from], render, item);
      MoreItemsRoundTrip(vs, from + 1, render, item, rest);
      assert vs[from..] == [vs[from]] + vs[from + 1..];
    }
  }

  lemma ItemsRoundTrip<T(!new)>(vs: seq<T>, render: T -> Text, item: Text -> Parsed<T>, rest: Text)
    requires forall i :: 0 <= i < |vs| ==> Reads(vs[i], render, item)
    ensures Items(Listed(Mapped(vs, render), 0) + [CLOSE] + rest, item) == Some((vs, rest))
  {
    var items := Mapped(vs, render);
    var text := Listed(items, 0) + [CLOSE] + rest;
    if vs == [] {
      assert text[1..] == rest;
    } else {
      var tail := Listed(items, 1) + [CLOSE] + rest;
      assert Reads(vs[0], render, item);
      assert text == render(vs[0]) + tail;
      ListedDelimited(items, 1, rest);
      MoreItemsRoundTrip(vs, 1, render, item, rest);
      assert vs == [vs[0]] + vs[1..];
    }
  }

  // ----- Documents

  predicate AllRepresentable(rows: seq<seq<Value>>) {
    forall i, j :: 0 <= i < |rows| && 0 <= j < |rows[i]| ==> Representable(rows[i][j])
  }

  lemma ReadsRow(row: seq<Value>)
    requires forall j :: 0 <= j < |row| ==> Representable(row[j])
    ensures Reads(row, RowText, ReadRow)
  {
    forall j | 0 <= j < |row| ensures Reads(row[j], Rendered, ReadValue) {
      ReadsValue(row[j], [COMMA]);
      forall rest | Delimited(rest) ensures ReadValue(Rendered(row[j]) + rest) == Some((row[j], rest)) {
        ReadsValue(row[j], rest);
      }
    }
    forall rest | Delimited(rest) ensures ReadRow(RowText(row) + rest) == Some((row, rest)) {
      var text := RowText(row) + rest;
      assert text[1..] == Listed(Mapped(row, Rendered), 0) + [CLOSE] + rest;
      ItemsRoundTrip(row, Rendered, ReadValue, rest);
    }
  }

  lemma ReadsColumn(column: Text)
    ensures Reads(column, JsonString, ReadString)
  {
    forall rest | Delimited(rest) ensures ReadString(JsonString(column) + rest) == Some((column, rest)) {
      ReadsString(column, rest);
    }
  }

  lemma ReadsRows(rows: seq<seq<Value>>)
    requires AllRepresentable(rows)
    ensures ReadRows(Middle()[1..] + Listed(Mapped(rows, RowText), 0) + Terminator()) == Some(rows)
  {
    var list := Listed(Mapped(rows, RowText), 0);
    var text := Middle()[1..] + list + Terminator();
    assert Middle()[1..] <= text;
    assert text[|Middle()| - 1..] == list + [CLOSE] + [0x7D];
    forall i | 0 <= i < |rows| ensures Reads(rows[i], RowText, ReadRow) { ReadsRow(rows[i]); }
    ItemsRoundTrip(rows, RowText, ReadRow, [0x7D]);
  }

  lemma Regrouped(a: Text, b: Text, c: Text, d: Text, e: Text)
    ensures a <= a + b + c + d + e && (a + b + c + d + e)[|a|..] == b + c + d + e
  {
  }

  lemma DocumentShape(columns: seq<Text>, rows: seq<seq<Value>>, afterColumns: Text)
    requires afterColumns == Middle()[1..] + Listed(Mapped(rows, RowText), 0) + Terminator()
    ensures Prologue() <= Document(columns, rows)
    ensures Document(columns, rows)[|Prologue()|..] ==
            Listed(Mapped(columns, JsonString), 0) + [CLOSE] + afterColumns
  {
    var names, list := Listed(Mapped(columns, JsonString), 0), Listed(Mapped(rows, RowText), 0);
    Regrouped(Prologue(), names, Middle(), list, Terminator());
    SplitHead(names, Middle(), list, Terminator());
    assert Middle()[0] == CLOSE;
  }

  lemma SplitHead(a: Text, b: Text, c: Text, d: Text)
    requires b != []
    ensures a + b + c + d == a + [b[0]] + (b[1..] + c + d)
  {
  }

  /** The document determines its columns and rows: reading it back gives
      exactly them, every `i64` and every string included. */
  lemma DocumentRoundTrip(columns: seq<Text>, rows: seq<seq<Value>>)
    requires AllRepresentable(rows)
    ensures ReadDocument(Document(columns, rows)) == Some((columns, rows))
  {
    var afterColumns := Middle()[1..] + Listed(Mapped(rows, RowText), 0) + Terminator();
    DocumentShape(columns, rows, afterColumns);
    forall i | 0 <= i < |columns| ensures Reads(columns[i], JsonString, ReadString) { ReadsColumn(columns[i]); }
    ItemsRoundTrip(columns, JsonString, ReadString, afterColumns);
    ReadsRows(rows);
  }
}
