/** The incremental, budgeted encoder of query results
    (`crates/krit-database/src/value.rs`). */
module RowEncoder {
  import opened Utf8
  import opened Wrappers
  import opened RowJson

  const MAX_RESULT_BYTES := 256 * 1024
  const TERMINATOR_BYTES := 2

  datatype EncodeError =
    | TooManyRows | OverBudget | InvalidUtf8 | RealValue | BlobValue | ColumnCount | MissingColumn
    | InsideRow

  // ----- Rendering one value without allocating

  ghost function Pow10(k: nat): nat {
    if k == 0 then 1 else 10 * Pow10(k - 1)
  }

  lemma {:induction false} DecimalLength(n: nat, k: nat)
    requires 0 < k && n < Pow10(k)
    ensures 0 < |DecimalNat(n)| <= k
  {
    if n >= 10 {
      assert k > 1 by { assert Pow10(1) == 10; }
      DecimalLength(n / 10, k - 1);
    }
  }

  lemma NineteenDigits()
    ensures Pow10(19) == 10_000_000_000_000_000_000
  {
    assert Pow10(3) == 1_000;
    assert Pow10(6) == 1_000_000;
    assert Pow10(9) == 1_000_000_000;
    assert Pow10(12) == 1_000_000_000_000;
    assert Pow10(15) == 1_000_000_000_000_000;
    assert Pow10(18) == 1_000_000_000_000_000_000;
  }

  function Reversed(s: Text): Text {
    if s == [] then [] else Reversed(s[1..]) + [s[0]]
  }

  lemma {:induction false} ReversedSnoc(s: Text, b: Byte)
    ensures Reversed(s + [b]) == [b] + Reversed(s)
  {
    if s != [] {
      assert (s + [b])[1..] == s[1..] + [b];
      ReversedSnoc(s[1..], b);
    }
  }

  /** The last digit moves from the number to the digits taken so far. */
  lemma OneMoreDigit(whole: Text, magnitude: nat, done: Text)
    requires whole == DecimalNat(magnitude) + Reversed(done)
    ensures var digit: Byte := ZERO + magnitude % 10;
            if magnitude < 10 then whole == Reversed(done + [digit])
            else
              && whole == DecimalNat(magnitude / 10) + Reversed(done + [digit])
              && |DecimalNat(magnitude)| == |DecimalNat(magnitude / 10)| + 1 && |DecimalNat(magnitude / 10)| >= 1
  {
    var digit: Byte := ZERO + magnitude % 10;
    ReversedSnoc(done, digit);
    if magnitude >= 10 {
      Regroup(DecimalNat(magnitude / 10), [digit], Reversed(done));
    }
  }

  lemma Regroup(a: Text, b: Text, c: Text)
    ensures (a + b) + c == a + (b + c) && |a + b| == |a| + |b|
  {
  }

  /** `Digits::from_i64`: divides into a scratch buffer, then copies it back
      reversed.  The fixed capacity always suffices, so no byte is dropped. */
  method DigitsFromI64(value: I64) returns (text: Text)
    ensures text == Decimal(value)
  {
    var number: int := value;
    var magnitude: nat := if number < 0 then -number else number;
    NineteenDigits();
    DecimalLength(magnitude, 19);
    var scratch := new Byte[20](_ => 0);
    var length := TakeDigits(magnitude, scratch);
    text := CopyReversed(value < 0, scratch, length);
  }

  /** The division loop: the digits of the number, last one first. */
  method TakeDigits(number: nat, scratch: array<Byte>) returns (length: nat)
    requires scratch.Length == 20 && |DecimalNat(number)| <= 19
    modifies scratch
    ensures 1 <= length <= 19 && DecimalNat(number) == Reversed(scratch[..length])
  {
    ghost var whole := DecimalNat(number);
    var magnitude := number;
    length := 0;
    while true
      invariant 0 <= length <= 18 && |DecimalNat(magnitude)| + length == |whole|
      invariant whole == DecimalNat(magnitude) + Reversed(scratch[..length])
      decreases magnitude
    {
      ghost var done := scratch[..length];
      OneMoreDigit(whole, magnitude, done);
      var digit: Byte := ZERO + magnitude % 10;
      scratch[length] := digit;
      assert scratch[..length + 1] == done + [digit];
      length := length + 1;
      magnitude := magnitude / 10;
      if magnitude == 0 {
        break;
      }
    }
  }

  /** Pushes the sign and then the digits into the twenty bytes. */
  method CopyReversed(negative: bool, scratch: array<Byte>, count: nat) returns (text: Text)
    requires count <= 19 && scratch.Length == 20
    ensures text == (if negative then [MINUS] else []) + Reversed(scratch[..count])
  {
    var bytes := new Byte[20](_ => 0);
    var used := 0;
    if negative {
      bytes[0] := MINUS;
      used := 1;
    }
    var length := count;
    ghost var sign: Text := if negative then [MINUS] else [];
    assert bytes[..used] == sign;
    while length > 0
      invariant 0 <= length <= count && used == |sign| + count - length
      invariant bytes[..used] + Reversed(scratch[..length]) == sign + Reversed(scratch[..count])
    {
      length := length - 1;
      assert scratch[..length + 1] == scratch[..length] + [scratch[length]];
      ReversedSnoc(scratch[..length], scratch[length]);
      ghost var before := bytes[..used];
      if used < bytes.Length {
        bytes[used] := scratch[length];
        used := used + 1;
      }
      assert bytes[..used] == before + [scratch[length]];
    }
    text := bytes[..used];
  }

  /** `unicode_escape`: six ASCII bytes in a fixed buffer. */
  method WriteUnicodeEscape(code: nat, buffer: array<Byte>) returns (text: Text)
    requires buffer.Length == 6
    modifies buffer
    ensures text == UnicodeEscape(code)
  {
    buffer[0] := ESCAPE;
    buffer[1] := 0x75;
    buffer[2] := HexDigit(code / 4096 % 16);
    buffer[3] := HexDigit(code / 256 % 16);
    buffer[4] := HexDigit(code / 16 % 16);
    buffer[5] := HexDigit(code % 16);
    text := buffer[..];
  }

  lemma {:induction false} EscapedConcat(a: Text, b: Text)
    ensures Escaped(a + b) == Escaped(a) + Escaped(b)
  {
    if a == [] {
      assert a + b == b;
    } else {
      assert (a + b)[1..] == a[1..] + b;
      EscapedConcat(a[1..], b);
    }
  }

  /** A multibyte character is written as it is. */
  lemma {:induction false} EscapedPlain(s: Text)
    requires forall i :: 0 <= i < |s| ==> s[i] >= 0x80
    ensures Escaped(s) == s
  {
    if s != [] {
      EscapedPlain(s[1..]);
      assert s == [s[0]] + s[1..];
    }
  }

  lemma EscapedCharacter(s: Text)
    requires s != [] && HeadLength(s) == |s|
    ensures Escaped(s) == if s[0] < 0x80 then EscapedByte(s[0]) else s
  {
    if s[0] < 0x80 {
      assert s[1..] == [];
    } else {
      EscapedPlain(s);
    }
  }

  // ----- The encoder

  class RowEncoder {
    var buffer: Text
    const budget: nat
    const columns: nat
    var rows: nat
    const maxRows: nat
    var rowOpen: bool
    var valuesInRow: nat

    /** The buffer never outgrows the budget, and keeps room to terminate. */
    predicate Valid()
      reads this
    {
      buffer != [] ==> |buffer| + TERMINATOR_BYTES <= budget
    }

    constructor (columns: nat, maxBytes: nat, maxRows: nat)
      ensures Valid() && buffer == [] && this.columns == columns && this.maxRows == maxRows
      ensures budget == Budget(maxBytes)
      ensures rows == 0 && !rowOpen && valuesInRow == 0
    {
      buffer := [];
      budget := if maxBytes <= MAX_RESULT_BYTES then maxBytes else MAX_RESULT_BYTES;
      this.columns, this.maxRows := columns, maxRows;
      rows, rowOpen, valuesInRow := 0, false, 0;
    }

    predicate Fits(additional: nat)
      reads this
    {
      |buffer| + additional + TERMINATOR_BYTES <= budget
    }

    /** Appends all of `text` or, over budget, nothing. */
    method PushLiteral(text: Text) returns (error: Option<EncodeError>)
      requires Valid()
      modifies this`buffer
      ensures Valid() && (error.None? <==> old(Fits(|text|)))
      ensures buffer == if error.None? then old(buffer) + text else old(buffer)
    {
      if |buffer| + |text| + TERMINATOR_BYTES > budget {
        return Some(OverBudget);
      }
      buffer := buffer + text;
      return None;
    }

    /** Appends one escaped character. */
    method PushCharacter(character: Text) returns (error: Option<EncodeError>)
      requires Valid() && character != [] && HeadLength(character) == |character|
      modifies this`buffer
      ensures Valid() && (error.None? <==> old(Fits(|Escaped(character)|)))
      ensures buffer == if error.None? then old(buffer) + Escaped(character) else old(buffer)
    {
      EscapedCharacter(character);
      var b := character[0];
      if b == QUOTE {
        error := PushLiteral([ESCAPE, QUOTE]);
      } else if b == ESCAPE {
        error := PushLiteral([ESCAPE, ESCAPE]);
      } else if b == 0x0A {
        error := PushLiteral([ESCAPE, 0x6E]);
      } else if b == 0x0D {
        error := PushLiteral([ESCAPE, 0x72]);
      } else if b == 0x09 {
        error := PushLiteral([ESCAPE, 0x74]);
      } else if b < 0x20 {
        var escape := new Byte[6](_ => 0);
        var encoded := WriteUnicodeEscape(b, escape);
        error := PushLiteral(encoded);
      } else {
        error := PushLiteral(character);
      }
    }

    /** Appends the characters of a string, checking the budget before each. */
    method PushEscaped(value: Text) returns (error: Option<EncodeError>)
      requires Valid() && WellFormed(value) && buffer != []
      modifies this`buffer
      ensures Valid() && buffer != [] && (error.None? <==> old(Fits(|Escaped(value)|)))
      ensures error.None? ==> buffer == old(buffer) + Escaped(value)
    {
      error := None;
      var rest := value;
      ghost var whole := buffer + Escaped(value);
      while rest != []
        invariant WellFormed(rest) && Valid() && error.None?
        invariant buffer != [] && buffer + Escaped(rest) == whole
        decreases |rest|
      {
        var n := HeadLength(rest);
        var character, tail := rest[..n], rest[n..];
        EscapedFront(rest, n);
        assert whole == buffer + Escaped(character) + Escaped(tail);
        error := PushCharacter(character);
        if error.Some? {
          return;
        }
        rest := tail;
      }
    }

    /** Appends one JSON string. */
    method PushJsonString(value: Text) returns (error: Option<EncodeError>)
      requires Valid() && WellFormed(value)
      modifies this`buffer
      ensures Valid() && (error.None? <==> old(Fits(|JsonString(value)|)))
      ensures error.None? ==> buffer == old(buffer) + JsonString(value)
    {
      error := PushLiteral([QUOTE]);
      if error.Some? {
        return;
      }
      error := PushEscaped(value);
      if error.Some? {
        return;
      }
      error := PushLiteral([QUOTE]);
      assert old(buffer) + [QUOTE] + Escaped(value) + [QUOTE] == old(buffer) + JsonString(value);
    }

    /** Appends one column name, after a comma unless it is the first. */
    method PushName(name: Text, later: bool) returns (error: Option<EncodeError>)
      requires Valid() && WellFormed(name)
      modifies this`buffer
      ensures Valid()
      ensures var separator := if later then [COMMA] else [];
              && (error.None? <==> old(Fits(|separator| + |JsonString(name)|)))
              && (error.None? ==> buffer == old(buffer) + separator + JsonString(name))
    {
      if later {
        error := PushLiteral([COMMA]);
        if error.Some? {
          return;
        }
      }
      error := PushJsonString(name);
    }

    /** What separates a row from the one before it. */
    function RowSeparator(): Text
      reads this
    {
      if rows > 0 then [COMMA] else []
    }

    function ValueSeparator(): Text
      reads this
    {
      if valuesInRow > 0 then [COMMA] else []
    }

    method BeginRow() returns (error: Option<EncodeError>)
      requires Valid()
      modifies this
      ensures Valid() && rows == old(rows)
      ensures error.None? <==> old(rows) < maxRows && old(Fits(|RowSeparator()| + 1))
      ensures error.None? ==> buffer == old(buffer) + old(RowSeparator()) + [OPEN] && rowOpen && valuesInRow == 0
    {
      if rows >= maxRows {
        return Some(TooManyRows);
      }
      if rows > 0 {
        error := PushLiteral([COMMA]);
        if error.Some? {
          return;
        }
      }
      error := PushLiteral([OPEN]);
      if error.Some? {
        return;
      }
      rowOpen := true;
      valuesInRow := 0;
    }

    method PushColumn(value: Value) returns (error: Option<EncodeError>)
      requires Valid()
      modifies this`buffer, this`valuesInRow
      ensures Valid()
      ensures error.None? <==> Representable(value) && old(Fits(|ValueSeparator()| + |Rendered(value)|))
      ensures error.None? ==>
                && buffer == old(buffer) + old(ValueSeparator()) + Rendered(value)
                && valuesInRow == old(valuesInRow) + 1
    {
      if valuesInRow > 0 {
        error := PushLiteral([COMMA]);
        if error.Some? {
          return;
        }
      }
      valuesInRow := valuesInRow + 1;
      error := PushValue(value);
    }

    /** The value alone. */
    method PushValue(value: Value) returns (error: Option<EncodeError>)
      requires Valid()
      modifies this`buffer
      ensures Valid() && (error.None? <==> Representable(value) && old(Fits(|Rendered(value)|)))
      ensures error.None? ==> buffer == old(buffer) + Rendered(value)
    {
      match value {
        case Null => error := PushLiteral(NullText());
        case Integer(number) =>
          var digits := DigitsFromI64(number);
          error := PushLiteral(digits);
        case TextValue(bytes) =>
          if !WellFormed(bytes) {
            return Some(InvalidUtf8);
          }
          error := PushJsonString(bytes);
        case Real => error := Some(RealValue);
        case Blob => error := Some(BlobValue);
      }
    }

    method EndRow() returns (error: Option<EncodeError>)
      requires Valid()
      modifies this
      ensures Valid()
      ensures error.None? <==> old(valuesInRow) == columns && old(Fits(1))
      ensures error.None? ==> buffer == old(buffer) + [CLOSE] && !rowOpen && rows == old(rows) + 1
    {
      if valuesInRow != columns {
        return Some(ColumnCount);
      }
      error := PushLiteral([CLOSE]);
      if error.Some? {
        return;
      }
      rowOpen := false;
      rows := rows + 1;
    }

    method Finish() returns (document: Result<Text, EncodeError>)
      requires Valid() && buffer != []
      ensures document == if rowOpen then Err(InsideRow) else Ok(buffer + Terminator())
      ensures document.Ok? ==> |document.value| <= budget
    {
      if rowOpen {
        return Err(InsideRow);
      }
      return Ok(buffer + Terminator());
    }
  }

  // ----- Encoding a whole result

  /** What the query loop reads of a row: the declared columns, and nothing of
      what a wider row holds after them. */
  function Declared(row: seq<Value>, columns: nat): seq<Value> {
    if |row| <= columns then row else row[..columns]
  }

  function DeclaredRows(rows: seq<seq<Value>>, columns: nat): (declared: seq<seq<Value>>)
    ensures |declared| == |rows|
  {
    seq(|rows|, i requires 0 <= i < |rows| => Declared(rows[i], columns))
  }

  /** Every declared column is there and its value has a JSON form. */
  predicate RowOk(row: seq<Value>, columns: nat) {
    columns <= |row| && forall j :: 0 <= j < columns ==> Representable(row[j])
  }

  lemma ListedStep(front: Text, items: seq<Text>, from: nat, separator: Text)
    requires from < |items| && separator == if from > 0 then [COMMA] else []
    ensures front + Listed(items, from) == front + separator + items[from] + Listed(items, from + 1)
  {
    assert Listed(items, from) == separator + items[from] + Listed(items, from + 1);
  }

  /** The declared values of a row, as the document lists them. */
  function ValuesText(row: seq<Value>, columns: nat): Text {
    Listed(Mapped(Declared(row, columns), Rendered), 0)
  }

  /** The first `j` values are in the buffer; `whole` is what it grows into. */
  ghost predicate Pushed(encoder: RowEncoder, row: seq<Value>, j: nat, whole: Text)
    reads encoder
  {
    && encoder.Valid() && encoder.buffer != [] && encoder.valuesInRow == j
    && j <= |Declared(row, encoder.columns)|
    && encoder.buffer + Listed(Mapped(Declared(row, encoder.columns), Rendered), j) == whole
    && forall k :: 0 <= k < j ==> Representable(row[k])
  }

  /** The values of one row, as the query loop pushes them. */
  method EncodeValues(encoder: RowEncoder, row: seq<Value>) returns (error: Option<EncodeError>)
    requires encoder.Valid() && encoder.valuesInRow == 0 && encoder.buffer != []
    modifies encoder`buffer, encoder`valuesInRow
    ensures encoder.Valid()
    ensures error.None? <==>
            RowOk(row, encoder.columns) && old(encoder.Fits(|ValuesText(row, encoder.columns)|))
    ensures error.None? ==>
              && encoder.buffer == old(encoder.buffer) + ValuesText(row, encoder.columns)
              && encoder.valuesInRow == encoder.columns
  {
    error := None;
    ghost var whole := encoder.buffer + ValuesText(row, encoder.columns);
    for j := 0 to encoder.columns
      invariant error.None? && Pushed(encoder, row, j, whole)
    {
      if j >= |row| {
        return Some(MissingColumn);
      }
      error := EncodeNextValue(encoder, row, j, whole);
      if error.Some? {
        return;
      }
    }
    assert encoder.buffer + [] == encoder.buffer;
  }

  /** One turn of that loop. */
  method EncodeNextValue(encoder: RowEncoder, row: seq<Value>, j: nat, ghost whole: Text)
    returns (error: Option<EncodeError>)
    requires j < encoder.columns && j < |row| && Pushed(encoder, row, j, whole)
    modifies encoder`buffer, encoder`valuesInRow
    ensures encoder.Valid() && (error.None? ==> Pushed(encoder, row, j + 1, whole))
    ensures error.Some? ==> !Representable(row[j]) || |whole| + TERMINATOR_BYTES > encoder.budget
  {
    ghost var values, separator := Mapped(Declared(row, encoder.columns), Rendered), encoder.ValueSeparator();
    ListedStep(encoder.buffer, values, j, separator);
    assert whole == encoder.buffer + separator + Rendered(row[j]) + Listed(values, j + 1);
    error := encoder.PushColumn(row[j]);
  }

  /** One whole row. */
  method EncodeRow(encoder: RowEncoder, row: seq<Value>) returns (error: Option<EncodeError>)
    requires encoder.Valid()
    modifies encoder
    ensures encoder.Valid()
    ensures error.None? <==>
            && old(encoder.rows) < encoder.maxRows && RowOk(row, encoder.columns)
            && old(encoder.Fits(|encoder.RowSeparator()| + |RowText(Declared(row, encoder.columns))|))
    ensures error.None? ==>
              && encoder.buffer ==
                   old(encoder.buffer) + old(encoder.RowSeparator()) + RowText(Declared(row, encoder.columns))
              && encoder.rows == old(encoder.rows) + 1 && !encoder.rowOpen
  {
    ghost var front, values := encoder.buffer + encoder.RowSeparator(), ValuesText(row, encoder.columns);
    assert RowText(Declared(row, encoder.columns)) == [OPEN] + values + [CLOSE];
    assert front + [OPEN] + values + [CLOSE] == front + ([OPEN] + values + [CLOSE]);
    error := encoder.BeginRow();
    if error.Some? {
      return;
    }
    error := EncodeValues(encoder, row);
    if error.Some? {
      return;
    }
    error := encoder.EndRow();
  }

  /** The document up to the first row. */
  function Head(columns: seq<Text>): Text {
    Prologue() + Listed(Mapped(columns, JsonString), 0) + Middle()
  }

  /** The column names, as `RowEncoder::new` pushes them. */
  method EncodeColumns(encoder: RowEncoder, columns: seq<Text>) returns (error: Option<EncodeError>)
    requires encoder.Valid() && encoder.buffer != [] && forall i :: 0 <= i < |columns| ==> WellFormed(columns[i])
    modifies encoder`buffer
    ensures encoder.Valid()
    ensures error.None? <==> old(encoder.Fits(|Listed(Mapped(columns, JsonString), 0)|))
    ensures error.None? ==> encoder.buffer == old(encoder.buffer) + Listed(Mapped(columns, JsonString), 0)
  {
    error := None;
    ghost var names := Mapped(columns, JsonString);
    ghost var whole := encoder.buffer + Listed(names, 0);
    for index := 0 to |columns|
      invariant encoder.Valid() && encoder.buffer != [] && error.None?
      invariant encoder.buffer + Listed(names, index) == whole
    {
      ListedStep(encoder.buffer, names, index, if index > 0 then [COMMA] else []);
      error := encoder.PushName(columns[index], index > 0);
      if error.Some? {
        return;
      }
    }
  }

  /** `RowEncoder::new`. */
  method OpenEncoder(columns: seq<Text>, maxBytes: nat, maxRows: nat)
    returns (encoder: RowEncoder, error: Option<EncodeError>)
    requires forall i :: 0 <= i < |columns| ==> WellFormed(columns[i])
    ensures fresh(encoder) && encoder.Valid() && encoder.columns == |columns| && encoder.maxRows == maxRows
    ensures encoder.budget == Budget(maxBytes) && encoder.rows == 0 && !encoder.rowOpen
    ensures error.None? <==> |Head(columns)| + TERMINATOR_BYTES <= encoder.budget
    ensures error.None? ==> encoder.buffer == Head(columns)
  {
    encoder := new RowEncoder(|columns|, maxBytes, maxRows);
    error := encoder.PushLiteral(Prologue());
    if error.Some? {
      return;
    }
    assert encoder.buffer == Prologue();
    error := EncodeColumns(encoder, columns);
    if error.Some? {
      return;
    }
    error := encoder.PushLiteral(Middle());
  }

  function Budget(maxBytes: nat): nat {
    if maxBytes <= MAX_RESULT_BYTES then maxBytes else MAX_RESULT_BYTES
  }

  predicate RowsOk(rows: seq<seq<Value>>, columns: nat) {
    forall i :: 0 <= i < |rows| ==> RowOk(rows[i], columns)
  }

  /** The rows as the document lists them. */
  function RowTexts(rows: seq<seq<Value>>, columns: nat): (texts: seq<Text>)
    ensures |texts| == |rows|
  {
    Mapped(DeclaredRows(rows, columns), RowText)
  }

  method EncodeRows(encoder: RowEncoder, rows: seq<seq<Value>>) returns (error: Option<EncodeError>)
    requires encoder.Valid() && encoder.buffer != [] && encoder.rows == 0 && !encoder.rowOpen
    modifies encoder
    ensures encoder.Valid()
    ensures error.None? <==>
            && |rows| <= encoder.maxRows && RowsOk(rows, encoder.columns)
            && old(encoder.Fits(|Listed(RowTexts(rows, encoder.columns), 0)|))
    ensures error.None? ==>
              && encoder.buffer == old(encoder.buffer) + Listed(RowTexts(rows, encoder.columns), 0)
              && !encoder.rowOpen
  {
    ghost var at;
    error, at := EncodeEachRow(encoder, rows, encoder.buffer + Listed(RowTexts(rows, encoder.columns), 0));
  }

  /** The loop over the rows.  On a failure `at` is the row that is one too
      many, is not legal, or shows that the whole does not fit. */
  method EncodeEachRow(encoder: RowEncoder, rows: seq<seq<Value>>, ghost whole: Text)
    returns (error: Option<EncodeError>, ghost at: nat)
    requires encoder.Valid() && encoder.buffer != [] && encoder.rows == 0 && !encoder.rowOpen
    requires whole == encoder.buffer + Listed(RowTexts(rows, encoder.columns), 0)
    modifies encoder
    ensures encoder.Valid()
    ensures error.None? ==>
              encoder.buffer == whole && !encoder.rowOpen && |rows| <= encoder.maxRows && RowsOk(rows, encoder.columns)
    ensures error.Some? ==>
              && at < |rows|
              && (at >= encoder.maxRows || !RowOk(rows[at], encoder.columns)
                  || |whole| + TERMINATOR_BYTES > encoder.budget)
  {
    error, at := None, 0;
    for i := 0 to |rows|
      invariant error.None? && Encoded(encoder, rows, i, whole)
    {
      at := i;
      error := EncodeNextRow(encoder, rows, i, whole);
      if error.Some? {
        return;
      }
    }
    AllEncoded(encoder, rows, whole);
  }

  /** The first `i` rows are in the buffer; `whole` is what it grows into. */
  ghost predicate Encoded(encoder: RowEncoder, rows: seq<seq<Value>>, i: nat, whole: Text)
    reads encoder
  {
    && encoder.Valid() && encoder.buffer != [] && encoder.rows == i && !encoder.rowOpen
    && i <= |rows| && encoder.buffer + Listed(RowTexts(rows, encoder.columns), i) == whole
    && i <= encoder.maxRows && RowsOk(rows[..i], encoder.columns)
  }

  lemma AllEncoded(encoder: RowEncoder, rows: seq<seq<Value>>, whole: Text)
    requires Encoded(encoder, rows, |rows|, whole)
    ensures encoder.Valid() && encoder.buffer == whole && !encoder.rowOpen
    ensures |rows| <= encoder.maxRows && RowsOk(rows, encoder.columns)
  {
    assert rows[..|rows|] == rows;
    assert encoder.buffer + [] == encoder.buffer;
  }

  lemma OneMoreRow(rows: seq<seq<Value>>, i: nat, columns: nat)
    requires i < |rows| && RowsOk(rows[..i], columns) && RowOk(rows[i], columns)
    ensures RowsOk(rows[..i + 1], columns)
  {
    assert rows[..i + 1] == rows[..i] + [rows[i]];
  }

  /** One turn of that loop. */
  method EncodeNextRow(encoder: RowEncoder, rows: seq<seq<Value>>, i: nat, ghost whole: Text)
    returns (error: Option<EncodeError>)
    requires i < |rows| && Encoded(encoder, rows, i, whole)
    modifies encoder
    ensures encoder.Valid() && (error.None? ==> Encoded(encoder, rows, i + 1, whole))
    ensures error.Some? ==>
              || i >= encoder.maxRows || !RowOk(rows[i], encoder.columns)
              || |whole| + TERMINATOR_BYTES > encoder.budget
  {
    ghost var texts, separator := RowTexts(rows, encoder.columns), encoder.RowSeparator();
    ghost var text, rest := RowText(Declared(rows[i], encoder.columns)), Listed(texts, i + 1);
    ListedStep(encoder.buffer, texts, i, separator);
    assert whole == encoder.buffer + separator + text + rest;
    error := EncodeRow(encoder, rows[i]);
    if error.None? {
      OneMoreRow(rows, i, encoder.columns);
    }
  }

  /** A whole result: it succeeds exactly when every row has the declared
      columns with representable values, the rows are within their bound and
      nothing of the document is cut off by the budget; the result is then the
      document of the declared columns. */
  method Encode(columns: seq<Text>, rows: seq<seq<Value>>, maxBytes: nat, maxRows: nat)
    returns (document: Result<Text, EncodeError>)
    requires forall i :: 0 <= i < |columns| ==> WellFormed(columns[i])
    ensures document.Ok? <==>
            && |rows| <= maxRows && RowsOk(rows, |columns|)
            && |Document(columns, DeclaredRows(rows, |columns|))| <= Budget(maxBytes)
    ensures document.Ok? ==> document.value == Document(columns, DeclaredRows(rows, |columns|))
  {
    ghost var declared := DeclaredRows(rows, |columns|);
    assert Body(columns, declared) == Head(columns) + Listed(RowTexts(rows, |columns|), 0);
    var encoder, error := OpenEncoder(columns, maxBytes, maxRows);
    if error.Some? {
      return Err(error.value);
    }
    error := EncodeRows(encoder, rows);
    if error.Some? {
      return Err(error.value);
    }
    document := encoder.Finish();
  }

  lemma EscapedFront(s: Text, n: nat)
    requires s != [] && n == HeadLength(s) > 0
    ensures s[..n] != [] && HeadLength(s[..n]) == n
    ensures Escaped(s) == Escaped(s[..n]) + Escaped(s[n..])
  {
    assert s == s[..n] + s[n..];
    EscapedConcat(s[..n], s[n..]);
  }
}
