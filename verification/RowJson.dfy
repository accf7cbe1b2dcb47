/** The result document, and a JSON reader for it; the reader's strings are those
    of section 7 of RFC 8259
    (`crates/krit-database/src/value.rs`). */
module RowJson {
  import opened Utf8
  import opened Wrappers

  const QUOTE: Byte := 0x22
  const COMMA: Byte := 0x2C
  const MINUS: Byte := 0x2D
  const ZERO: Byte := 0x30
  const OPEN: Byte := 0x5B
  const ESCAPE: Byte := 0x5C
  const CLOSE: Byte := 0x5D

  type I64 = n: int | -0x8000_0000_0000_0000 <= n <= 0x7FFF_FFFF_FFFF_FFFF

  /** A SQLite column value. */
  datatype Value = Null | Integer(number: I64) | TextValue(bytes: Text) | Real | Blob

  predicate Representable(value: Value) {
    value.Null? || value.Integer? || (value.TextValue? && WellFormed(value.bytes))
  }

  // ----- The document

  /** `0123456789abcdef` */
  function HexDigit(nibble: int): Byte
    requires 0 <= nibble < 16
  {
    if nibble < 10 then ZERO + nibble else 0x61 + nibble - 10
  }

  /** `\u` and four hex digits. */
  function UnicodeEscape(code: nat): Text {
    [ESCAPE, 0x75, HexDigit(code / 4096 % 16), HexDigit(code / 256 % 16), HexDigit(code / 16 % 16), HexDigit(code % 16)]
  }

  function EscapedByte(b: Byte): Text {
    if b == QUOTE then [ESCAPE, QUOTE]
    else if b == ESCAPE then [ESCAPE, ESCAPE]
    else if b == 0x0A then [ESCAPE, 0x6E]
    else if b == 0x0D then [ESCAPE, 0x72]
    else if b == 0x09 then [ESCAPE, 0x74]
    else if b < 0x20 then UnicodeEscape(b)
    else [b]
  }

  function Escaped(s: Text): Text {
    if s == [] then [] else EscapedByte(s[0]) + Escaped(s[1..])
  }

  function JsonString(s: Text): Text {
    [QUOTE] + Escaped(s) + [QUOTE]
  }

  function DecimalNat(n: nat): Text {
    if n < 10 then [ZERO + n] else DecimalNat(n / 10) + [ZERO + n % 10]
  }

  function Decimal(n: int): Text {
    if n < 0 then [MINUS] + DecimalNat(-n) else DecimalNat(n)
  }

  function NullText(): Text { [0x6E, 0x75, 0x6C, 0x6C] }

  function Rendered(value: Value): Text {
    match value
    case Null => NullText()
    case Integer(n) => Decimal(n)
    case TextValue(bytes) => JsonString(bytes)
    case Real => []
    case Blob => []
  }

  /** The items from `from` on, each after a comma unless it is the first. */
  function Listed(items: seq<Text>, from: nat): Text
    requires from <= |items|
    decreases |items| - from
  {
    if from == |items| then []
    else (if from > 0 then [COMMA] else []) + items[from] + Listed(items, from + 1)
  }

  function Mapped<T>(items: seq<T>, render: T -> Text): (texts: seq<Text>)
    ensures |texts| == |items|
    ensures forall i :: 0 <= i < |items| ==> texts[i] == render(items[i])
  {
    seq(|items|, i requires 0 <= i < |items| => render(items[i]))
  }

  function RowText(row: seq<Value>): Text {
    [OPEN] + Listed(Mapped(row, Rendered), 0) + [CLOSE]
  }

  /** `{"columns":[` */
  function Prologue(): Text { [0x7B, QUOTE, 0x63, 0x6F, 0x6C, 0x75, 0x6D, 0x6E, 0x73, QUOTE, 0x3A, OPEN] }

  /** `],"rows":[` */
  function Middle(): Text { [CLOSE, COMMA, QUOTE, 0x72, 0x6F, 0x77, 0x73, QUOTE, 0x3A, OPEN] }

  /** `]}` */
  function Terminator(): Text { [CLOSE, 0x7D] }

  /** Everything before the terminator. */
  function Body(columns: seq<Text>, rows: seq<seq<Value>>): Text {
    Prologue() + Listed(Mapped(columns, JsonString), 0) + Middle() + Listed(Mapped(rows, RowText), 0)
  }

  function Document(columns: seq<Text>, rows: seq<seq<Value>>): Text {
    Body(columns, rows) + Terminator()
  }

  // ----- An independent reader

  type Parsed<T> = Option<(T, Text)>

  function HexValue(b: Byte): Option<nat> {
    if 0x30 <= b <= 0x39 then Some(b - 0x30)
    else if 0x61 <= b <= 0x66 then Some(b - 0x61 + 10)
    else if 0x41 <= b <= 0x46 then Some(b - 0x41 + 10)
    else None
  }

  /** The four hex digits `s` begins with. */
  function FourHex(s: Text): Option<nat> {
    if |s| < 4 || HexValue(s[0]).None? || HexValue(s[1]).None? || HexValue(s[2]).None? || HexValue(s[3]).None? then None
    else Some(HexValue(s[0]).value * 4096 + HexValue(s[1]).value * 256 + HexValue(s[2]).value * 16 +
              HexValue(s[3]).value)
  }

  /** A Unicode scalar value in UTF-8 (section 3 of RFC 3629). */
  function EncodeScalar(code: nat): Text
    requires code < 0x110000
  {
    if code < 0x80 then [code]
    else if code < 0x800 then [0xC0 + code / 64, 0x80 + code % 64]
    else if code < 0x10000 then [0xE0 + code / 4096, 0x80 + code / 64 % 64, 0x80 + code % 64]
    else [0xF0 + code / 262144, 0x80 + code / 4096 % 64, 0x80 + code / 64 % 64, 0x80 + code % 64]
  }

  /** The character a `\u` escape names, and the bytes it takes after the `u`. */
  function UnicodeAt(s: Text): Option<(Text, nat)> {
    match FourHex(s)
    case None => None
    case Some(code) =>
      if code >= 0x10000 then None
      else if !(0xD800 <= code < 0xE000) then Some((EncodeScalar(code), 4))
      else if code >= 0xDC00 || |s| < 10 || s[4] != ESCAPE || s[5] != 0x75 then None
      else
        match FourHex(s[6..])
        case None => None
        case Some(low) =>
          if !(0xDC00 <= low < 0xE000) then None
          else Some((EncodeScalar(0x10000 + (code - 0xD800) * 0x400 + (low - 0xDC00)), 10))
  }

  /** The character after a backslash, and the bytes it takes. */
  function EscapeAt(s: Text): (r: Option<(Text, nat)>)
    ensures r.Some? ==> 1 <= r.value.1 <= |s|
  {
    if s == [] then None
    else if s[0] == QUOTE || s[0] == ESCAPE || s[0] == 0x2F then Some(([s[0]], 1))
    else if s[0] == 0x62 then Some(([0x08], 1))
    else if s[0] == 0x66 then Some(([0x0C], 1))
    else if s[0] == 0x6E then Some(([0x0A], 1))
    else if s[0] == 0x72 then Some(([0x0D], 1))
    else if s[0] == 0x74 then Some(([0x09], 1))
    else if s[0] != 0x75 then None
    else
      match UnicodeAt(s[1..])
      case None => None
      case Some((text, n)) => Some((text, n + 1))
  }

  /** The rest of a string after its opening quote. */
  function StringRest(s: Text): Parsed<Text>
    decreases |s|
  {
    if s == [] || s[0] < 0x20 then None
    else if s[0] == QUOTE then Some(([], s[1..]))
    else if s[0] != ESCAPE then
      match StringRest(s[1..])
      case None => None
      case Some((text, rest)) => Some(([s[0]] + text, rest))
    else
      match EscapeAt(s[1..])
      case None => None
      case Some((first, n)) =>
        match StringRest(s[n + 1..])
        case None => None
        case Some((text, rest)) => Some((first + text, rest))
  }

  function ReadString(s: Text): Parsed<Text> {
    if s == [] || s[0] != QUOTE then None else StringRest(s[1..])
  }

  predicate IsDigit(b: Byte) {
    0x30 <= b <= 0x39
  }

  predicate DigitAhead(s: Text) {
    s != [] && IsDigit(s[0])
  }

  function DigitsFrom(s: Text, acc: nat): (nat, Text) {
    if DigitAhead(s) then DigitsFrom(s[1..], acc * 10 + (s[0] - ZERO)) else (acc, s)
  }

  /** A JSON integer: no leading zero. */
  function ReadNat(s: Text): Parsed<int> {
    if !DigitAhead(s) then None
    else if s[0] == ZERO then (if DigitAhead(s[1..]) then None else Some((0, s[1..])))
    else var (n, rest) := DigitsFrom(s, 0); Some((n, rest))
  }

  function ReadInt(s: Text): Parsed<int> {
    var negative := s != [] && s[0] == MINUS;
    match ReadNat(if negative then s[1..] else s)
    case None => None
    case Some((n, rest)) =>
      Some((if negative then -n else n, rest))
  }

  function ReadValue(s: Text): Parsed<Value> {
    if NullText() <= s then Some((Null, s[4..]))
    else if s != [] && s[0] == QUOTE then
      match ReadString(s)
      case None => None
      case Some((text, rest)) => Some((TextValue(text), rest))
    else
      match ReadInt(s)
      case None => None
      case Some((n, rest)) =>
        if -0x8000_0000_0000_0000 <= n <= 0x7FFF_FFFF_FFFF_FFFF then Some((Integer(n), rest)) else None
  }

  /** The items after the first, up to the closing bracket. */
  function MoreItems<T>(s: Text, item: Text -> Parsed<T>): Parsed<seq<T>>
    decreases |s|
  {
    if s == [] then None
    else if s[0] == CLOSE then Some(([], s[1..]))
    else if s[0] != COMMA then None
    else
      match item(s[1..])
      case None => None
      case Some((first, rest)) =>
        if |rest| >= |s| then None
        else
          match MoreItems(rest, item)
          case None => None
          case Some((others, after)) => Some(([first] + others, after))
  }

  /** The items of a list after its opening bracket. */
  function Items<T>(s: Text, item: Text -> Parsed<T>): Parsed<seq<T>> {
    if s != [] && s[0] == CLOSE then Some(([], s[1..]))
    else
      match item(s)
      case None => None
      case Some((first, rest)) =>
        match MoreItems(rest, item)
        case None => None
        case Some((others, after)) => Some(([first] + others, after))
  }

  function ReadRow(s: Text): Parsed<seq<Value>> {
    if s == [] || s[0] != OPEN then None else Items(s[1..], ReadValue)
  }

  /** The rows, from the bracket that closes the columns to the end. */
  function ReadRows(s: Text): Option<seq<seq<Value>>> {
    if !(Middle()[1..] <= s) then None
    else
      match Items(s[|Middle()| - 1..], ReadRow)
      case None => None
      case Some((rows, end)) => if end == [0x7D] then Some(rows) else None
  }

  function ReadDocument(s: Text): Option<(seq<Text>, seq<seq<Value>>)> {
    if !(Prologue() <= s) then None
    else
      match Items(s[|Prologue()|..], ReadString)
      case None => None
      case Some((columns, middle)) =>
        match ReadRows(middle)
        case None => None
        case Some(rows) => Some((columns, rows))
  }
}
