/** String and number literals of a GraphQL document, and what they stand for
    (internal/proto/graphql/value.go; section 2.9 of the GraphQL specification, October 2021). */
module Literals {
  import opened Options
  import opened Decimals
  import opened Texts

  /** What the reading of a document leaves to others: which number texts a floating-point parser
      takes, and how a block string's lines are trimmed. */
  datatype Library = Library(floats: string -> bool, trim: string -> string)

  /** An argument's value; an enum's name arrives as a string. */
  datatype Value =
    | Variable(name: string)
    | Str(text: string)
    | Int64(n: int)
    | Float(text: string)
    | Bool(b: bool)
    | Null
    | List(items: seq<Value>)
    | Object(members: map<string, Value>)

  const TRIPLE := "\"\"\""

  // ---------------------------------------------------------------- characters by number

  predicate Surrogate(r: int) {
    0xD800 <= r < 0xE000
  }

  const REPLACEMENT := 0xFFFD

  /** The character of a surrogate pair (section 2.2 of RFC 2781), or the replacement character. */
  function DecodePair(high: nat, low: nat): (r: nat)
    ensures r < 0x110000
  {
    if 0xD800 <= high < 0xDC00 && 0xDC00 <= low < 0xE000 then
      (high - 0xD800) * 0x400 + (low - 0xDC00) + 0x10000
    else REPLACEMENT
  }

  function Byte(n: nat): char
    requires n < 0x100
  {
    n as char
  }

  /** A character's bytes in UTF-8 (section 3 of RFC 3629). */
  function Utf8(r: nat): string
    requires r < 0x110000
  {
    if r < 0x80 then [Byte(r)]
    else if r < 0x800 then [Byte(0xC0 + r / 0x40), Byte(0x80 + r % 0x40)]
    else if r < 0x10000 then [Byte(0xE0 + r / 0x1000), Byte(0x80 + r / 0x40 % 0x40), Byte(0x80 + r % 0x40)]
    else
      [Byte(0xF0 + r / 0x40000), Byte(0x80 + r / 0x1000 % 0x40), Byte(0x80 + r / 0x40 % 0x40), Byte(0x80 + r % 0x40)]
  }

  // ---------------------------------------------------------------- strings

  function Hex4(s: string, p: nat): (n: Option<nat>)
    ensures n.Some? ==> p + 4 <= |s|
  {
    if p + 4 > |s| then None else HexNumber(s[p..p + 4])
  }

  lemma {:induction false} HexBound(s: string)
    requires HexNumber(s).Some?
    ensures |s| <= 4 ==> HexNumber(s).value < 0x10000
    ensures |s| == 3 ==> HexNumber(s).value < 0x1000
    ensures |s| == 2 ==> HexNumber(s).value < 0x100
    ensures |s| == 1 ==> HexNumber(s).value < 0x10
    ensures |s| == 0 ==> HexNumber(s).value == 0
    decreases |s|
  {
    if s != "" {
      HexBound(s[..|s| - 1]);
    }
  }

  /** The character of four hexadecimal digits at p, a surrogate paired with the escape that follows. */
  function ReadEscape(s: string, p: nat): (r: Option<(nat, nat)>)
    ensures r.Some? ==> r.value.0 < 0x110000 && p < r.value.1 <= |s|
  {
    var first := Hex4(s, p);
    if first.None? then None
    else
      HexBound(s[p..p + 4]);
      if !Surrogate(first.value) then Some((first.value, p + 4))
      else
        var second := if At(s, p + 4, "\\u") then Hex4(s, p + 6) else None;
        if second.Some? && DecodePair(first.value, second.value) != REPLACEMENT then
          Some((DecodePair(first.value, second.value), p + 10))
        else Some((REPLACEMENT, p + 4))
  }

  /** What a backslash and a character other than u stand for. */
  function Unescaped(c: char): char {
    match c
    case 'b' => 8 as char
    case 'f' => 12 as char
    case 'n' => '\n'
    case 'r' => '\r'
    case 't' => '\t'
    case _ => c
  }

  function Then(text: string, rest: Option<(string, nat)>): Option<(string, nat)> {
    if rest.None? then None else Some((text + rest.value.0, rest.value.1))
  }

  /** The rest of a string after its opening quote. */
  function ReadQuoted(s: string, p: nat): (r: Option<(string, nat)>)
    ensures r.Some? ==> p < r.value.1 <= |s|
    decreases |s| - p
  {
    if p >= |s| then None
    else if s[p] == '"' then Some(("", p + 1))
    else if s[p] != '\\' then Then([s[p]], ReadQuoted(s, p + 1))
    else if p + 1 >= |s| then None
    else if s[p + 1] != 'u' then Then([Unescaped(s[p + 1])], ReadQuoted(s, p + 2))
    else
      var r := ReadEscape(s, p + 2);
      if r.None? then None else Then(Utf8(r.value.0), ReadQuoted(s, r.value.1))
  }

  /** The rest of a block string after its opening quotes, before its lines are trimmed. */
  function ReadBlock(s: string, p: nat): (r: Option<(string, nat)>)
    ensures r.Some? ==> p < r.value.1 <= |s|
    decreases |s| - p
  {
    if p >= |s| then None
    else if At(s, p, TRIPLE) then Some(("", p + 3))
    else if At(s, p, "\\" + TRIPLE) then Then(TRIPLE, ReadBlock(s, p + 4))
    else Then([s[p]], ReadBlock(s, p + 1))
  }

  function ReadString(lib: Library, s: string, p: nat): (r: Option<(Value, nat)>)
    requires p < |s| && s[p] == '"'
    ensures r.Some? ==> p < r.value.1 <= |s|
  {
    if At(s, p, TRIPLE) then
      var r := ReadBlock(s, p + 3);
      if r.None? then None else Some((Str(lib.trim(r.value.0)), r.value.1))
    else
      var r := ReadQuoted(s, p + 1);
      if r.None? then None else Some((Str(r.value.0), r.value.1))
  }

  // ---------------------------------------------------------------- numbers

  predicate FloatMark(c: char) {
    c == '.' || c == 'e' || c == 'E'
  }

  predicate Marked(text: string) {
    exists i :: 0 <= i < |text| && FloatMark(text[i])
  }

  /** Where a number ends, its sign taken. */
  function NumberEnd(s: string, p: nat): (q: nat)
    requires p <= |s|
    ensures p <= q <= |s|
    decreases |s| - p
  {
    if p < |s| && (IsDigit(s[p]) || FloatMark(s[p]) ||
                   ((s[p] == '-' || s[p] == '+') && p > 0 && (s[p - 1] == 'e' || s[p - 1] == 'E')))
    then NumberEnd(s, p + 1) else p
  }

  const MIN_INT64 := -0x8000_0000_0000_0000
  const MAX_INT64 := 0x7fff_ffff_ffff_ffff

  function NumberOf(lib: Library, text: string): Option<Value> {
    if text in {"", "-", "+"} then None
    else
      var n := if Marked(text) then None else Atoi(text);
      if n.Some? && MIN_INT64 <= n.value <= MAX_INT64 then Some(Int64(n.value))
      else if lib.floats(text) then Some(Float(text)) else None
  }

  function ReadNumber(lib: Library, s: string, p: nat): (r: Option<(Value, nat)>)
    requires p <= |s|
    ensures r.Some? ==> p < r.value.1 <= |s|
  {
    var q := if p < |s| && (s[p] == '-' || s[p] == '+') then p + 1 else p;
    var end := NumberEnd(s, q);
    var v := NumberOf(lib, s[p..end]);
    if v.None? then None else Some((v.value, end))
  }
}
