/**
 Strings as servers may write them: every byte string in any mixture of admissible spellings, with escapes by
 code point in UTF-8 (section 3 of RFC 3629), and what is read of escapes that are none.
 */
module JsonStrings {
  import opened ByteStrings
  import Json
  import JsonTheory

  // ----- UTF-8 -----

  predicate IsContinuation(b: byte) {
    0x80 <= b <= 0xBF
  }

  /** The code point at the front of a text, and how many bytes it takes; only the shortest form counts. */
  function ReadCode(s: Bytes): Option<(nat, nat)> {
    if s == [] then None
    else if s[0] <= 0x7F then Some((s[0] as nat, 1))
    else if 0xC0 <= s[0] <= 0xDF && |s| >= 2 && IsContinuation(s[1]) then
      var code := 64 * (s[0] as nat - 0xC0) + (s[1] as nat - 0x80);
      if code >= 0x80 then Some((code, 2)) else None
    else if 0xE0 <= s[0] <= 0xEF && |s| >= 3 && IsContinuation(s[1]) && IsContinuation(s[2]) then
      var code := 4096 * (s[0] as nat - 0xE0) + 64 * (s[1] as nat - 0x80) + (s[2] as nat - 0x80);
      if code >= 0x800 then Some((code, 3)) else None
    else None
  }

  /** What an escape writes reads back as its code, in one, two or three bytes by its size. */
  lemma CodeIsRead(code: nat, rest: Bytes)
    requires code < 0x10000
    ensures ReadCode(Json.Utf8(code) + rest) == Some((code, if code < 0x80 then 1 else if code < 0x800 then 2 else 3))
    ensures |Json.Utf8(code)| == if code < 0x80 then 1 else if code < 0x800 then 2 else 3
  {
    var u := Json.Utf8(code);
    assert (u + rest)[..|u|] == u;
    CodeParts(code);
  }

  lemma CodeParts(code: nat)
    requires code < 0x10000
    ensures code == 64 * (code / 64) + code % 64 && code / 64 == 64 * (code / 4096) + (code / 64) % 64
    ensures code < 0x800 ==> code / 64 < 32
    ensures code / 4096 < 16
  {
    assert code / 4096 == (code / 64) / 64;
  }

  /** No other bytes read as that code alone. */
  lemma CodeIsUnique(t: Bytes, code: nat)
    requires code < 0x10000 && ReadCode(t) == Some((code, |t|))
    ensures t == Json.Utf8(code)
  {
    CodeParts(code);
  }

  // ----- spellings -----

  /** An escape by code point: four hex digits, the highest first. */
  predicate IsCodeEscape(e: Bytes, code: nat) {
    && |e| == 6 && e[0] == 0x5C && e[1] == 0x75
    && HexDigit(e[2]) >= 0 && HexDigit(e[3]) >= 0 && HexDigit(e[4]) >= 0 && HexDigit(e[5]) >= 0
    && code == ((HexDigit(e[2]) * 16 + HexDigit(e[3])) * 16 + HexDigit(e[4])) * 16 + HexDigit(e[5])
  }

  /**
   The spellings of a piece of text: a byte as itself, behind a backslash or in a short escape, or the UTF-8
   form of a code point as its escape.
   */
  ghost predicate IsSpelling(e: Bytes, t: Bytes) {
    || (|t| == 1 && SpellsByte(e, t[0]))
    || (exists code: nat :: IsCodeEscape(e, code) && ReadCode(t) == Some((code, |t|)))
  }

  predicate SpellsByte(e: Bytes, b: byte) {
    || (e == [b] && b >= 0x20 && b != 0x22 && b != 0x5C)
    || (e == [0x5C, b] && b != 0x6E && b != 0x74 && b != 0x72 && b != 0x62 && b != 0x66 && b != 0x75)
    || (b == 0x0A && e == [0x5C, 0x6E]) || (b == 0x09 && e == [0x5C, 0x74])
    || (b == 0x0D && e == [0x5C, 0x72]) || (b == 0x08 && e == [0x5C, 0x62]) || (b == 0x0C && e == [0x5C, 0x66])
  }

  /** A piece of text and one of its spellings. */
  datatype Piece = Piece(spelling: Bytes, text: Bytes)

  ghost predicate AreSpelled(pieces: seq<Piece>) {
    forall piece :: piece in pieces ==> IsSpelling(piece.spelling, piece.text)
  }

  function RawOf(pieces: seq<Piece>): Bytes {
    if pieces == [] then [] else pieces[0].spelling + RawOf(pieces[1..])
  }

  function TextOf(pieces: seq<Piece>): Bytes {
    if pieces == [] then [] else pieces[0].text + TextOf(pieces[1..])
  }

  /** `raw` spells `text`, cut into pieces and each in any of its spellings. */
  ghost predicate Spells(raw: Bytes, text: Bytes) {
    exists pieces :: AreSpelled(pieces) && raw == RawOf(pieces) && text == TextOf(pieces)
  }

  lemma ByteIsRead(e: Bytes, b: byte, rest: Bytes)
    requires SpellsByte(e, b)
    ensures Json.Unescape(e + rest) == [b] + Json.Unescape(rest)
    ensures Json.Escaped(rest) ==> Json.Escaped(e + rest)
  {
    assert (e + rest)[|e|..] == rest;
  }

  lemma HexIsPlain(a: byte)
    requires HexDigit(a) >= 0
    ensures a != Json.QUOTE && a != Json.BACKSLASH
  {
  }

  lemma PlainInFront(b: byte, rest: Bytes)
    requires b != Json.QUOTE && b != Json.BACKSLASH && Json.Escaped(rest)
    ensures Json.Escaped([b] + rest)
  {
    assert ([b] + rest)[1..] == rest;
  }

  lemma EscapeStaysEscaped(e: Bytes, code: nat, rest: Bytes)
    requires IsCodeEscape(e, code) && Json.Escaped(rest)
    ensures Json.Escaped(e + rest)
  {
    HexIsPlain(e[2]);
    HexIsPlain(e[3]);
    HexIsPlain(e[4]);
    HexIsPlain(e[5]);
    PlainInFront(e[5], rest);
    PlainInFront(e[4], [e[5]] + rest);
    PlainInFront(e[3], [e[4]] + ([e[5]] + rest));
    PlainInFront(e[2], [e[3]] + ([e[4]] + ([e[5]] + rest)));
    assert (e + rest)[2..] == [e[2]] + ([e[3]] + ([e[4]] + ([e[5]] + rest)));
  }

  /** Every escape of four digits, up to the highest, is read as the UTF-8 form of its code. */
  lemma EscapeIsRead(e: Bytes, code: nat, t: Bytes, rest: Bytes)
    requires IsCodeEscape(e, code) && ReadCode(t) == Some((code, |t|))
    ensures Json.Unescape(e + rest) == t + Json.Unescape(rest)
  {
    CodeIsUnique(t, code);
    var s := e + rest;
    assert s[6..] == rest && s[2] == e[2] && s[3] == e[3] && s[4] == e[4] && s[5] == e[5] && s[0] == e[0] && s[1] == e[1];
  }

  /** The bytes read for an escape are the one UTF-8 form of its code: one, two or three by its size. */
  lemma CodePointIsRead(e: Bytes, code: nat, rest: Bytes) returns (t: Bytes)
    requires IsCodeEscape(e, code)
    ensures Json.Unescape(e + rest) == t + Json.Unescape(rest)
    ensures ReadCode(t) == Some((code, |t|)) && |t| == if code < 0x80 then 1 else if code < 0x800 then 2 else 3
  {
    t := Json.Utf8(code);
    CodeIsRead(code, []);
    assert t + [] == t;
    EscapeIsRead(e, code, t, rest);
  }

  lemma PieceIsRead(e: Bytes, t: Bytes, rest: Bytes)
    requires IsSpelling(e, t)
    ensures Json.Unescape(e + rest) == t + Json.Unescape(rest)
    ensures Json.Escaped(rest) ==> Json.Escaped(e + rest)
  {
    if |t| == 1 && SpellsByte(e, t[0]) {
      ByteIsRead(e, t[0], rest);
      assert t == [t[0]];
    } else {
      var code: nat :| IsCodeEscape(e, code) && ReadCode(t) == Some((code, |t|));
      EscapeIsRead(e, code, t, rest);
      if Json.Escaped(rest) { EscapeStaysEscaped(e, code, rest); }
    }
  }

  lemma {:induction false} PiecesAreRead(pieces: seq<Piece>)
    requires AreSpelled(pieces)
    ensures Json.Escaped(RawOf(pieces)) && Json.Unescape(RawOf(pieces)) == TextOf(pieces)
  {
    if pieces == [] {
    } else {
      assert pieces[0] in pieces;
      PiecesAreRead(pieces[1..]);
      PieceIsRead(pieces[0].spelling, pieces[0].text, RawOf(pieces[1..]));
    }
  }

  /** Whatever spellings a server chooses, the text is what the scanner reads. */
  lemma SpellingsAreRead(raw: Bytes, text: Bytes)
    requires Spells(raw, text)
    ensures Json.Escaped(raw) && Json.Unescape(raw) == text
  {
    var pieces :| AreSpelled(pieces) && raw == RawOf(pieces) && text == TextOf(pieces);
    PiecesAreRead(pieces);
  }

  lemma NothingSpells()
    ensures Spells([], [])
  {
    assert AreSpelled([]) && RawOf([]) == [] && TextOf([]) == [];
  }

  lemma SpellsOn(e: Bytes, t: Bytes, raw: Bytes, text: Bytes)
    requires IsSpelling(e, t) && Spells(raw, text)
    ensures Spells(e + raw, t + text)
  {
    var pieces :| AreSpelled(pieces) && raw == RawOf(pieces) && text == TextOf(pieces);
    var all := [Piece(e, t)] + pieces;
    assert all[0] == Piece(e, t) && all[1..] == pieces;
    assert AreSpelled(all) && e + raw == RawOf(all) && t + text == TextOf(all);
  }

  /** So `find_value` reports the text that the first field answering to the key spells. */
  lemma SpelledValueIsFound(v: Json.Spaced, key: Bytes, raw: Bytes, text: Bytes)
    requires Json.WellFormedSpaced(v) && JsonTheory.IsSearchable(key)
    requires JsonTheory.Lookup(v.tree, key) == Some(Json.Str(raw)) && Spells(raw, text)
    ensures Json.FindValue(Json.PrintSpaced(v), key) == Some(text)
  {
    JsonTheory.FindValueInTree(v, key);
    SpellingsAreRead(raw, text);
  }

  // ----- escapes that are none -----

  /** With fewer than four bytes behind it an escape by code point ends the text, and a last backslash is dropped. */
  lemma ShortEscapeEnds(rest: Bytes)
    requires |rest| < 4
    ensures Json.Unescape([0x5C, 0x75] + rest) == [] && Json.Unescape([0x5C]) == []
  {
  }

  /** If one of the four bytes is no digit, the letter stands for itself and the bytes are read as they are. */
  lemma InvalidEscapeIsALetter(rest: Bytes)
    requires |rest| >= 4
    requires HexDigit(rest[0]) < 0 || HexDigit(rest[1]) < 0 || HexDigit(rest[2]) < 0 || HexDigit(rest[3]) < 0
    ensures Json.Unescape([0x5C, 0x75] + rest) == [0x75] + Json.Unescape(rest)
  {
    var s := [0x5C, 0x75] + rest;
    assert s[2] == rest[0] && s[3] == rest[1] && s[4] == rest[2] && s[5] == rest[3] && s[2..] == rest;
    InvalidInFront(s);
  }

  lemma InvalidInFront(s: Bytes)
    requires |s| >= 6 && s[0] == 0x5C && s[1] == 0x75
    requires !(Json.IsHex(s[2]) && Json.IsHex(s[3]) && Json.IsHex(s[4]) && Json.IsHex(s[5]))
    ensures Json.Unescape(s) == [0x75] + Json.Unescape(s[2..])
  {
  }
}
