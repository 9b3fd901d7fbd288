/**
 The encoding of request bodies, `application/x-www-form-urlencoded` with the percent escapes of section
 2.1 of RFC 3986 and its unreserved characters (section 2.3). A `std::map` is its items in key order.
 */
module Form {
  import opened ByteStrings

  const AMPERSAND: byte := 0x26
  const EQUALS: byte := 0x3D
  const PERCENT: byte := 0x25

  predicate IsUnreserved(c: byte) {
    || 0x30 <= c <= 0x39 || 0x41 <= c <= 0x5A || 0x61 <= c <= 0x7A
    || c == 0x2D || c == 0x5F || c == 0x2E || c == 0x7E
  }

  function UpperNibble(n: nat): (r: byte)
    requires n < 16
    ensures HexDigit(r) == n
  {
    if n < 10 then 0x30 + n else 0x41 + n - 10
  }

  function EscapeByte(c: byte): Bytes {
    if IsUnreserved(c) then [c] else [PERCENT, UpperNibble(c / 16), UpperNibble(c % 16)]
  }

  function Percent(s: Bytes): Bytes {
    if s == [] then [] else EscapeByte(s[0]) + Percent(s[1..])
  }

  type Item = (Bytes, Bytes)

  function Pair(item: Item): Bytes {
    Percent(item.0) + ([EQUALS] + Percent(item.1))
  }

  function Encode(items: seq<Item>): Bytes {
    if items == [] then [] else Pair(items[0]) + Following(items[1..])
  }

  /** The items that follow others. */
  function Following(items: seq<Item>): Bytes {
    if items == [] then [] else [AMPERSAND] + (Pair(items[0]) + Following(items[1..]))
  }

  method EncodePart(part: Bytes) returns (out: Bytes)
    ensures out == Percent(part)
  {
    out := [];
    for i := 0 to |part|
      invariant out + Percent(part[i..]) == Percent(part)
    {
      PercentStep(out, part, i);
      if IsUnreserved(part[i]) {
        out := out + [part[i]];
      } else {
        out := out + [PERCENT, UpperNibble(part[i] / 16), UpperNibble(part[i] % 16)];
      }
    }
  }

  lemma PercentStep(out: Bytes, part: Bytes, i: nat)
    requires i < |part|
    ensures out + Percent(part[i..]) == out + EscapeByte(part[i]) + Percent(part[i + 1..])
  {
    assert part[i..][1..] == part[i + 1..];
    Regroup(out, EscapeByte(part[i]), Percent(part[i + 1..]));
  }

  method EncodePair(item: Item) returns (out: Bytes)
    ensures out == Pair(item)
  {
    var key := EncodePart(item.0);
    var value := EncodePart(item.1);
    out := key + ([EQUALS] + value);
  }

  method FormEncode(body: seq<Item>) returns (out: Bytes)
    ensures out == Encode(body)
  {
    out := [];
    for i := 0 to |body|
      invariant out == [] <==> i == 0
      invariant i > 0 ==> Encode(body) == out + Following(body[i..])
    {
      assert body[i..][1..] == body[i + 1..];
      if out != [] {
        out := out + [AMPERSAND];
      }
      var pair := EncodePair(body[i]);
      Regroup(out, pair, Following(body[i + 1..]));
      out := out + pair;
    }
  }

  // ----- decoding -----

  function Unpercent(s: Bytes): Bytes {
    if s == [] then []
    else if s[0] == PERCENT && |s| >= 3 && HexDigit(s[1]) >= 0 && HexDigit(s[2]) >= 0 then
      [16 * HexDigit(s[1]) + HexDigit(s[2])] + Unpercent(s[3..])
    else [s[0]] + Unpercent(s[1..])
  }

  function DecodePair(s: Bytes): Item {
    match IndexOf(s, [EQUALS])
    case None => (Unpercent(s), [])
    case Some(n) => (Unpercent(s[..n]), Unpercent(s[n + 1..]))
  }

  /** What a server makes of a body: split at ampersands, then at the first equals sign, then unescape. */
  function Decode(text: Bytes): seq<Item> {
    if text == [] then []
    else
      match IndexOf(text, [AMPERSAND])
      case None => [DecodePair(text)]
      case Some(n) => [DecodePair(text[..n])] + Decode(text[n + 1..])
  }

  /** Escaping is undone, and leaves neither of the separators. */
  lemma {:induction false} PercentIsUndone(s: Bytes)
    ensures Unpercent(Percent(s)) == s
    ensures AMPERSAND !in Percent(s) && EQUALS !in Percent(s)
  {
    if s == [] {
    } else {
      PercentIsUndone(s[1..]);
      var e, rest := EscapeByte(s[0]), Percent(s[1..]);
      assert (e + rest)[|e|..] == rest;
      assert s == [s[0]] + s[1..];
    }
  }

  lemma SplitAtEquals(key: Bytes, value: Bytes)
    requires EQUALS !in key
    ensures DecodePair(key + ([EQUALS] + value)) == (Unpercent(key), Unpercent(value))
  {
    IndexOfByte(key, [EQUALS] + value, EQUALS);
    var s := key + ([EQUALS] + value);
    assert s[..|key|] == key && s[|key| + 1..] == value;
  }

  lemma PairIsDecoded(item: Item)
    ensures DecodePair(Pair(item)) == item && AMPERSAND !in Pair(item) && Pair(item) != []
  {
    PercentIsUndone(item.0);
    PercentIsUndone(item.1);
    SplitAtEquals(Percent(item.0), Percent(item.1));
  }

  /** The text up to the first ampersand is one pair, and the rest is decoded after it. */
  lemma SplitAtAmpersand(pair: Bytes, rest: Bytes)
    requires AMPERSAND !in pair && pair != []
    ensures Decode(pair) == [DecodePair(pair)]
    ensures Decode(pair + ([AMPERSAND] + rest)) == [DecodePair(pair)] + Decode(rest)
  {
    IndexOfByte(pair, [], AMPERSAND);
    assert pair + [] == pair;
    IndexOfByte(pair, [AMPERSAND] + rest, AMPERSAND);
    var s := pair + ([AMPERSAND] + rest);
    assert s[..|pair|] == pair && s[|pair| + 1..] == rest;
  }

  /** Decoding undoes encoding, for every list of arbitrary keys and values. */
  lemma {:induction false} FormRoundTrip(items: seq<Item>)
    ensures Decode(Encode(items)) == items
  {
    if items == [] {
    } else {
      PairIsDecoded(items[0]);
      var rest := items[1..];
      SplitAtAmpersand(Pair(items[0]), Encode(rest));
      FormRoundTrip(rest);
      assert Following(rest) == if rest == [] then [] else [AMPERSAND] + Encode(rest);
      assert items == [items[0]] + rest;
      assert Pair(items[0]) + [] == Pair(items[0]);
    }
  }

  // ----- alphabet -----

  /** Exactly the unreserved characters stand for themselves; every other byte is a percent sign and two digits. */
  lemma UnreservedStand(c: byte)
    ensures EscapeByte(c) == [c]
       <==> || 'A' as int <= c as int <= 'Z' as int || 'a' as int <= c as int <= 'z' as int
            || '0' as int <= c as int <= '9' as int || c as int in {'-' as int, '.' as int, '_' as int, '~' as int}
    ensures EscapeByte(c) == [c] || (|EscapeByte(c)| == 3 && EscapeByte(c)[0] == 0x25)
  {
  }
}
