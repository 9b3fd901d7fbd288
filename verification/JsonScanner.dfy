/** The scanner's loops over positions in the text, each proved to compute what `Json` specifies. */
module JsonScanner {
  import opened ByteStrings
  import opened Json
  import JsonTheory

  lemma Suffix(text: Bytes, i: nat, n: nat)
    requires i + n <= |text|
    ensures text[i..][n..] == text[i + n..]
  {
  }

  method SkipSpaceFrom(text: Bytes, from: nat) returns (pos: nat)
    requires from <= |text|
    ensures from <= pos <= |text| && text[pos..] == SkipSpace(text[from..])
  {
    pos := from;
    while pos < |text| && IsSpace(text[pos])
      invariant from <= pos <= |text|
      invariant SkipSpace(text[pos..]) == SkipSpace(text[from..])
    {
      Suffix(text, pos, 1);
      pos := pos + 1;
    }
  }

  /** The position just past the value starting at `from`, or none if the text is malformed. */
  method SkipValue(text: Bytes, from: nat) returns (end: Option<nat>)
    requires from <= |text|
    ensures end.None? <==> ValueTail(text[from..]).None?
    ensures end.Some? ==> from <= end.value <= |text| && Some(text[end.value..]) == ValueTail(text[from..])
    decreases |text| - from
  {
    var pos := SkipSpaceFrom(text, from);
    if pos >= |text| {
      return None;
    }
    if text[pos] == QUOTE {
      end := SkipString(text, pos);
    } else if text[pos] == LBRACE || text[pos] == LBRACKET {
      end := SkipBrackets(text, pos);
    } else {
      var i := pos;
      while i < |text| && !EndsLiteral(text[i])
        invariant pos <= i <= |text|
        invariant LiteralTail(text[i..]) == LiteralTail(text[pos..])
      {
        Suffix(text, i, 1);
        i := i + 1;
      }
      end := Some(i);
    }
  }

  lemma StringStep(text: Bytes, i: nat)
    requires i < |text|
    ensures StringTail(text[i..])
         == if text[i] == BACKSLASH then if i + 1 == |text| then None else StringTail(text[i + 2..])
            else if text[i] == QUOTE then Some(text[i + 1..])
            else StringTail(text[i + 1..])
  {
    Suffix(text, i, 1);
    if i + 2 <= |text| { Suffix(text, i, 2); }
  }

  method SkipString(text: Bytes, pos: nat) returns (end: Option<nat>)
    requires pos < |text| && text[pos] == QUOTE
    ensures end.None? <==> StringTail(text[pos + 1..]).None?
    ensures end.Some? ==> pos < end.value <= |text| && Some(text[end.value..]) == StringTail(text[pos + 1..])
  {
    var i := pos + 1;
    ghost var goal := StringTail(text[pos + 1..]);
    while i < |text|
      invariant pos < i
      invariant i <= |text| ==> StringTail(text[i..]) == goal
      invariant i > |text| ==> goal == None
      decreases |text| - i
    {
      StringStep(text, i);
      if text[i] == BACKSLASH {
        i := i + 1;
        i := i + 1;
        continue;
      }
      if text[i] == QUOTE {
        return Some(i + 1);
      }
      i := i + 1;
    }
    end := None;
  }

  method SkipBrackets(text: Bytes, pos: nat) returns (end: Option<nat>)
    requires pos < |text| && (text[pos] == LBRACE || text[pos] == LBRACKET)
    ensures var open := text[pos]; var tail := BracketTail(text[pos..], open, Closer(open), 0);
            (end.None? <==> tail.None?) &&
            (end.Some? ==> pos < end.value <= |text| && Some(text[end.value..]) == tail)
  {
    var open := text[pos];
    var close := Closer(open);
    var depth := 0;
    var i := pos;
    while i < |text|
      invariant pos <= i <= |text|
      invariant BracketTail(text[i..], open, close, depth) == BracketTail(text[pos..], open, close, 0)
    {
      Suffix(text, i, 1);
      if text[i] == QUOTE {
        var after := SkipString(text, i);
        if after.None? {
          return None;
        }
        i := after.value;
        continue;
      }
      if text[i] == open {
        depth := depth + 1;
      } else if text[i] == close {
        depth := depth - 1;
        if depth == 0 {
          return Some(i + 1);
        }
      }
      i := i + 1;
    }
    end := None;
  }

  // ----- escapes -----

  /** The value of the first `n` hex digits after position `at`. */
  function HexValue(raw: Bytes, at: nat, n: nat): int
    requires at + n < |raw|
    decreases n
  {
    if n == 0 then 0 else HexValue(raw, at, n - 1) * 16 + HexDigit(raw[at + n])
  }

  predicate AllHex(raw: Bytes, at: nat, n: nat)
    requires at + n < |raw|
  {
    forall k :: at < k <= at + n ==> IsHex(raw[k])
  }

  method ReadHex(raw: Bytes, at: nat) returns (valid: bool, value: int)
    requires at + 4 < |raw|
    ensures valid == AllHex(raw, at, 4)
    ensures valid ==> value == HexValue(raw, at, 4)
  {
    value := 0;
    valid := true;
    var digit := 1;
    while digit <= 4
      invariant 1 <= digit <= 5
      invariant valid && AllHex(raw, at, digit - 1) && value == HexValue(raw, at, digit - 1)
    {
      var d := HexDigit(raw[at + digit]);
      if d < 0 {
        valid := false;
        break;
      }
      value := value * 16 + d;
      digit := digit + 1;
    }
  }

  lemma FourDigits(raw: Bytes, at: nat)
    requires at + 4 < |raw| && AllHex(raw, at, 4)
    ensures 0 <= HexValue(raw, at, 4) < 0x10000
    ensures HexValue(raw, at, 4) == HexDigit(raw[at + 1]) * 4096 + HexDigit(raw[at + 2]) * 256
                                    + HexDigit(raw[at + 3]) * 16 + HexDigit(raw[at + 4])
  {
    assert IsHex(raw[at + 1]) && IsHex(raw[at + 2]) && IsHex(raw[at + 3]) && IsHex(raw[at + 4]);
  }

  /** What one escape stands for, and where the next byte is read. */
  method UnescapeOne(raw: Bytes, at: nat) returns (out: Bytes, next: nat)
    requires at + 1 < |raw| && raw[at] == BACKSLASH
    ensures at < next <= |raw| && Unescape(raw[at..]) == out + Unescape(raw[next..])
  {
    var i := at + 1;
    Suffix(raw, at, 2);
    assert raw[at..][1] == raw[i];
    match raw[i]
    case 0x6E => out, next := [0x0A], i + 1;
    case 0x74 => out, next := [0x09], i + 1;
    case 0x72 => out, next := [0x0D], i + 1;
    case 0x62 => out, next := [0x08], i + 1;
    case 0x66 => out, next := [0x0C], i + 1;
    case 0x75 =>
      if i + 4 >= |raw| {
        out, next := [], |raw|;
      } else {
        var valid, value := ReadHex(raw, i);
        if !valid {
          out, next := [raw[i]], i + 1;
        } else {
          FourDigits(raw, i);
          Suffix(raw, at, 6);
          out, next := Utf8(value), i + 5;
        }
      }
    case _ => out, next := [raw[i]], i + 1;
  }

  method UnescapeString(raw: Bytes) returns (out: Bytes)
    ensures out == Unescape(raw)
  {
    out := [];
    var i := 0;
    while i < |raw|
      invariant 0 <= i <= |raw|
      invariant out + Unescape(raw[i..]) == Unescape(raw)
    {
      if raw[i] != BACKSLASH {
        Suffix(raw, i, 1);
        Regroup(out, [raw[i]], Unescape(raw[i + 1..]));
        out := out + [raw[i]];
        i := i + 1;
      } else if i + 1 >= |raw| {
        break;
      } else {
        var piece, next := UnescapeOne(raw, i);
        Regroup(out, piece, Unescape(raw[next..]));
        out := out + piece;
        i := next;
      }
    }
  }

  method EscapeString(text: Bytes) returns (out: Bytes)
    ensures out == Escape(text)
  {
    out := [];
    var i := 0;
    while i < |text|
      invariant 0 <= i <= |text|
      invariant out + Escape(text[i..]) == Escape(text)
    {
      Suffix(text, i, 1);
      Regroup(out, EscapeByte(text[i]), Escape(text[i + 1..]));
      match text[i] {
        case 0x22 => out := out + [BACKSLASH, QUOTE];
        case 0x5C => out := out + [BACKSLASH, BACKSLASH];
        case 0x0A => out := out + [BACKSLASH, 0x6E];
        case 0x0D => out := out + [BACKSLASH, 0x72];
        case 0x09 => out := out + [BACKSLASH, 0x74];
        case _ => out := out + [text[i]];
      }
      i := i + 1;
    }
  }

  method JsonField(key: Bytes, value: Bytes) returns (out: Bytes)
    ensures out == PrintField(Close(Escape(key), Str(Escape(value))))
  {
    var k := EscapeString(key);
    var v := EscapeString(value);
    CloseText(Escape(key), Str(Escape(value)));
    out := [QUOTE] + k + [QUOTE, COLON, QUOTE] + v + [QUOTE];
  }

  // ----- finding a key -----

  lemma {:induction false} NoMatchBefore(s: Bytes, key: Bytes, n: nat)
    requires n <= |s|
    requires forall i :: 0 <= i < n ==> !(Quoted(key) <= s[i..])
    ensures KeyTail(s, key) == KeyTail(s[n..], key)
    decreases n
  {
    if n == 0 {
    } else {
      assert !(Quoted(key) <= s[0..]);
      forall i | 0 <= i < n - 1
        ensures !(Quoted(key) <= s[1..][i..])
      {
        Suffix(s, 1, i);
      }
      NoMatchBefore(s[1..], key, n - 1);
      Suffix(s, 1, n - 1);
    }
  }

  lemma SearchPasses(s: Bytes, key: Bytes)
    ensures match IndexOf(s, Quoted(key))
            case None => KeyTail(s, key) == None
            case Some(n) => KeyTail(s, key) == KeyTail(s[n..], key) && Quoted(key) <= s[n..]
  {
    IndexOfIsFirst(s, Quoted(key));
    match IndexOf(s, Quoted(key))
    case None => NoMatchBefore(s, key, |s|);
    case Some(n) => NoMatchBefore(s, key, n);
  }

  lemma MatchInFront(text: Bytes, pos: nat, needle: Bytes)
    requires pos + |needle| <= |text| && needle <= text[pos..]
    ensures text[pos..] == needle + text[pos + |needle|..]
  {
  }

  lemma AtMatch(text: Bytes, pos: nat, key: Bytes)
    requires pos + |key| + 2 <= |text| && Quoted(key) <= text[pos..]
    ensures KeyTail(text[pos..], key)
         == var after := SkipSpace(text[pos + |key| + 2..]);
            if after != [] && after[0] == COLON then Some(after[1..]) else KeyTail(text[pos + |key| + 2..], key)
  {
    MatchInFront(text, pos, Quoted(key));
    JsonTheory.MatchTail(text[pos + |key| + 2..], key);
  }

  /** `text.find(needle, pos)`; nothing it passes over can be a match. */
  method NextMatch(text: Bytes, key: Bytes, pos: nat) returns (at: Option<nat>)
    requires pos <= |text|
    ensures at.None? ==> KeyTail(text[pos..], key) == None
    ensures at.Some? ==> pos <= at.value && at.value + |key| + 2 <= |text| && Quoted(key) <= text[at.value..]
    ensures at.Some? ==> KeyTail(text[pos..], key) == KeyTail(text[at.value..], key)
  {
    SearchPasses(text[pos..], key);
    var found := IndexOf(text[pos..], Quoted(key));
    if found.None? {
      return None;
    }
    Suffix(text, pos, found.value);
    at := Some(pos + found.value);
  }

  /** A match is accepted if a colon comes next, and otherwise the search goes on behind it. */
  lemma AcceptOrGoOn(text: Bytes, at: nat, key: Bytes, after: nat)
    requires at + |key| + 2 <= |text| && Quoted(key) <= text[at..]
    requires after <= |text| && text[after..] == SkipSpace(text[at + |key| + 2..])
    ensures KeyTail(text[at..], key)
         == if after < |text| && text[after] == COLON then Some(text[after + 1..]) else KeyTail(text[at + |key| + 2..], key)
  {
    AtMatch(text, at, key);
    if after < |text| { Suffix(text, after, 1); }
  }

  /** Looks at one match: the position past its colon, or where the search goes on. */
  method TryMatch(text: Bytes, key: Bytes, at: nat) returns (accepted: bool, next: nat)
    requires at + |key| + 2 <= |text| && Quoted(key) <= text[at..]
    ensures at < next <= |text|
    ensures KeyTail(text[at..], key) == if accepted then Some(text[next..]) else KeyTail(text[next..], key)
  {
    next := at + |key| + 2;
    var after := SkipSpaceFrom(text, next);
    AcceptOrGoOn(text, at, key, after);
    accepted := after < |text| && text[after] == COLON;
    if accepted {
      next := after + 1;
    }
  }

  /** The position just past the colon of the first accepted match. */
  method FindKey(text: Bytes, key: Bytes, from: nat) returns (start: Option<nat>)
    requires from <= |text|
    ensures start.None? <==> KeyTail(text[from..], key).None?
    ensures start.Some? ==> from < start.value <= |text| && Some(text[start.value..]) == KeyTail(text[from..], key)
  {
    var pos := from;
    ghost var goal := KeyTail(text[from..], key);
    while true
      invariant from <= pos <= |text|
      invariant KeyTail(text[pos..], key) == goal
      decreases |text| - pos
    {
      var found := NextMatch(text, key, pos);
      if found.None? {
        return None;
      }
      var accepted, next := TryMatch(text, key, found.value);
      if accepted {
        return Some(next);
      }
      pos := next;
    }
  }

  // ----- the three finders -----

  method TrimTrailing(value: Bytes) returns (out: Bytes)
    ensures out == TrimRight(value)
  {
    out := value;
    while out != [] && IsSpace(out[|out| - 1])
      invariant TrimRight(out) == TrimRight(value)
    {
      out := out[..|out| - 1];
    }
  }

  method FindValueIn(text: Bytes, key: Bytes) returns (out: Option<Bytes>)
    ensures out == FindValue(text, key)
  {
    var start := FindKey(text, key, 0);
    assert text[0..] == text;
    if start.None? {
      return None;
    }
    var end := SkipValue(text, start.value);
    if end.None? {
      return None;
    }
    var begin := SkipSpaceFrom(text, start.value);
    ValueBetween(text, start.value, begin, end.value);
    var value := text[begin..end.value];
    if begin < end.value && text[begin] == QUOTE {
      var inside := UnescapeString(text[begin + 1..end.value - 1]);
      WithoutQuotes(text, begin, end.value);
      return Some(inside);
    }
    value := TrimTrailing(value);
    out := Some(value);
  }

  lemma WithoutQuotes(text: Bytes, begin: nat, end: nat)
    requires begin + 2 <= end <= |text|
    ensures text[begin..end][1..end - begin - 1] == text[begin + 1..end - 1]
  {
    var value := text[begin..end];
    assert forall i :: 0 <= i < |value| ==> value[i] == text[begin + i];
    assert value[1..|value| - 1] == text[begin + 1..end - 1];
  }

  /** The value found lies between where its spaces end and where the scanner stops. */
  lemma ValueBetween(text: Bytes, start: nat, begin: nat, end: nat)
    requires start <= begin <= |text| && end <= |text|
    requires text[begin..] == SkipSpace(text[start..]) && ValueTail(text[start..]) == Some(text[end..])
    ensures begin <= end
    ensures Before(SkipSpace(text[start..]), text[end..]) == text[begin..end]
    ensures begin < |text| && text[begin] == QUOTE ==> begin + 2 <= end
  {
  }

  method FindObjectIn(text: Bytes, key: Bytes) returns (out: Option<Bytes>)
    ensures out == FindObject(text, key)
  {
    var start := FindKey(text, key, 0);
    assert text[0..] == text;
    if start.None? {
      return None;
    }
    var begin := SkipSpaceFrom(text, start.value);
    if begin >= |text| || text[begin] != LBRACE {
      return None;
    }
    var end := SkipValue(text, begin);
    if end.None? {
      return None;
    }
    SpaceIsGone(text[start.value..]);
    ValueBetween(text, begin, begin, end.value);
    out := Some(text[begin..end.value]);
  }

  /**
   The listing loop: blanks and commas are stepped over, and each object or value from there is an item. A
   closing brace where an item should begin is a value of no bytes, behind which the loop would stand where
   it stood: it stops there and says so in `endless`.
   */
  method FindArrayObjectsIn(text: Bytes, key: Bytes) returns (items: seq<Bytes>, endless: bool)
    ensures Listing(items, endless) == FindArrayObjects(text, key)
  {
    items, endless := [], false;
    var start := FindKey(text, key, 0);
    assert text[0..] == text;
    if start.None? {
      return;
    }
    var pos := SkipSpaceFrom(text, start.value);
    if pos >= |text| || text[pos] != LBRACKET {
      return;
    }
    var arrayEnd := SkipValue(text, pos);
    if arrayEnd.None? {
      return;
    }
    items, endless := ListElements(text, pos + 1, arrayEnd.value);
    Suffix(text, pos, 1);
  }

  lemma ElementStep(text: Bytes, before: nat, pos: nat, end: nat, bound: nat)
    requires before <= pos < end <= |text| && pos + bound < |text|
    requires text[pos..] == SkipSeparators(text[before..], bound) && text[pos] != RBRACKET
    requires ValueTail(text[pos..]) == Some(text[end..])
    ensures var rest := Elements(text[end..], bound);
            Elements(text[before..], bound) == Listing([text[pos..end]] + rest.items, rest.endless)
  {
    assert Before(text[pos..], text[end..]) == text[pos..end];
  }

  method ListElements(text: Bytes, from: nat, arrayEnd: nat) returns (items: seq<Bytes>, endless: bool)
    requires from <= |text| && arrayEnd <= |text|
    ensures Listing(items, endless) == Elements(text[from..], |text| - arrayEnd)
  {
    ghost var bound := |text| - arrayEnd;
    items := [];
    var pos := from;
    while pos < arrayEnd
      invariant from <= pos <= |text|
      invariant var all, rest := Elements(text[from..], bound), Elements(text[pos..], bound);
                all == Listing(items + rest.items, rest.endless)
      decreases |text| - pos
    {
      ghost var before := pos;
      pos := SkipSeparatorsFrom(text, pos, arrayEnd);
      if pos >= arrayEnd || text[pos] == RBRACKET {
        return items, false;
      }
      var end := SkipValue(text, pos);
      if end.None? {
        return items, false;
      }
      if end.value == pos {
        return items, true;
      }
      ElementStep(text, before, pos, end.value, bound);
      Regroup(items, [text[pos..end.value]], Elements(text[end.value..], bound).items);
      items := items + [text[pos..end.value]];
      pos := end.value;
    }
    endless := false;
  }

  method SkipSeparatorsFrom(text: Bytes, from: nat, arrayEnd: nat) returns (pos: nat)
    requires from <= arrayEnd <= |text|
    ensures from <= pos <= arrayEnd && text[pos..] == SkipSeparators(text[from..], |text| - arrayEnd)
  {
    pos := from;
    while pos < arrayEnd && (IsSpace(text[pos]) || text[pos] == COMMA)
      invariant from <= pos <= arrayEnd
      invariant SkipSeparators(text[pos..], |text| - arrayEnd) == SkipSeparators(text[from..], |text| - arrayEnd)
    {
      Suffix(text, pos, 1);
      pos := pos + 1;
    }
  }
}
