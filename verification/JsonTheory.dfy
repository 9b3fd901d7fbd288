/**
 On the text of a tree the scanner finds exactly the tree's parts: `ValueTail` stops at the end of the
 value although it counts one kind of bracket, and `KeyTail` stops at the first field with the key.
 */
module JsonTheory {
  import opened ByteStrings
  import opened Json

  /** Where a value may end: blanks aside, at the end of the text or at a byte that ends a literal. */
  predicate Delimited(s: Bytes) {
    SkipSpace(s) == [] || EndsLiteral(SkipSpace(s)[0])
  }

  lemma {:induction false} BlanksAreSkipped(blank: Bytes, rest: Bytes)
    requires IsBlank(blank)
    ensures SkipSpace(blank + rest) == SkipSpace(rest)
    ensures Delimited(blank + rest) <==> Delimited(rest)
  {
    if blank == [] {
      assert blank + rest == rest;
    } else {
      Uncons(blank, rest);
      assert blank[0] in blank;
      BlanksAreSkipped(blank[1..], rest);
    }
  }

  /** What stands before the first byte that is no blank. */
  lemma {:induction false} LeadingBlanks(s: Bytes) returns (blank: Bytes)
    ensures IsBlank(blank) && s == blank + SkipSpace(s)
  {
    if s != [] && IsSpace(s[0]) {
      var later := LeadingBlanks(s[1..]);
      blank := [s[0]] + later;
    } else {
      blank := [];
    }
  }

  lemma BlanksArePlain(blank: Bytes)
    requires IsBlank(blank)
    ensures QUOTE !in blank && forall b :: b in blank ==> IsLiteralByte(b)
  {
  }

  lemma DelimitedStarts(rest: Bytes)
    requires Delimited(rest)
    ensures rest == [] || FollowsString(rest[0])
  {
  }

  lemma Uncons(a: Bytes, b: Bytes)
    requires a != []
    ensures (a + b)[0] == a[0] && (a + b)[1..] == a[1..] + b
  {
  }

  lemma {:induction false} StringSkips(raw: Bytes, rest: Bytes)
    requires Escaped(raw)
    ensures StringTail(raw + ([QUOTE] + rest)) == Some(rest)
  {
    var s := [QUOTE] + rest;
    if raw == [] {
      assert raw + s == s && s[1..] == rest;
    } else if raw[0] == BACKSLASH {
      assert (raw + s)[2..] == raw[2..] + s;
      StringSkips(raw[2..], rest);
    } else {
      Uncons(raw, s);
      StringSkips(raw[1..], rest);
    }
  }

  // ----- bracket counting -----

  predicate IsBracketKind(open: byte) {
    open == LBRACE || open == LBRACKET
  }

  function Skips(s: Bytes, open: byte, depth: int): Option<Bytes> {
    BracketTail(s, open, Closer(open), depth)
  }

  lemma QuotedSkips(raw: Bytes, rest: Bytes, open: byte, depth: int)
    requires Escaped(raw) && IsBracketKind(open)
    ensures Skips(Quoted(raw) + rest, open, depth) == Skips(rest, open, depth)
  {
    var s := Quoted(raw) + rest;
    assert s[1..] == raw + ([QUOTE] + rest);
    StringSkips(raw, rest);
  }

  lemma {:induction false} LiteralSkips(text: Bytes, rest: Bytes, open: byte, depth: int)
    requires forall b :: b in text ==> IsLiteralByte(b)
    requires IsBracketKind(open)
    ensures Skips(text + rest, open, depth) == Skips(rest, open, depth)
  {
    if text == [] {
      assert text + rest == rest;
    } else {
      Uncons(text, rest);
      assert text[0] in text;
      LiteralSkips(text[1..], rest, open, depth);
    }
  }

  function Enclosed(bracket: byte, inside: Bytes): Bytes {
    [bracket] + inside + [Closer(bracket)]
  }

  lemma EnclosedTail(bracket: byte, inside: Bytes, rest: Bytes)
    ensures Enclosed(bracket, inside) + rest == [bracket] + (inside + ([Closer(bracket)] + rest))
    ensures (Enclosed(bracket, inside) + rest)[0] == bracket
    ensures (Enclosed(bracket, inside) + rest)[1..] == inside + ([Closer(bracket)] + rest)
    ensures ([Closer(bracket)] + rest)[1..] == rest
  {
  }

  function Deeper(bracket: byte, open: byte, depth: int): int {
    if open == bracket then depth + 1 else depth
  }

  lemma EncloseSkips(bracket: byte, inside: Bytes, rest: Bytes, open: byte, depth: int)
    requires IsBracketKind(bracket) && IsBracketKind(open) && depth >= 1
    requires var d := Deeper(bracket, open, depth); var close := [Closer(bracket)] + rest;
             Skips(inside + close, open, d) == Skips(close, open, d)
    ensures Skips(Enclosed(bracket, inside) + rest, open, depth) == Skips(rest, open, depth)
  {
    EnclosedTail(bracket, inside, rest);
  }

  lemma EncloseEnds(bracket: byte, inside: Bytes, rest: Bytes)
    requires IsBracketKind(bracket)
    requires var close := [Closer(bracket)] + rest; Skips(inside + close, bracket, 1) == Skips(close, bracket, 1)
    ensures ValueTail(Enclosed(bracket, inside) + rest) == Some(rest)
  {
    EnclosedTail(bracket, inside, rest);
    assert SkipSpace(Enclosed(bracket, inside) + rest) == Enclosed(bracket, inside) + rest;
  }

  lemma BlankSkips(blank: Bytes, rest: Bytes, open: byte, depth: int)
    requires IsBlank(blank) && IsBracketKind(open)
    ensures Skips(blank + rest, open, depth) == Skips(rest, open, depth)
  {
    BlanksArePlain(blank);
    LiteralSkips(blank, rest, open, depth);
  }

  /** Scanning past a whole value leaves the depth where it was, whichever bracket is counted. */
  lemma {:induction false} TreeSkips(t: Tree, rest: Bytes, open: byte, depth: int)
    requires WellFormed(t) && IsBracketKind(open) && depth >= 1
    ensures Skips(Print(t) + rest, open, depth) == Skips(rest, open, depth)
    decreases t, 1
  {
    match t
    case Str(raw) => QuotedSkips(raw, rest, open, depth);
    case Literal(text) => LiteralSkips(text, rest, open, depth);
    case Object(inside, fields) =>
      FieldsSkip(inside, fields, [RBRACE] + rest, open, Deeper(LBRACE, open, depth));
      EncloseSkips(LBRACE, inside + PrintFields(fields), rest, open, depth);
    case Array(inside, items) =>
      ItemsSkip(inside, items, [RBRACKET] + rest, open, Deeper(LBRACKET, open, depth));
      EncloseSkips(LBRACKET, inside + PrintItems(items), rest, open, depth);
  }

  lemma {:induction false} SpacedSkips(v: Spaced, rest: Bytes, open: byte, depth: int)
    requires WellFormedSpaced(v) && IsBracketKind(open) && depth >= 1
    ensures Skips(PrintSpaced(v) + rest, open, depth) == Skips(rest, open, depth)
    decreases v, 0
  {
    SpacedSplit(v, rest);
    BlankSkips(v.before, Print(v.tree) + (v.after + rest), open, depth);
    TreeSkips(v.tree, v.after + rest, open, depth);
    BlankSkips(v.after, rest, open, depth);
  }

  lemma ByteSkips(b: byte, rest: Bytes, open: byte, depth: int)
    requires IsBracketKind(open) && (b == COMMA || b == COLON)
    ensures Skips([b] + rest, open, depth) == Skips(rest, open, depth)
  {
    assert ([b] + rest)[1..] == rest;
  }

  lemma {:induction false} FieldsSkip(blank: Bytes, fields: seq<Field>, rest: Bytes, open: byte, depth: int)
    requires IsBlank(blank) && WellFormedFields(fields) && IsBracketKind(open) && depth >= 1
    ensures Skips(blank + PrintFields(fields) + rest, open, depth) == Skips(rest, open, depth)
    decreases fields, 0
  {
    assert blank + PrintFields(fields) + rest == blank + (PrintFields(fields) + rest);
    BlankSkips(blank, PrintFields(fields) + rest, open, depth);
    if fields == [] {
      assert PrintFields(fields) + rest == rest;
    } else {
      var f, more := fields[0], FieldsRest(fields, rest);
      var value := PrintSpaced(f.value) + more;
      FieldsSplit(fields, rest);
      BlankSkips(f.lead, Quoted(f.key) + (f.gap + ([COLON] + value)), open, depth);
      QuotedSkips(f.key, f.gap + ([COLON] + value), open, depth);
      BlankSkips(f.gap, [COLON] + value, open, depth);
      ByteSkips(COLON, value, open, depth);
      SpacedSkips(f.value, more, open, depth);
      if |fields| > 1 {
        ByteSkips(COMMA, PrintFields(fields[1..]) + rest, open, depth);
        FieldsSkip([], fields[1..], rest, open, depth);
        assert [] + PrintFields(fields[1..]) == PrintFields(fields[1..]);
      }
    }
  }

  lemma {:induction false} ItemsSkip(blank: Bytes, items: seq<Spaced>, rest: Bytes, open: byte, depth: int)
    requires IsBlank(blank) && WellFormedItems(items) && IsBracketKind(open) && depth >= 1
    ensures Skips(blank + PrintItems(items) + rest, open, depth) == Skips(rest, open, depth)
    decreases items, 0
  {
    assert blank + PrintItems(items) + rest == blank + (PrintItems(items) + rest);
    BlankSkips(blank, PrintItems(items) + rest, open, depth);
    if items == [] {
      assert PrintItems(items) + rest == rest;
    } else {
      var more := ItemsRest(items, rest);
      ItemsSplit(items, rest);
      SpacedSkips(items[0], more, open, depth);
      if |items| > 1 {
        ByteSkips(COMMA, PrintItems(items[1..]) + rest, open, depth);
        ItemsSkip([], items[1..], rest, open, depth);
        assert [] + PrintItems(items[1..]) == PrintItems(items[1..]);
      }
    }
  }

  // What is left of a field list, or of an item list, after its first value.

  function FieldsRest(fields: seq<Field>, rest: Bytes): Bytes
    requires fields != []
  {
    if |fields| == 1 then rest else [COMMA] + (PrintFields(fields[1..]) + rest)
  }

  lemma FieldsSplit(fields: seq<Field>, rest: Bytes)
    requires fields != []
    ensures var f, value := fields[0], PrintSpaced(fields[0].value) + FieldsRest(fields, rest);
            PrintFields(fields) + rest == f.lead + (Quoted(f.key) + (f.gap + ([COLON] + value)))
  {
    var f, more := fields[0], if |fields| == 1 then [] else [COMMA] + PrintFields(fields[1..]);
    assert more + rest == FieldsRest(fields, rest);
    FieldSplit(f, more + rest);
    assert PrintField(f) + more + rest == PrintField(f) + (more + rest);
  }

  lemma FieldSplit(f: Field, rest: Bytes)
    ensures PrintField(f) + rest == f.lead + (Quoted(f.key) + (f.gap + ([COLON] + (PrintSpaced(f.value) + rest))))
  {
  }

  lemma SpacedSplit(v: Spaced, rest: Bytes)
    ensures PrintSpaced(v) + rest == v.before + (Print(v.tree) + (v.after + rest))
  {
  }

  function ItemsRest(items: seq<Spaced>, rest: Bytes): Bytes
    requires items != []
  {
    if |items| == 1 then rest else [COMMA] + (PrintItems(items[1..]) + rest)
  }

  lemma ItemsSplit(items: seq<Spaced>, rest: Bytes)
    requires items != []
    ensures PrintItems(items) + rest == PrintSpaced(items[0]) + ItemsRest(items, rest)
  {
    var more := if |items| == 1 then [] else [COMMA] + PrintItems(items[1..]);
    assert more + rest == ItemsRest(items, rest);
    assert PrintSpaced(items[0]) + more + rest == PrintSpaced(items[0]) + (more + rest);
  }

  // ----- the end of a value -----

  lemma {:induction false} BlankEnds(rest: Bytes)
    requires Delimited(rest)
    ensures LiteralTail(rest) == SkipSpace(rest)
  {
    if rest != [] && IsSpace(rest[0]) { BlankEnds(rest[1..]); }
  }

  /** A bare literal is scanned up to its delimiter, blanks included. */
  lemma {:induction false} LiteralEnds(text: Bytes, rest: Bytes)
    requires forall b :: b in text ==> IsLiteralByte(b)
    requires Delimited(rest)
    ensures LiteralTail(text + rest) == SkipSpace(rest)
  {
    if text == [] {
      assert text + rest == rest;
      BlankEnds(rest);
    } else {
      Uncons(text, rest);
      assert text[0] in text;
      LiteralEnds(text[1..], rest);
    }
  }

  lemma PrintStarts(t: Tree)
    requires WellFormed(t)
    ensures Print(t) != [] && !IsSpace(Print(t)[0]) && !EndsLiteral(Print(t)[0])
    ensures Print(t)[0] == QUOTE <==> t.Str?
    ensures Print(t)[0] == LBRACE <==> t.Object?
    ensures Print(t)[0] == LBRACKET <==> t.Array?
    ensures !IsSpace(Print(t)[|Print(t)| - 1])
  {
    if t.Literal? {
      assert t.text[0] in t.text;
    }
  }

  lemma NoLeadingSpace(t: Tree, rest: Bytes)
    requires WellFormed(t)
    ensures SkipSpace(Print(t) + rest) == Print(t) + rest && (Print(t) + rest)[0] == Print(t)[0]
    ensures Before(Print(t) + rest, rest) == Print(t)
  {
    PrintStarts(t);
    assert (Print(t) + rest)[0] == Print(t)[0];
  }

  /** Where the scanner stops behind a value: right there, or behind the blanks that follow a bare literal. */
  function End(t: Tree, rest: Bytes): Bytes {
    if t.Literal? then SkipSpace(rest) else rest
  }

  /** The scanner stops exactly where the printed value does. */
  lemma ValueEnds(t: Tree, rest: Bytes)
    requires WellFormed(t) && Delimited(rest)
    ensures ValueTail(Print(t) + rest) == Some(End(t, rest))
  {
    match t
    case Str(raw) =>
      assert (Quoted(raw) + rest)[1..] == raw + ([QUOTE] + rest);
      StringSkips(raw, rest);
    case Literal(text) =>
      PrintStarts(t);
      NoLeadingSpace(t, rest);
      LiteralEnds(text, rest);
    case Object(inside, fields) =>
      FieldsSkip(inside, fields, [RBRACE] + rest, LBRACE, 1);
      EncloseEnds(LBRACE, inside + PrintFields(fields), rest);
    case Array(inside, items) =>
      ItemsSkip(inside, items, [RBRACKET] + rest, LBRACKET, 1);
      EncloseEnds(LBRACKET, inside + PrintItems(items), rest);
  }

  // ----- finding a key -----

  /** A byte that can come behind the closing quote of a string. */
  predicate FollowsString(b: byte) {
    IsSpace(b) || EndsLiteral(b) || b == COLON
  }

  /** A key that can stand between the quotes of a string, and begins unlike what comes behind one. */
  predicate IsSearchable(key: Bytes) {
    Escaped(key) && (key == [] || !FollowsString(key[0]))
  }

  /**
   Whether a key search takes the field for the key it wants: the name is the key, or it ends in an
   escaped quote followed by the key.
   */
  predicate Answers(name: Bytes, key: Bytes) {
    name == key || Imitates(name, key)
  }

  /** A name that ends in an escaped quote and the key. */
  predicate Imitates(name: Bytes, key: Bytes) {
    EndsWith(name, [QUOTE] + key)
  }

  predicate EndsWith(s: Bytes, end: Bytes) {
    |end| <= |s| && s[|s| - |end|..] == end
  }

  /** The value of the first field, in document order, that answers to the key, with its blanks. */
  function Slot(t: Tree, key: Bytes): Option<Spaced>
    decreases t, 1
  {
    match t
    case Object(_, fields) => SlotInFields(fields, key)
    case Array(_, items) => SlotInItems(items, key)
    case _ => None
  }

  function SlotInFields(fields: seq<Field>, key: Bytes): Option<Spaced>
    decreases fields, 0
  {
    if fields == [] then None
    else if Answers(fields[0].key, key) then Some(fields[0].value)
    else
      var inner := Slot(fields[0].value.tree, key);
      if inner.Some? then inner else SlotInFields(fields[1..], key)
  }

  function SlotInItems(items: seq<Spaced>, key: Bytes): Option<Spaced>
    decreases items, 0
  {
    if items == [] then None
    else
      var inner := Slot(items[0].tree, key);
      if inner.Some? then inner else SlotInItems(items[1..], key)
  }

  function Lookup(t: Tree, key: Bytes): Option<Tree> {
    TreeOf(Slot(t, key))
  }

  function TreeOf(v: Option<Spaced>): Option<Tree> {
    match v case None => None case Some(found) => Some(found.tree)
  }

  /** A byte that is no quote cannot start a match. */
  lemma KeySkipsByte(s: Bytes, key: Bytes)
    requires s != [] && s[0] != QUOTE
    ensures KeyTail(s, key) == KeyTail(s[1..], key)
  {
    if |s| >= |key| + 2 {
      assert Quoted(key)[0] == QUOTE;
    }
  }

  lemma {:induction false} KeySkipsBytes(a: Bytes, rest: Bytes, key: Bytes)
    requires QUOTE !in a
    ensures KeyTail(a + rest, key) == KeyTail(rest, key)
  {
    if a == [] {
      assert a + rest == rest;
    } else {
      Uncons(a, rest);
      KeySkipsByte(a + rest, key);
      KeySkipsBytes(a[1..], rest, key);
    }
  }

  /** The quote that closes a string does not start a match. */
  lemma KeySkipsClosing(rest: Bytes, key: Bytes)
    requires IsSearchable(key) && (rest == [] || FollowsString(rest[0]))
    ensures KeyTail([QUOTE] + rest, key) == KeyTail(rest, key)
  {
    var s := [QUOTE] + rest;
    assert s[1..] == rest;
    assert |s| >= |key| + 2 ==> s[1] == rest[0] && Quoted(key)[1] == if key == [] then QUOTE else key[0];
  }

  /**
   A match at a quote inside a string, or at its opening quote, must end at the closing quote: escapes are
   read in step in both.
   */
  lemma {:induction false} MatchIsWhole(raw: Bytes, rest: Bytes, key: Bytes)
    requires Escaped(raw) && Escaped(key)
    requires key + [QUOTE] <= raw + ([QUOTE] + rest)
    ensures raw == key
  {
    var s := raw + ([QUOTE] + rest);
    assert s[|key|] == (key + [QUOTE])[|key|] == QUOTE;
    assert key != [] ==> (key + [QUOTE])[0] == key[0] == s[0];
    if raw == [] || key == [] {
    } else if raw[0] != BACKSLASH {
      DropFront(key, raw, rest, 1);
      MatchIsWhole(raw[1..], rest, key[1..]);
      assert raw == [raw[0]] + raw[1..] && key == [key[0]] + key[1..];
    } else {
      assert (key + [QUOTE])[1] == s[1];
      DropFront(key, raw, rest, 2);
      MatchIsWhole(raw[2..], rest, key[2..]);
      assert raw == raw[..2] + raw[2..] && key == key[..2] + key[2..];
    }
  }

  lemma DropFront(key: Bytes, raw: Bytes, rest: Bytes, n: nat)
    requires n <= |key| && n <= |raw| && key + [QUOTE] <= raw + ([QUOTE] + rest)
    ensures key[n..] + [QUOTE] <= raw[n..] + ([QUOTE] + rest)
  {
    assert (key + [QUOTE])[n..] == key[n..] + [QUOTE];
    assert (raw + ([QUOTE] + rest))[n..] == raw[n..] + ([QUOTE] + rest);
  }

  lemma MatchTail(rest: Bytes, key: Bytes)
    ensures KeyTail(Quoted(key) + rest, key)
         == var after := SkipSpace(rest);
            if after != [] && after[0] == COLON then Some(after[1..]) else KeyTail(rest, key)
  {
    var s := Quoted(key) + rest;
    assert |s| >= |key| + 2 && Quoted(key) <= s && s[|key| + 2..] == rest;
  }

  /** A match is not accepted where a value ends. */
  lemma MatchRejected(rest: Bytes, key: Bytes)
    requires Delimited(rest)
    ensures KeyTail(Quoted(key) + rest, key) == KeyTail(rest, key)
  {
    MatchTail(rest, key);
  }

  lemma MatchAccepted(gap: Bytes, rest: Bytes, key: Bytes)
    requires IsBlank(gap)
    ensures KeyTail(Quoted(key) + (gap + ([COLON] + rest)), key) == Some(rest)
  {
    var colon := [COLON] + rest;
    MatchTail(gap + colon, key);
    BlanksAreSkipped(gap, colon);
    assert SkipSpace(colon) == colon && colon[1..] == rest;
  }

  /** No part of a string value is taken for a key, whatever the string holds. */
  lemma {:induction false} KeySkipsString(raw: Bytes, rest: Bytes, key: Bytes)
    requires Escaped(raw) && IsSearchable(key) && Delimited(rest)
    ensures KeyTail([QUOTE] + (raw + ([QUOTE] + rest)), key) == KeyTail(rest, key)
    decreases |raw|, 1
  {
    var s := [QUOTE] + (raw + ([QUOTE] + rest));
    assert s[1..] == raw + ([QUOTE] + rest);
    KeySkipsInside(raw, rest, key);
    if |s| >= |key| + 2 && Quoted(key) <= s {
      assert Quoted(key)[1..] == key + [QUOTE];
      MatchIsWhole(raw, rest, key);
      MatchRejected(rest, key);
      assert s == Quoted(key) + rest;
    }
  }

  lemma {:induction false} KeySkipsInside(raw: Bytes, rest: Bytes, key: Bytes)
    requires Escaped(raw) && IsSearchable(key) && Delimited(rest)
    ensures KeyTail(raw + ([QUOTE] + rest), key) == KeyTail(rest, key)
    decreases |raw|, 0
  {
    var tail := [QUOTE] + rest;
    if raw == [] {
      assert raw + tail == tail;
      DelimitedStarts(rest);
      KeySkipsClosing(rest, key);
    } else if raw[0] != BACKSLASH {
      Uncons(raw, tail);
      KeySkipsByte(raw + tail, key);
      KeySkipsInside(raw[1..], rest, key);
    } else {
      KeyAfterEscape(raw, tail, key);
      if raw[1] == QUOTE {
        KeySkipsString(raw[2..], rest, key);
      } else {
        KeySkipsInside(raw[2..], rest, key);
      }
    }
  }

  /** A name is searched like any string, but a match that ends it is accepted. */
  lemma {:induction false} KeyInName(name: Bytes, gap: Bytes, rest: Bytes, key: Bytes)
    requires Escaped(name) && IsBlank(gap) && IsSearchable(key)
    ensures KeyTail([QUOTE] + (name + ([QUOTE] + (gap + ([COLON] + rest)))), key)
         == if Answers(name, key) then Some(rest) else KeyTail(rest, key)
    decreases |name|, 1
  {
    var colon := gap + ([COLON] + rest);
    var s := [QUOTE] + (name + ([QUOTE] + colon));
    assert s[1..] == name + ([QUOTE] + colon);
    if name == key {
      assert s == Quoted(key) + colon;
      MatchAccepted(gap, rest, key);
    } else {
      if |s| >= |key| + 2 && Quoted(key) <= s {
        assert Quoted(key)[1..] == key + [QUOTE];
        MatchIsWhole(name, colon, key);
      }
      KeyInsideName(name, gap, rest, key);
    }
  }

  lemma {:induction false} KeyInsideName(name: Bytes, gap: Bytes, rest: Bytes, key: Bytes)
    requires Escaped(name) && IsBlank(gap) && IsSearchable(key)
    ensures KeyTail(name + ([QUOTE] + (gap + ([COLON] + rest))), key)
         == if EndsWith(name, [QUOTE] + key) then Some(rest) else KeyTail(rest, key)
    decreases |name|, 0
  {
    var tail := [QUOTE] + (gap + ([COLON] + rest));
    if name == [] {
      assert name + tail == tail;
      KeyAfterName(gap, rest, key);
    } else if name[0] != BACKSLASH {
      Uncons(name, tail);
      KeySkipsByte(name + tail, key);
      EndsLater(name, [QUOTE] + key);
      KeyInsideName(name[1..], gap, rest, key);
    } else {
      EndsAfterEscape(name, key);
      KeyAfterEscape(name, tail, key);
      if name[1] == QUOTE {
        KeyInName(name[2..], gap, rest, key);
      } else {
        KeyInsideName(name[2..], gap, rest, key);
      }
    }
  }

  lemma KeyAfterName(gap: Bytes, rest: Bytes, key: Bytes)
    requires IsBlank(gap) && IsSearchable(key)
    ensures KeyTail([QUOTE] + (gap + ([COLON] + rest)), key) == KeyTail(rest, key)
  {
    var colon := gap + ([COLON] + rest);
    BlanksArePlain(gap);
    assert gap != [] ==> gap[0] in gap && colon[0] == gap[0];
    assert gap == [] ==> colon[0] == COLON;
    KeySkipsClosing(colon, key);
    assert colon == gap + [COLON] + rest;
    KeySkipsBytes(gap + [COLON], rest, key);
  }

  lemma KeyAfterEscape(raw: Bytes, tail: Bytes, key: Bytes)
    requires |raw| >= 2 && raw[0] == BACKSLASH
    ensures KeyTail(raw + tail, key)
         == KeyTail(if raw[1] == QUOTE then [QUOTE] + (raw[2..] + tail) else raw[2..] + tail, key)
  {
    var s := raw + tail;
    Uncons(raw, tail);
    KeySkipsByte(s, key);
    assert s[1..] == [raw[1]] + (raw[2..] + tail);
    if raw[1] != QUOTE {
      KeySkipsByte(s[1..], key);
      assert s[1..][1..] == raw[2..] + tail;
    }
  }

  lemma EndsAfterEscape(name: Bytes, key: Bytes)
    requires |name| >= 2 && name[0] == BACKSLASH
    ensures EndsWith(name, [QUOTE] + key)
       <==> (name[1] == QUOTE && Answers(name[2..], key)) || (name[1] != QUOTE && EndsWith(name[2..], [QUOTE] + key))
  {
    var end := [QUOTE] + key;
    assert end[1..] == key && name[1..][1..] == name[2..];
    EndsLater(name, end);
    EndsLater(name[1..], end);
  }

  /** A string ends with `end` if it is `end`, or if what follows its first byte does. */
  lemma EndsLater(s: Bytes, end: Bytes)
    requires s != [] && end != []
    ensures EndsWith(s, end) <==> EndsWith(s[1..], end) || (s[0] == end[0] && s[1..] == end[1..])
  {
    if |end| < |s| {
      assert s[1..][|s| - 1 - |end|..] == s[|s| - |end|..];
    } else if |end| == |s| {
      assert s == [s[0]] + s[1..] && end == [end[0]] + end[1..];
    }
  }

  lemma KeyAtField(name: Bytes, gap: Bytes, rest: Bytes, key: Bytes)
    requires Escaped(name) && IsBlank(gap) && IsSearchable(key)
    ensures KeyTail(Quoted(name) + (gap + ([COLON] + rest)), key)
         == if Answers(name, key) then Some(rest) else KeyTail(rest, key)
  {
    QuotedSplit(name, gap + ([COLON] + rest));
    KeyInName(name, gap, rest, key);
  }

  lemma QuotedSplit(name: Bytes, rest: Bytes)
    ensures Quoted(name) + rest == [QUOTE] + (name + ([QUOTE] + rest))
  {
  }

  lemma KeySkipsBlank(blank: Bytes, rest: Bytes, key: Bytes)
    requires IsBlank(blank)
    ensures KeyTail(blank + rest, key) == KeyTail(rest, key)
  {
    BlanksArePlain(blank);
    KeySkipsBytes(blank, rest, key);
  }

  /** What `KeyTail` finds in the text of a value that holds the key at `found`. */
  predicate Lands(s: Bytes, key: Bytes, found: Spaced, tail: Bytes) {
    Delimited(tail) && KeyTail(s, key) == Some(PrintSpaced(found) + tail)
  }

  /** The key search walks a printed tree in document order. */
  lemma {:induction false} KeyInTree(t: Tree, rest: Bytes, key: Bytes) returns (tail: Bytes)
    requires WellFormed(t) && IsSearchable(key) && Delimited(rest)
    ensures match Slot(t, key)
            case None => KeyTail(Print(t) + rest, key) == KeyTail(rest, key)
            case Some(v) => Lands(Print(t) + rest, key, v, tail)
    decreases t, 1
  {
    tail := [];
    match t
    case Str(raw) =>
      assert Quoted(raw) + rest == [QUOTE] + (raw + ([QUOTE] + rest));
      KeySkipsString(raw, rest, key);
    case Literal(text) =>
      KeySkipsBytes(text, rest, key);
    case Object(inside, fields) =>
      EnclosedTail(LBRACE, inside + PrintFields(fields), rest);
      KeySkipsByte(Print(t) + rest, key);
      tail := KeyInFields(inside, fields, [RBRACE] + rest, key);
      KeySkipsByte([RBRACE] + rest, key);
    case Array(inside, items) =>
      EnclosedTail(LBRACKET, inside + PrintItems(items), rest);
      KeySkipsByte(Print(t) + rest, key);
      tail := KeyInItems(inside, items, [RBRACKET] + rest, key);
      KeySkipsByte([RBRACKET] + rest, key);
  }

  lemma {:induction false} KeyInSpaced(v: Spaced, rest: Bytes, key: Bytes) returns (tail: Bytes)
    requires WellFormedSpaced(v) && IsSearchable(key) && Delimited(rest)
    ensures match Slot(v.tree, key)
            case None => KeyTail(PrintSpaced(v) + rest, key) == KeyTail(rest, key)
            case Some(found) => Lands(PrintSpaced(v) + rest, key, found, tail)
    decreases v, 0
  {
    SpacedSplit(v, rest);
    KeySkipsBlank(v.before, Print(v.tree) + (v.after + rest), key);
    BlanksAreSkipped(v.after, rest);
    tail := KeyInTree(v.tree, v.after + rest, key);
    KeySkipsBlank(v.after, rest, key);
  }

  lemma {:induction false} KeyInFields(blank: Bytes, fields: seq<Field>, rest: Bytes, key: Bytes) returns (tail: Bytes)
    requires IsBlank(blank) && WellFormedFields(fields) && IsSearchable(key) && Delimited(rest)
    ensures match SlotInFields(fields, key)
            case None => KeyTail(blank + PrintFields(fields) + rest, key) == KeyTail(rest, key)
            case Some(v) => Lands(blank + PrintFields(fields) + rest, key, v, tail)
    decreases fields, 0
  {
    tail := [];
    assert blank + PrintFields(fields) + rest == blank + (PrintFields(fields) + rest);
    KeySkipsBlank(blank, PrintFields(fields) + rest, key);
    if fields == [] {
      assert PrintFields(fields) + rest == rest;
    } else {
      var f, more := fields[0], FieldsRest(fields, rest);
      var value := PrintSpaced(f.value) + more;
      FieldsSplit(fields, rest);
      KeySkipsBlank(f.lead, Quoted(f.key) + (f.gap + ([COLON] + value)), key);
      KeyAtField(f.key, f.gap, value, key);
      if Answers(f.key, key) {
        tail := more;
      } else {
        tail := KeyInSpaced(f.value, more, key);
        if Slot(f.value.tree, key).None? && |fields| > 1 {
          KeySkipsByte(more, key);
          assert more[1..] == [] + PrintFields(fields[1..]) + rest;
          tail := KeyInFields([], fields[1..], rest, key);
        }
      }
    }
  }

  lemma {:induction false} KeyInItems(blank: Bytes, items: seq<Spaced>, rest: Bytes, key: Bytes) returns (tail: Bytes)
    requires IsBlank(blank) && WellFormedItems(items) && IsSearchable(key) && Delimited(rest)
    ensures match SlotInItems(items, key)
            case None => KeyTail(blank + PrintItems(items) + rest, key) == KeyTail(rest, key)
            case Some(v) => Lands(blank + PrintItems(items) + rest, key, v, tail)
    decreases items, 0
  {
    tail := [];
    assert blank + PrintItems(items) + rest == blank + (PrintItems(items) + rest);
    KeySkipsBlank(blank, PrintItems(items) + rest, key);
    if items == [] {
      assert PrintItems(items) + rest == rest;
    } else {
      var more := ItemsRest(items, rest);
      ItemsSplit(items, rest);
      tail := KeyInSpaced(items[0], more, key);
      if Slot(items[0].tree, key).None? && |items| > 1 {
        KeySkipsByte(more, key);
        assert more[1..] == [] + PrintItems(items[1..]) + rest;
        tail := KeyInItems([], items[1..], rest, key);
      }
    }
  }

  // ----- the three finders on the text of a tree -----

  /** A value as `find_value` reports it: strings unescaped, everything else as printed. */
  function Reading(t: Tree): Bytes {
    match t
    case Str(raw) => Unescape(raw)
    case _ => Print(t)
  }

  lemma {:induction false} TrimBlanks(text: Bytes, blank: Bytes)
    requires text != [] && !IsSpace(text[|text| - 1]) && IsBlank(blank)
    ensures TrimRight(text + blank) == text
    decreases |blank|
  {
    var s := text + blank;
    if blank == [] {
      assert s == text;
    } else {
      assert s[|s| - 1] == blank[|blank| - 1] && blank[|blank| - 1] in blank;
      assert s[..|s| - 1] == text + blank[..|blank| - 1];
      TrimBlanks(text, blank[..|blank| - 1]);
    }
  }

  /** Behind the blanks before it a value is scanned as without them. */
  lemma SpacedStarts(v: Spaced, tail: Bytes)
    requires WellFormedSpaced(v) && Delimited(tail)
    ensures var s, rest := PrintSpaced(v) + tail, v.after + tail;
            && Print(v.tree) != [] && SkipSpace(s) == Print(v.tree) + rest && SkipSpace(s)[0] == Print(v.tree)[0]
            && Delimited(rest)
            && ValueTail(s) == ValueTail(SkipSpace(s)) == Some(End(v.tree, rest))
  {
    var rest := v.after + tail;
    PrintStarts(v.tree);
    SpacedSplit(v, tail);
    BlanksAreSkipped(v.before, Print(v.tree) + rest);
    BlanksAreSkipped(v.after, tail);
    NoLeadingSpace(v.tree, rest);
    ValueEnds(v.tree, rest);
  }

  lemma BeforeRest(text: Bytes, blank: Bytes, rest: Bytes)
    ensures Before(text + (blank + rest), rest) == text + blank
  {
    assert text + (blank + rest) == text + blank + rest;
  }

  /** The text of a value up to where the scanner stops: only a bare literal has blanks behind it in that. */
  lemma ScannedText(t: Tree, rest: Bytes)
    requires WellFormed(t) && Delimited(rest)
    ensures var value := Before(Print(t) + rest, End(t, rest));
            value != [] && value[0] == Print(t)[0] && TrimRight(value) == Print(t) && (!t.Literal? ==> value == Print(t))
  {
    PrintStarts(t);
    var blank := LeadingBlanks(rest);
    if t.Literal? {
      BeforeRest(Print(t), blank, SkipSpace(rest));
      TrimBlanks(Print(t), blank);
    } else {
      BeforeRest(Print(t), [], rest);
      TrimBlanks(Print(t), []);
      assert Print(t) + [] == Print(t);
    }
  }

  lemma ReadValueOf(v: Spaced, tail: Bytes)
    requires WellFormedSpaced(v) && Delimited(tail)
    ensures ReadValue(PrintSpaced(v) + tail) == Some(Reading(v.tree))
  {
    SpacedStarts(v, tail);
    ScannedText(v.tree, v.after + tail);
    PrintStarts(v.tree);
    if v.tree.Str? {
      UnquotedInside(v.tree.raw);
    }
  }

  lemma UnquotedInside(raw: Bytes)
    ensures Quoted(raw) != [] && Quoted(raw)[1..|Quoted(raw)| - 1] == raw
  {
  }

  lemma ReadObjectOf(v: Spaced, tail: Bytes)
    requires WellFormedSpaced(v) && Delimited(tail)
    ensures ReadObject(PrintSpaced(v) + tail) == if v.tree.Object? then Some(Print(v.tree)) else None
  {
    SpacedStarts(v, tail);
    ScannedText(v.tree, v.after + tail);
    PrintStarts(v.tree);
  }

  /** An element as the listing shows it: a bare literal keeps the blanks behind it. */
  function Shown(v: Spaced): Bytes {
    if v.tree.Literal? then Print(v.tree) + v.after else Print(v.tree)
  }

  function ShowAll(items: seq<Spaced>): seq<Bytes> {
    if items == [] then [] else [Shown(items[0])] + ShowAll(items[1..])
  }

  lemma {:induction false} SeparatorsSkipBlanks(blank: Bytes, rest: Bytes, bound: nat)
    requires IsBlank(blank) && bound < |rest|
    ensures SkipSeparators(blank + rest, bound) == SkipSeparators(rest, bound)
  {
    if blank == [] {
      assert blank + rest == rest;
    } else {
      Uncons(blank, rest);
      assert blank[0] in blank;
      SeparatorsSkipBlanks(blank[1..], rest, bound);
    }
  }

  lemma ElementsSkipBlanks(blank: Bytes, rest: Bytes, bound: nat)
    requires IsBlank(blank) && bound < |rest|
    ensures Elements(blank + rest, bound) == Elements(rest, bound)
  {
    SeparatorsSkipBlanks(blank, rest, bound);
  }

  lemma ElementsSkipComma(rest: Bytes, bound: nat)
    requires bound < |rest|
    ensures Elements([COMMA] + rest, bound) == Elements(rest, bound)
  {
    assert ([COMMA] + rest)[1..] == rest;
  }

  lemma ElementStarts(v: Spaced, rest: Bytes, bound: nat)
    requires WellFormedSpaced(v) && bound <= |rest|
    ensures var u := Print(v.tree) + (v.after + rest);
            && Print(v.tree) != [] && SkipSeparators(PrintSpaced(v) + rest, bound) == u
            && u[0] == Print(v.tree)[0] && u[0] != RBRACKET && |u| > bound
  {
    SpacedSplit(v, rest);
    PrintStarts(v.tree);
    var u := Print(v.tree) + (v.after + rest);
    assert u[0] == Print(v.tree)[0];
    SeparatorsSkipBlanks(v.before, u, bound);
  }

  /** A byte that ends a literal comes next. */
  predicate StartsDelimited(s: Bytes) {
    s != [] && EndsLiteral(s[0])
  }

  lemma ShownText(v: Spaced, more: Bytes)
    requires WellFormedSpaced(v) && StartsDelimited(more)
    ensures var u, end := Print(v.tree) + (v.after + more), End(v.tree, v.after + more);
            && |end| < |u| && Before(u, end) == Shown(v)
            && end == if v.tree.Literal? then more else v.after + more
  {
    PrintStarts(v.tree);
    BlanksAreSkipped(v.after, more);
    assert SkipSpace(more) == more;
    assert Print(v.tree) + (v.after + more) == Print(v.tree) + v.after + more;
  }

  lemma FirstElement(v: Spaced, more: Bytes, bound: nat)
    requires WellFormedSpaced(v) && StartsDelimited(more) && bound < |more|
    ensures var later := Elements(more, bound);
            Elements(PrintSpaced(v) + more, bound) == Listing([Shown(v)] + later.items, later.endless)
  {
    var s, u, end := PrintSpaced(v) + more, Print(v.tree) + (v.after + more), End(v.tree, v.after + more);
    assert Delimited(more) by { assert SkipSpace(more) == more; }
    SpacedStarts(v, more);
    ElementStarts(v, more, bound);
    ShownText(v, more);
    ElementsSkipBlanks(v.after, more, bound);
    assert ValueTail(u) == Some(end);
    assert |s| > bound;
  }

  /** The listing loop yields exactly the elements shown, and ends. */
  lemma {:induction false} ElementsOf(items: seq<Spaced>, tail: Bytes)
    requires WellFormedItems(items)
    ensures Elements(PrintItems(items) + ([RBRACKET] + tail), |tail|) == Listing(ShowAll(items), false)
    decreases items
  {
    var close := [RBRACKET] + tail;
    if items == [] {
      assert PrintItems(items) + close == close;
    } else {
      var more := ItemsRest(items, close);
      ItemsSplit(items, close);
      FirstElement(items[0], more, |tail|);
      if |items| > 1 {
        ElementsOf(items[1..], tail);
        ElementsSkipComma(PrintItems(items[1..]) + close, |tail|);
      } else {
        assert items[1..] == [];
        ElementsOf([], tail);
        assert PrintItems([]) + close == close;
      }
    }
  }

  lemma ReadArrayOf(v: Spaced, tail: Bytes)
    requires WellFormedSpaced(v) && Delimited(tail)
    ensures ReadArray(PrintSpaced(v) + tail) == Listing(if v.tree.Array? then ShowAll(v.tree.items) else [], false)
  {
    var rest := v.after + tail;
    SpacedStarts(v, tail);
    PrintStarts(v.tree);
    if v.tree.Array? {
      var inside, items := v.tree.inside, v.tree.items;
      EnclosedTail(LBRACKET, inside + PrintItems(items), rest);
      var close := [RBRACKET] + rest;
      assert inside + PrintItems(items) + close == inside + (PrintItems(items) + close);
      ElementsSkipBlanks(inside, PrintItems(items) + close, |rest|);
      ElementsOf(items, rest);
    }
  }

  /** A text without blanks around it. */
  function Bare(t: Tree): Spaced {
    Spaced([], t, [])
  }

  lemma BareText(t: Tree)
    ensures PrintSpaced(Bare(t)) == Print(t) && (WellFormedSpaced(Bare(t)) <==> WellFormed(t))
  {
  }

  /** `find_value` reports the first field, in document order, that answers to the key. */
  lemma FindValueInTree(v: Spaced, key: Bytes)
    requires WellFormedSpaced(v) && IsSearchable(key)
    ensures FindValue(PrintSpaced(v), key)
         == match Lookup(v.tree, key) case None => None case Some(found) => Some(Reading(found))
  {
    var tail := KeyInText(v, key);
    if Slot(v.tree, key).Some? {
      ReadValueOf(Slot(v.tree, key).value, tail);
    }
  }

  /** `find_object` reports it only if it is an object. */
  lemma FindObjectInTree(v: Spaced, key: Bytes)
    requires WellFormedSpaced(v) && IsSearchable(key)
    ensures FindObject(PrintSpaced(v), key)
         == match Lookup(v.tree, key)
            case None => None
            case Some(found) => if found.Object? then Some(Print(found)) else None
  {
    var tail := KeyInText(v, key);
    if Slot(v.tree, key).Some? {
      ReadObjectOf(Slot(v.tree, key).value, tail);
    }
  }

  /** `find_array_objects` reports the elements of it, if it is an array, and always ends. */
  lemma FindArrayInTree(v: Spaced, key: Bytes)
    requires WellFormedSpaced(v) && IsSearchable(key)
    ensures FindArrayObjects(PrintSpaced(v), key)
         == Listing(match Lookup(v.tree, key)
                    case None => []
                    case Some(found) => if found.Array? then ShowAll(found.items) else [], false)
  {
    var tail := KeyInText(v, key);
    if Slot(v.tree, key).Some? {
      ReadArrayOf(Slot(v.tree, key).value, tail);
    }
  }

  lemma KeyInText(v: Spaced, key: Bytes) returns (tail: Bytes)
    requires WellFormedSpaced(v) && IsSearchable(key)
    ensures match Slot(v.tree, key)
            case None => KeyTail(PrintSpaced(v), key) == None
            case Some(found) => WellFormedSpaced(found) && Lands(PrintSpaced(v), key, found, tail)
  {
    assert PrintSpaced(v) + [] == PrintSpaced(v);
    tail := KeyInSpaced(v, [], key);
    SlotIsWellFormed(v.tree, key);
  }

  lemma {:induction false} SlotIsWellFormed(t: Tree, key: Bytes)
    requires WellFormed(t)
    ensures Slot(t, key).Some? ==> WellFormedSpaced(Slot(t, key).value)
    decreases t, 1
  {
    match t
    case Object(_, fields) => FieldsAreWellFormed(fields, key);
    case Array(_, items) => ItemsAreWellFormed(items, key);
    case _ =>
  }

  lemma {:induction false} FieldsAreWellFormed(fields: seq<Field>, key: Bytes)
    requires WellFormedFields(fields)
    ensures SlotInFields(fields, key).Some? ==> WellFormedSpaced(SlotInFields(fields, key).value)
    decreases fields, 0
  {
    if fields == [] {
    } else {
      SlotIsWellFormed(fields[0].value.tree, key);
      FieldsAreWellFormed(fields[1..], key);
    }
  }

  lemma {:induction false} ItemsAreWellFormed(items: seq<Spaced>, key: Bytes)
    requires WellFormedItems(items)
    ensures SlotInItems(items, key).Some? ==> WellFormedSpaced(SlotInItems(items, key).value)
    decreases items, 0
  {
    if items == [] {
    } else {
      SlotIsWellFormed(items[0].tree, key);
      ItemsAreWellFormed(items[1..], key);
    }
  }

  /** Listing is endless exactly when an element would begin with a closing brace. */
  lemma StuckElement(u: Bytes)
    requires u != [] && !IsSpace(u[0]) && u[0] != COMMA && u[0] != RBRACKET
    ensures ValueTail(u) == Some(u) <==> u[0] == RBRACE
  {
    assert SkipSpace(u) == u;
  }

  // ----- plain keys -----

  /** No key holds a quote, not even an escaped one. */
  predicate PlainKeys(t: Tree)
    decreases t, 1
  {
    match t
    case Object(_, fields) => PlainFields(fields)
    case Array(_, items) => PlainItems(items)
    case _ => true
  }

  predicate PlainFields(fields: seq<Field>)
    decreases fields, 0
  {
    fields == [] || (QUOTE !in fields[0].key && PlainKeys(fields[0].value.tree) && PlainFields(fields[1..]))
  }

  predicate PlainItems(items: seq<Spaced>)
    decreases items, 0
  {
    items == [] || (PlainKeys(items[0].tree) && PlainItems(items[1..]))
  }

  lemma EndIsInside(s: Bytes, end: Bytes)
    requires end != []
    ensures EndsWith(s, end) ==> end[0] in s
  {
    if EndsWith(s, end) {
      assert s[|s| - |end|] == s[|s| - |end|..][0];
    }
  }

  /** A name without quotes answers to itself only. */
  lemma PlainAnswers(name: Bytes, key: Bytes)
    requires QUOTE !in name
    ensures Answers(name, key) <==> name == key
  {
    EndIsInside(name, [QUOTE] + key);
  }

  /** The value of the first field, in document order, whose name is the key. */
  function Named(t: Tree, key: Bytes): Option<Tree>
    decreases t, 1
  {
    match t
    case Object(_, fields) => NamedField(fields, key)
    case Array(_, items) => NamedItem(items, key)
    case _ => None
  }

  function NamedField(fields: seq<Field>, key: Bytes): Option<Tree>
    decreases fields, 0
  {
    if fields == [] then None
    else if fields[0].key == key then Some(fields[0].value.tree)
    else
      var inner := Named(fields[0].value.tree, key);
      if inner.Some? then inner else NamedField(fields[1..], key)
  }

  function NamedItem(items: seq<Spaced>, key: Bytes): Option<Tree>
    decreases items, 0
  {
    if items == [] then None
    else
      var inner := Named(items[0].tree, key);
      if inner.Some? then inner else NamedItem(items[1..], key)
  }

  lemma {:induction false} PlainLookup(t: Tree, key: Bytes)
    requires PlainKeys(t)
    ensures TreeOf(Slot(t, key)) == Named(t, key)
    decreases t, 1
  {
    match t
    case Object(_, fields) => PlainFieldLookup(fields, key);
    case Array(_, items) => PlainItemLookup(items, key);
    case _ =>
  }

  lemma {:induction false} PlainFieldLookup(fields: seq<Field>, key: Bytes)
    requires PlainFields(fields)
    ensures TreeOf(SlotInFields(fields, key)) == NamedField(fields, key)
    decreases fields, 0
  {
    if fields == [] {
    } else {
      PlainAnswers(fields[0].key, key);
      PlainLookup(fields[0].value.tree, key);
      PlainFieldLookup(fields[1..], key);
    }
  }

  lemma {:induction false} PlainItemLookup(items: seq<Spaced>, key: Bytes)
    requires PlainItems(items)
    ensures TreeOf(SlotInItems(items, key)) == NamedItem(items, key)
    decreases items, 0
  {
    if items == [] {
    } else {
      PlainLookup(items[0].tree, key);
      PlainItemLookup(items[1..], key);
    }
  }

  /** With plain keys `find_value` reports the first field with that very name, at any depth. */
  lemma FindNamedValue(v: Spaced, key: Bytes)
    requires WellFormedSpaced(v) && PlainKeys(v.tree) && IsSearchable(key)
    ensures FindValue(PrintSpaced(v), key)
         == match Named(v.tree, key) case None => None case Some(found) => Some(Reading(found))
  {
    FindValueInTree(v, key);
    PlainLookup(v.tree, key);
  }

  // ----- when a key search is misled -----

  /** All the fields of a tree, in document order. */
  function FieldsInOrder(t: Tree): seq<Field>
    decreases t, 1
  {
    match t
    case Object(_, fields) => FieldsAmong(fields)
    case Array(_, items) => FieldsInItems(items)
    case _ => []
  }

  function FieldsAmong(fields: seq<Field>): seq<Field>
    decreases fields, 0
  {
    if fields == [] then [] else [fields[0]] + (FieldsInOrder(fields[0].value.tree) + FieldsAmong(fields[1..]))
  }

  function FieldsInItems(items: seq<Spaced>): seq<Field>
    decreases items, 0
  {
    if items == [] then [] else FieldsInOrder(items[0].tree) + FieldsInItems(items[1..])
  }

  /** The position of the first field that answers to the key. */
  function FirstAnswer(fields: seq<Field>, key: Bytes): (r: Option<nat>)
    ensures r.Some? ==> r.value < |fields|
  {
    if fields == [] then None
    else if Answers(fields[0].key, key) then Some(0)
    else
      match FirstAnswer(fields[1..], key)
      case None => None
      case Some(n) => Some(n + 1)
  }

  lemma {:induction false} FirstAnswerIsFirst(fields: seq<Field>, key: Bytes)
    ensures var r := FirstAnswer(fields, key);
            && (r.Some? ==> Answers(fields[r.value].key, key))
            && forall j :: 0 <= j < (if r.Some? then r.value else |fields|) ==> !Answers(fields[j].key, key)
  {
    if fields != [] && !Answers(fields[0].key, key) {
      FirstAnswerIsFirst(fields[1..], key);
      assert forall j :: 1 <= j < |fields| ==> fields[1..][j - 1] == fields[j];
    }
  }

  function ValueAt(fields: seq<Field>, n: Option<nat>): Option<Spaced>
    requires n.Some? ==> n.value < |fields|
  {
    match n case None => None case Some(i) => Some(fields[i].value)
  }

  lemma {:induction false} FirstAppends(a: seq<Field>, b: seq<Field>, key: Bytes)
    ensures ValueAt(a + b, FirstAnswer(a + b, key))
         == if FirstAnswer(a, key).Some? then ValueAt(a, FirstAnswer(a, key)) else ValueAt(b, FirstAnswer(b, key))
  {
    if a == [] {
      assert a + b == b;
    } else {
      assert (a + b)[0] == a[0] && (a + b)[1..] == a[1..] + b;
      FirstAppends(a[1..], b, key);
    }
  }

  lemma {:induction false} SlotIsFirst(t: Tree, key: Bytes)
    ensures Slot(t, key) == ValueAt(FieldsInOrder(t), FirstAnswer(FieldsInOrder(t), key))
    decreases t, 1
  {
    match t
    case Object(_, fields) => SlotIsFirstField(fields, key);
    case Array(_, items) => SlotIsFirstItem(items, key);
    case _ =>
  }

  lemma {:induction false} SlotIsFirstField(fields: seq<Field>, key: Bytes)
    ensures SlotInFields(fields, key) == ValueAt(FieldsAmong(fields), FirstAnswer(FieldsAmong(fields), key))
    decreases fields, 0
  {
    if fields == [] {
    } else {
      var inner, later := FieldsInOrder(fields[0].value.tree), FieldsAmong(fields[1..]);
      SlotIsFirst(fields[0].value.tree, key);
      SlotIsFirstField(fields[1..], key);
      FirstAppends(inner, later, key);
      assert ([fields[0]] + (inner + later))[1..] == inner + later;
    }
  }

  lemma {:induction false} SlotIsFirstItem(items: seq<Spaced>, key: Bytes)
    ensures SlotInItems(items, key) == ValueAt(FieldsInItems(items), FirstAnswer(FieldsInItems(items), key))
    decreases items, 0
  {
    if items == [] {
    } else {
      SlotIsFirst(items[0].tree, key);
      SlotIsFirstItem(items[1..], key);
      FirstAppends(FieldsInOrder(items[0].tree), FieldsInItems(items[1..]), key);
    }
  }

  /**
   The key search lands on field number `n` in document order, or nowhere; and that field has the very name
   exactly when some field has it and none before that has a name ending in an escaped quote and the key.
   */
  lemma SearchIsMisledWhen(v: Spaced, key: Bytes) returns (n: Option<nat>, tail: Bytes)
    requires WellFormedSpaced(v) && IsSearchable(key)
    ensures var fields := FieldsInOrder(v.tree);
            && (n.None? <==> KeyTail(PrintSpaced(v), key) == None)
            && (n.Some? ==> n.value < |fields| && Lands(PrintSpaced(v), key, fields[n.value].value, tail))
            && (n.Some? && fields[n.value].key == key
                <==> exists i :: 0 <= i < |fields| && fields[i].key == key
                              && forall j :: 0 <= j < i ==> !Imitates(fields[j].key, key))
  {
    var fields := FieldsInOrder(v.tree);
    tail := KeyInText(v, key);
    SlotIsFirst(v.tree, key);
    n := FirstAnswer(fields, key);
    FirstIsNamed(fields, key);
  }

  lemma FirstIsNamed(fields: seq<Field>, key: Bytes)
    ensures var n := FirstAnswer(fields, key);
            (n.Some? && fields[n.value].key == key
             <==> exists i :: 0 <= i < |fields| && fields[i].key == key
                           && forall j :: 0 <= j < i ==> !Imitates(fields[j].key, key))
  {
    var n := FirstAnswer(fields, key);
    FirstAnswerIsFirst(fields, key);
    if n.Some? && fields[n.value].key == key {
      assert forall j :: 0 <= j < n.value ==> !Answers(fields[j].key, key);
    }
    forall i | 0 <= i < |fields| && fields[i].key == key && forall j :: 0 <= j < i ==> !Imitates(fields[j].key, key)
      ensures n.Some? && fields[n.value].key == key
    {
      assert Answers(fields[i].key, key);
      assert n.Some? && n.value <= i;
    }
  }

  /** Such a text: `{"a\"k":1}` has no field named k, yet one is reported. */
  lemma EscapedQuoteMisleads() returns (t: Tree, key: Bytes)
    ensures WellFormed(t) && IsSearchable(key)
    ensures Named(t, key) == None && FindValue(Print(t), key) == Some([0x31])
  {
    key := [0x6B];
    var name: Bytes := [0x61, BACKSLASH, QUOTE, 0x6B];
    var value := Literal([0x31]);
    var field := Close(name, value);
    t := Compact([field]);
    assert name[1..][2..] == [0x6B] && Escaped([0x6B]) && Escaped(name);
    assert IsLiteral([0x31]) && WellFormed(value);
    assert [field] + [] == [field] && [field][1..] == [];
    assert Answers(name, key) by {
      assert name[2..] == [QUOTE] + key;
    }
    CloseInFront(name, value, [], key);
    assert Lookup(t, key) == Some(value);
    BareText(t);
    FindValueInTree(Bare(t), key);
    assert NamedField([field], key) == None;
  }

  /**
   A key that begins like what comes behind a string is found between strings: in `{"a":":x"}`, which has no
   such field, the colon is.
   */
  lemma DelimiterMisleads() returns (t: Tree, key: Bytes)
    ensures WellFormed(t) && Escaped(key) && key != [] && FollowsString(key[0]) && Slot(t, key) == None
    ensures KeyTail(Print(t), key) == Some([0x78, QUOTE, RBRACE])
  {
    key := [COLON];
    var name: Bytes, raw: Bytes := [0x61], [COLON, 0x78];
    t := Compact([Close(name, Str(raw))]);
    assert [Close(name, Str(raw))] + [] == [Close(name, Str(raw))];
    assert raw[1..] == [0x78] && Escaped([0x78]) && Escaped(name) && Escaped(raw);
    CloseInFront(name, Str(raw), [], key);
    var tail: Bytes := [QUOTE, COLON, QUOTE, COLON, 0x78, QUOTE, RBRACE];
    ColonText(tail);
    ColonIsFound(tail, key);
    var text := [LBRACE] + ([QUOTE, 0x61] + tail);
    assert text[1..] == [QUOTE, 0x61] + tail;
    KeySkipsByte(text, key);
    ClosedBefore(tail, key);
  }

  lemma ColonText(tail: Bytes)
    requires tail == [QUOTE, COLON, QUOTE, COLON, 0x78, QUOTE, RBRACE]
    ensures Print(Compact([Close([0x61], Str([COLON, 0x78]))])) == [LBRACE] + ([QUOTE, 0x61] + tail)
  {
    OneFieldText([0x61], Str([COLON, 0x78]));
    assert Quoted([0x61]) == [QUOTE, 0x61, QUOTE] && Quoted([COLON, 0x78]) == [QUOTE, COLON, 0x78, QUOTE];
  }

  lemma OneFieldText(name: Bytes, value: Tree)
    ensures Print(Compact([Close(name, value)])) == [LBRACE] + (Quoted(name) + [COLON] + Print(value)) + [RBRACE]
  {
    CloseText(name, value);
    var text := PrintField(Close(name, value));
    assert PrintFields([Close(name, value)]) == text + [] == text;
    assert [] + text == text;
  }

  lemma ColonIsFound(tail: Bytes, key: Bytes)
    requires tail == [QUOTE, COLON, QUOTE, COLON, 0x78, QUOTE, RBRACE] && key == [COLON]
    ensures KeyTail(tail, key) == Some([0x78, QUOTE, RBRACE])
  {
    assert Quoted(key) <= tail && tail[3..] == [COLON, 0x78, QUOTE, RBRACE] && tail[3..][1..] == [0x78, QUOTE, RBRACE];
  }

  lemma ClosedBefore(tail: Bytes, key: Bytes)
    requires key == [COLON] && tail != []
    ensures KeyTail([QUOTE, 0x61] + tail, key) == KeyTail(tail, key)
  {
    var inner := [QUOTE, 0x61] + tail;
    assert inner[1..] == [0x61] + tail && ([0x61] + tail)[1..] == tail;
    assert Quoted(key)[1] != inner[1];
    KeySkipsByte([0x61] + tail, key);
  }

  // ----- objects the client writes -----

  /** What a field without blanks adds in front of others. */
  lemma CloseInFront(key: Bytes, value: Tree, rest: seq<Field>, wanted: Bytes)
    ensures var fields := [Close(key, value)] + rest;
            && (WellFormedFields(fields) <==> Escaped(key) && WellFormed(value) && WellFormedFields(rest))
            && SlotInFields(fields, wanted)
            == if Answers(key, wanted) then Some(Spaced([], value, []))
               else if Slot(value, wanted).Some? then Slot(value, wanted)
               else SlotInFields(rest, wanted)
  {
    var fields := [Close(key, value)] + rest;
    assert fields[0] == Close(key, value) && fields[1..] == rest;
    assert WellFormedSpaced(Spaced([], value, [])) <==> WellFormed(value);
  }

  /** A request object: the fields `json_field` writes, in order. */
  function FlatFields(pairs: seq<(Bytes, Bytes)>): seq<Field> {
    if pairs == [] then []
    else [Close(Escape(pairs[0].0), Str(Escape(pairs[0].1)))] + FlatFields(pairs[1..])
  }

  lemma {:induction false} FlatFieldsAreWellFormed(pairs: seq<(Bytes, Bytes)>)
    ensures WellFormedFields(FlatFields(pairs))
  {
    if pairs == [] {
    } else {
      EscapeIsUndone(pairs[0].0);
      EscapeIsUndone(pairs[0].1);
      FlatFieldsAreWellFormed(pairs[1..]);
    }
  }

  /** Escaping neither makes nor unmakes a name that answers to another. */
  lemma {:induction false} EscapedAnswers(name: Bytes, key: Bytes)
    ensures Answers(Escape(name), Escape(key)) <==> Answers(name, key)
    ensures Imitates(Escape(name), Escape(key)) <==> Imitates(name, key)
    decreases |name|
  {
    EscapeIsUndone(name);
    EscapeIsUndone(key);
    if name == [] {
    } else {
      var later, end := name[1..], [QUOTE] + key;
      EscapedAnswers(later, key);
      EndsLater(name, end);
      assert end[1..] == key;
      EscapedInFront(name[0], Escape(later), Escape(key));
    }
  }

  lemma EscapedInFront(b: byte, rest: Bytes, key: Bytes)
    ensures Imitates(EscapeByte(b) + rest, key) <==> if b == QUOTE then Answers(rest, key) else Imitates(rest, key)
  {
    var e := EscapeByte(b);
    assert (e + rest)[|e|..] == rest;
    if e[0] == BACKSLASH {
      EndsAfterEscape(e + rest, key);
    } else {
      EndsLater(e + rest, [QUOTE] + key);
    }
  }

  lemma FlatFieldsSplit(pairs: seq<(Bytes, Bytes)>, key: Bytes)
    requires pairs != []
    ensures SlotInFields(FlatFields(pairs), Escape(key))
         == if Answers(pairs[0].0, key) then Some(Spaced([], Str(Escape(pairs[0].1)), []))
            else SlotInFields(FlatFields(pairs[1..]), Escape(key))
  {
    CloseInFront(Escape(pairs[0].0), Str(Escape(pairs[0].1)), FlatFields(pairs[1..]), Escape(key));
    EscapedAnswers(pairs[0].0, key);
  }

  /** The value of the first pair whose name answers to the key. */
  function FirstPair(pairs: seq<(Bytes, Bytes)>, key: Bytes): Option<Bytes> {
    if pairs == [] then None
    else if Answers(pairs[0].0, key) then Some(pairs[0].1)
    else FirstPair(pairs[1..], key)
  }

  lemma {:induction false} FlatFieldFound(pairs: seq<(Bytes, Bytes)>, key: Bytes)
    ensures SlotInFields(FlatFields(pairs), Escape(key))
         == match FirstPair(pairs, key) case None => None case Some(value) => Some(Spaced([], Str(Escape(value)), []))
  {
    if pairs == [] {
    } else {
      FlatFieldsSplit(pairs, key);
      if !Answers(pairs[0].0, key) { FlatFieldFound(pairs[1..], key); }
    }
  }

  lemma {:induction false} FirstPairIs(pairs: seq<(Bytes, Bytes)>, i: nat)
    requires i < |pairs| && forall j :: 0 <= j < i ==> !Answers(pairs[j].0, pairs[i].0)
    ensures FirstPair(pairs, pairs[i].0) == Some(pairs[i].1)
    decreases i
  {
    if i == 0 {
    } else {
      var later := pairs[1..];
      forall j | 0 <= j < i - 1 ensures !Answers(later[j].0, later[i - 1].0) {
        assert later[j] == pairs[j + 1];
      }
      FirstPairIs(later, i - 1);
    }
  }

  /**
   Every value written comes back under its name, whatever bytes names and values hold, looked for as it is
   written: with its escapes, if it needs any. No earlier name may be the same, or end in a quote and the name.
   */
  lemma FlatObjectRoundTrip(pairs: seq<(Bytes, Bytes)>, i: nat)
    requires i < |pairs| && IsSearchable(Escape(pairs[i].0))
    requires forall j :: 0 <= j < i ==> !Answers(pairs[j].0, pairs[i].0)
    ensures FindValue(Print(Compact(FlatFields(pairs))), Escape(pairs[i].0)) == Some(pairs[i].1)
  {
    FlatFieldsAreWellFormed(pairs);
    FlatFieldFound(pairs, pairs[i].0);
    FirstPairIs(pairs, i);
    BareText(Compact(FlatFields(pairs)));
    FindValueInTree(Bare(Compact(FlatFields(pairs))), Escape(pairs[i].0));
    EscapeIsUndone(pairs[i].1);
  }

  /** Keys without quote and backslash need no escapes. */
  lemma {:induction false} PlainIsEscaped(key: Bytes)
    requires QUOTE !in key && BACKSLASH !in key
    ensures Escaped(key)
  {
    if key == [] {
    } else {
      assert key[0] in key;
      PlainIsEscaped(key[1..]);
    }
  }

  /** The punctuation of the texts is that of JSON. */
  lemma PunctuationIs()
    ensures [LBRACE, RBRACE, LBRACKET, RBRACKET, QUOTE, COLON, COMMA, BACKSLASH] == Ascii("{}[]\":,\\")
  {
    var text := "{}[]\":,\\";
    assert |text| == 8;
  }
}
