/**
 When `find_array_objects` never returns: exactly when the array under the key has a closing brace at its own
 level, outside its strings, its nested objects and arrays, and before its end.
 */
module JsonEndless {
  import opened ByteStrings
  import opened Json
  import opened JsonTheory

  /**
   A scan of the inside of an array, byte by byte, for a closing brace at its own level. Strings, objects and
   arrays are passed over where an element may begin; inside a bare literal their first bytes mean nothing.
   The scan ends with the array, at a closing bracket or when no more than `bound` bytes are left.
   */
  predicate HasStrayBrace(s: Bytes, bound: nat, inLiteral: bool)
    decreases |s|
  {
    if |s| <= bound || s[0] == RBRACKET then false
    else if s[0] == RBRACE then true
    else if s[0] == COMMA then HasStrayBrace(s[1..], bound, false)
    else if inLiteral then HasStrayBrace(s[1..], bound, true)
    else if IsSpace(s[0]) then HasStrayBrace(s[1..], bound, false)
    else if s[0] == QUOTE then
      match StringTail(s[1..]) case None => false case Some(tail) => HasStrayBrace(tail, bound, false)
    else if s[0] == LBRACE || s[0] == LBRACKET then
      match BracketTail(s, s[0], Closer(s[0]), 0)
      case None => false
      case Some(tail) => HasStrayBrace(tail, bound, false)
    else HasStrayBrace(s[1..], bound, true)
  }

  /** The array found under the key, from its opening bracket, and what follows it. */
  function ArrayUnder(text: Bytes, key: Bytes): Option<(Bytes, Bytes)> {
    match KeyTail(text, key)
    case None => None
    case Some(s) =>
      var w := SkipSpace(s);
      if w == [] || w[0] != LBRACKET then None
      else
        match BracketTail(w, LBRACKET, RBRACKET, 0)
        case None => None
        case Some(tail) => Some((w, tail))
  }

  lemma {:induction false} SeparatorsHaveNone(s: Bytes, bound: nat)
    requires bound <= |s|
    ensures HasStrayBrace(s, bound, false) == HasStrayBrace(SkipSeparators(s, bound), bound, false)
  {
    if |s| > bound && (IsSpace(s[0]) || s[0] == COMMA) {
      SeparatorsHaveNone(s[1..], bound);
    } else {
      assert SkipSeparators(s, bound) == s;
    }
  }

  lemma {:induction false} LiteralsHaveNone(s: Bytes, bound: nat)
    ensures HasStrayBrace(s, bound, true) == HasStrayBrace(LiteralTail(s), bound, false)
  {
    if s == [] || EndsLiteral(s[0]) {
      assert LiteralTail(s) == s;
    } else {
      LiteralsHaveNone(s[1..], bound);
    }
  }

  lemma ElementIsPassed(u: Bytes, bound: nat)
    requires |u| > bound && !IsSpace(u[0]) && u[0] != COMMA && u[0] != RBRACKET && u[0] != RBRACE
    ensures match BareTail(u)
            case None => !HasStrayBrace(u, bound, false)
            case Some(tail) => |tail| < |u| && HasStrayBrace(u, bound, false) == HasStrayBrace(tail, bound, false)
  {
    if u[0] != QUOTE && u[0] != LBRACE && u[0] != LBRACKET {
      LiteralsHaveNone(u[1..], bound);
    }
  }

  lemma {:induction false} ElementsAreEndless(s: Bytes, bound: nat)
    ensures Elements(s, bound).endless <==> HasStrayBrace(s, bound, false)
    decreases |s|
  {
    if |s| > bound {
      var u := SkipSeparators(s, bound);
      SeparatorsHaveNone(s, bound);
      SeparatorsEnd(s, bound);
      if |u| > bound && u[0] != RBRACKET {
        StuckElement(u);
        assert ValueTail(u) == BareTail(u);
        if u[0] != RBRACE {
          ElementIsPassed(u, bound);
          if BareTail(u).Some? { ElementsAreEndless(BareTail(u).value, bound); }
        }
      }
    }
  }

  lemma {:induction false} SeparatorsEnd(s: Bytes, bound: nat)
    requires bound <= |s|
    ensures var u := SkipSeparators(s, bound); |u| > bound ==> !IsSpace(u[0]) && u[0] != COMMA && SkipSpace(u) == u
  {
    if |s| > bound && (IsSpace(s[0]) || s[0] == COMMA) { SeparatorsEnd(s[1..], bound); }
  }

  /** For every text and key: the listing never ends exactly when the array under the key has a stray brace. */
  lemma ListingIsEndless(text: Bytes, key: Bytes)
    ensures FindArrayObjects(text, key).endless
       <==> match ArrayUnder(text, key)
            case None => false
            case Some(found) => HasStrayBrace(found.0[1..], |found.1|, false)
  {
    var start := KeyTail(text, key);
    if start.Some? {
      SpaceIsGone(start.value);
      if ArrayUnder(text, key).Some? {
        var (inside, tail) := ArrayUnder(text, key).value;
        ElementsAreEndless(inside[1..], |tail|);
      }
    }
  }

  /** One such text: `"k":[}]`. */
  lemma StrayBraceLoops()
    ensures var text: Bytes, key: Bytes := [QUOTE, 0x6B, QUOTE, COLON, LBRACKET, RBRACE, RBRACKET], [0x6B];
            FindArrayObjects(text, key).endless
  {
    var text: Bytes, key: Bytes := [QUOTE, 0x6B, QUOTE, COLON, LBRACKET, RBRACE, RBRACKET], [0x6B];
    var list: Bytes := [LBRACKET, RBRACE, RBRACKET];
    assert Quoted(key) <= text && text[3..] == [COLON] + list && ([COLON] + list)[1..] == list;
    assert KeyTail(text, key) == Some(list);
    assert list[1..] == [RBRACE, RBRACKET] && list[1..][1..] == [RBRACKET] && [RBRACKET][1..] == [];
    assert BracketTail([RBRACKET], LBRACKET, RBRACKET, 1) == Some([]);
    assert BracketTail(list[1..], LBRACKET, RBRACKET, 1) == Some([]);
    assert ArrayUnder(text, key) == Some((list, []));
    ListingIsEndless(text, key);
  }
}
