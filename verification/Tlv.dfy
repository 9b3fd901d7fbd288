/**
 Walks over tagged entries. The property and capability replies share one layout, a header whose last byte
 is the length of the value behind it, and the walk itself is the same for every layout. Counts and
 lengths come from the device and are not trusted.
 */
module Tlv {
  import opened ByteStrings

  datatype Entry = Entry(head: Bytes, data: Bytes)

  /** The ids of properties and capabilities are numbers of sixteen bits, at the front of a header, low byte first. */
  type Id = n: nat | n < 0x10000

  function IdOf(e: Entry): Id
    requires |e.head| >= 2
  {
    e.head[0] as int + 256 * e.head[1] as int
  }

  /** How a layout takes one entry off the front, if a whole one is there, and what is left behind it. */
  type Layout = Bytes -> Option<(Entry, Bytes)>

  /** The entries a walk visits, at most `count` of them, and what is left after the last. */
  function Walk(layout: Layout, s: Bytes, count: nat): (seq<Entry>, Bytes)
    decreases count
  {
    if count == 0 then ([], s)
    else
      match layout(s)
      case None => ([], s)
      case Some((e, after)) => var (later, rest) := Walk(layout, after, count - 1); ([e] + later, rest)
  }

  function Lay(text: Entry -> Bytes, entries: seq<Entry>): Bytes {
    if entries == [] then [] else text(entries[0]) + Lay(text, entries[1..])
  }

  /** `layout` takes off exactly the texts of the entries that are `fit`, whatever follows them. */
  ghost predicate Codes(layout: Layout, text: Entry -> Bytes, fit: Entry -> bool) {
    && (forall s :: layout(s).Some? ==> fit(layout(s).value.0) && s == text(layout(s).value.0) + layout(s).value.1)
    && (forall e, rest :: fit(e) ==> layout(text(e) + rest) == Some((e, rest)))
  }

  /** The entries are a run of whole ones that the count allows, and it cannot go on. */
  ghost predicate IsLongest(layout: Layout, fit: Entry -> bool, entries: seq<Entry>, rest: Bytes, count: nat) {
    && (forall e :: e in entries ==> fit(e))
    && |entries| <= count && (|entries| == count || layout(rest) == None)
  }

  /** The walk visits the longest run of whole entries that the count allows. */
  lemma {:induction false} WalkIsLongest(layout: Layout, text: Entry -> Bytes, fit: Entry -> bool, s: Bytes, count: nat)
    requires Codes(layout, text, fit)
    ensures var (entries, rest) := Walk(layout, s, count);
            s == Lay(text, entries) + rest && IsLongest(layout, fit, entries, rest, count)
    decreases count
  {
    var found := layout(s);
    if count > 0 && found.Some? {
      var (e, after) := found.value;
      TakesOff(layout, text, fit, s);
      WalkIsLongest(layout, text, fit, after, count - 1);
      var (later, rest) := Walk(layout, after, count - 1);
      LayMore(text, e, later, rest);
    } else {
      assert s == Lay(text, []) + s;
    }
  }

  lemma LayMore(text: Entry -> Bytes, e: Entry, later: seq<Entry>, rest: Bytes)
    ensures Lay(text, [e] + later) + rest == text(e) + (Lay(text, later) + rest)
  {
    assert ([e] + later)[1..] == later;
    assert text(e) + (Lay(text, later) + rest) == text(e) + Lay(text, later) + rest;
  }

  lemma TakesOff(layout: Layout, text: Entry -> Bytes, fit: Entry -> bool, s: Bytes)
    requires Codes(layout, text, fit) && layout(s).Some?
    ensures fit(layout(s).value.0) && s == text(layout(s).value.0) + layout(s).value.1
  {
  }

  lemma TakesOn(layout: Layout, text: Entry -> Bytes, fit: Entry -> bool, e: Entry, rest: Bytes)
    requires Codes(layout, text, fit) && fit(e)
    ensures layout(text(e) + rest) == Some((e, rest))
  {
  }

  /** And no other run is the longest. */
  lemma {:induction false} LongestIsWalk(layout: Layout, text: Entry -> Bytes, fit: Entry -> bool,
                                         entries: seq<Entry>, rest: Bytes, count: nat)
    requires Codes(layout, text, fit) && IsLongest(layout, fit, entries, rest, count)
    ensures Walk(layout, Lay(text, entries) + rest, count) == (entries, rest)
    decreases count
  {
    if entries == [] {
      assert Lay(text, entries) + rest == rest;
    } else {
      var e, later := entries[0], entries[1..];
      assert e in entries;
      LongestIsWalk(layout, text, fit, later, rest, count - 1);
      TakesOn(layout, text, fit, e, Lay(text, later) + rest);
      assert text(e) + Lay(text, later) + rest == text(e) + (Lay(text, later) + rest);
      assert entries == [e] + later;
    }
  }

  // ----- folding -----

  /** What the entries make of a state, one after the other. */
  function Fold<S>(update: (S, Entry) -> S, s: S, entries: seq<Entry>): S
    decreases |entries|
  {
    if entries == [] then s else Fold(update, update(s, entries[0]), entries[1..])
  }

  lemma {:induction false} FoldAppends<S>(update: (S, Entry) -> S, s: S, a: seq<Entry>, b: seq<Entry>)
    ensures Fold(update, s, a + b) == Fold(update, Fold(update, s, a), b)
    decreases |a|
  {
    if a == [] {
      assert a + b == b;
    } else {
      assert (a + b)[0] == a[0] && (a + b)[1..] == a[1..] + b;
      FoldAppends(update, update(s, a[0]), a[1..], b);
    }
  }

  /** An entry that changes nothing, wherever it stands, has no influence on the others. */
  lemma IdleEntryIsSkipped<S(!new)>(update: (S, Entry) -> S, s: S, a: seq<Entry>, idle: Entry, b: seq<Entry>)
    requires forall t :: update(t, idle) == t
    ensures Fold(update, s, a + [idle] + b) == Fold(update, s, a + b)
  {
    FoldAppends(update, s, a + [idle], b);
    FoldAppends(update, s, a, [idle]);
    FoldAppends(update, s, a, b);
    assert [idle][1..] == [];
  }

  // ----- headed entries -----

  /** A header of `h` bytes, the last of which gives the extent of what follows it. */
  function Headed(h: nat, extent: byte -> nat): Layout
    requires h > 0
  {
    (s: Bytes) => if |s| < h || |s| < h + extent(s[h - 1]) then None
                  else Some((Entry(s[..h], s[h..h + extent(s[h - 1])]), s[h + extent(s[h - 1])..]))
  }

  function Joined(): Entry -> Bytes {
    (e: Entry) => e.head + e.data
  }

  function IsHeaded(h: nat, extent: byte -> nat): Entry -> bool
    requires h > 0
  {
    (e: Entry) => |e.head| == h && |e.data| == extent(e.head[h - 1])
  }

  lemma HeadedTakesOff(h: nat, extent: byte -> nat, s: Bytes)
    requires h > 0
    ensures var layout := Headed(h, extent);
            layout(s).Some? ==>
              IsHeaded(h, extent)(layout(s).value.0) && s == Joined()(layout(s).value.0) + layout(s).value.1
  {
  }

  lemma HeadedTakesOn(h: nat, extent: byte -> nat, e: Entry, rest: Bytes)
    requires h > 0 && IsHeaded(h, extent)(e)
    ensures Headed(h, extent)(Joined()(e) + rest) == Some((e, rest))
  {
    var s := e.head + e.data + rest;
    assert s[h - 1] == e.head[h - 1];
    assert s[..h] == e.head && s[h..h + |e.data|] == e.data && s[h + |e.data|..] == rest;
  }

  /** Headed entries can be told apart: the walk of them is well defined in both directions. */
  lemma HeadedCodes(h: nat, extent: byte -> nat)
    requires h > 0
    ensures Codes(Headed(h, extent), Joined(), IsHeaded(h, extent))
  {
    var layout, text, fit := Headed(h, extent), Joined(), IsHeaded(h, extent);
    forall s: Bytes
      ensures layout(s).Some? ==> fit(layout(s).value.0) && s == text(layout(s).value.0) + layout(s).value.1
    {
      HeadedTakesOff(h, extent, s);
    }
    forall e, rest: Bytes | fit(e)
      ensures layout(text(e) + rest) == Some((e, rest))
    {
      HeadedTakesOn(h, extent, e, rest);
    }
  }

  /** Headed entries are walked as they were laid, as many as are counted. */
  lemma LaidIsWalked(h: nat, extent: byte -> nat, entries: seq<Entry>, rest: Bytes, s: Bytes, count: nat)
    requires h > 0 && count == |entries| && s == Lay(Joined(), entries) + rest
    requires forall e :: e in entries ==> IsHeaded(h, extent)(e)
    ensures Walk(Headed(h, extent), s, count) == (entries, rest)
  {
    HeadedCodes(h, extent);
    LongestIsWalk(Headed(h, extent), Joined(), IsHeaded(h, extent), entries, rest, count);
  }

  /** The length byte as it is. */
  function Plain(): byte -> nat {
    (b: byte) => b
  }

  /** The entries of a body whose second byte counts them. */
  lemma EntriesAreWalked(h: nat, entries: seq<Entry>, rest: Bytes, body: Bytes)
    requires h > 0 && |body| >= 2 && body[1] as int == |entries| && body[2..] == Lay(Joined(), entries) + rest
    requires forall e :: e in entries ==> IsHeaded(h, Plain())(e)
    ensures Walk(Headed(h, Plain()), body[2..], body[1]) == (entries, rest)
  {
    LaidIsWalked(h, Plain(), entries, rest, body[2..], body[1]);
  }

  /** The entry at a position, if it is in bounds, and where the next one begins. */
  method EntryAt(h: nat, extent: byte -> nat, s: Bytes, pos: nat) returns (e: Option<Entry>, next: nat)
    requires h > 0 && pos <= |s|
    ensures pos <= next <= |s|
    ensures e.None? ==> next == pos && Headed(h, extent)(s[pos..]) == None
    ensures e.Some? ==> Headed(h, extent)(s[pos..]) == Some((e.value, s[next..])) && next >= pos + h
  {
    e, next := None, pos;
    if pos + h > |s| {
      return;
    }
    assert s[pos..][h - 1] == s[pos + h - 1];
    var size := extent(s[pos + h - 1]);
    if pos + h + size > |s| {
      return;
    }
    e, next := Some(Entry(s[pos..pos + h], s[pos + h..pos + h + size])), pos + h + size;
    assert s[pos..][..h] == s[pos..pos + h] && s[pos..][h..h + size] == s[pos + h..pos + h + size];
    assert s[pos..][h + size..] == s[pos + h + size..];
  }

  /** The walk as the parsers make it: a position that moves on by each entry's own length. */
  method WalkFold<S>(update: (S, Entry) -> S, start: S, h: nat, s: Bytes, count: nat) returns (out: S, pos: nat)
    requires h > 0
    ensures var (entries, rest) := Walk(Headed(h, Plain()), s, count);
            out == Fold(update, start, entries) && pos <= |s| && s[pos..] == rest
  {
    out, pos := WalkOn(update, start, h, Plain(), s, count, Headed(h, Plain()));
    OutcomeIsFold(update, start, Headed(h, Plain()), s, count);
  }

  /** What a walk comes to, from a state on, and what it leaves. */
  function Outcome<S>(update: (S, Entry) -> S, out: S, layout: Layout, s: Bytes, count: nat): (S, Bytes)
    decreases count
  {
    if count == 0 then (out, s)
    else
      match layout(s)
      case None => (out, s)
      case Some((e, after)) => Outcome(update, update(out, e), layout, after, count - 1)
  }

  lemma {:induction false} OutcomeIsFold<S>(update: (S, Entry) -> S, out: S, layout: Layout, s: Bytes, count: nat)
    ensures Outcome(update, out, layout, s, count) == (Fold(update, out, Walk(layout, s, count).0), Walk(layout, s, count).1)
    decreases count
  {
    if count > 0 && layout(s).Some? {
      var (e, after) := layout(s).value;
      OutcomeIsFold(update, update(out, e), layout, after, count - 1);
      var later := Walk(layout, after, count - 1).0;
      assert ([e] + later)[0] == e && ([e] + later)[1..] == later;
    }
  }

  method WalkOn<S>(update: (S, Entry) -> S, start: S, h: nat, extent: byte -> nat, s: Bytes, count: nat,
                   ghost layout: Layout)
    returns (out: S, pos: nat)
    requires h > 0 && layout == Headed(h, extent)
    ensures pos <= |s| && (out, s[pos..]) == Outcome(update, start, layout, s, count)
  {
    out, pos := start, 0;
    assert s[0..] == s;
    var i := 0;
    while i < count
      invariant i <= count && pos <= |s|
      invariant Outcome(update, start, layout, s, count) == Outcome(update, out, layout, s[pos..], count - i)
    {
      var e, next := EntryAt(h, extent, s, pos);
      if e.None? {
        return;
      }
      out := update(out, e.value);
      pos := next;
      i := i + 1;
    }
  }
}
