/**
 * The message `hello` as a value: parsing by a plain tag loop, merging, serializing and its size,
 * and the laws that connect them ("Last One Wins" in the Protocol Buffers Encoding specification).
 */
module HelloCodec {
  import opened Text
  import opened Wire

  datatype Msg = Msg(hasId: bool, id: Int32, hasName: bool, name: Bytes, unknown: seq<Unknown>)

  const EMPTY := Msg(false, 0, false, [], [])
  const ID_TAG := 8
  const NAME_TAG := 18

  /** The int32 in the low 32 bits of a varint. */
  function ToInt32(v: nat): (r: Int32)
    ensures (v - r) % TWO32 == 0
  {
    var w := v % TWO32;
    if w < 0x8000_0000 then w else w - TWO32
  }

  /** An int32 is written sign-extended to 64 bits. */
  function SignExtended(i: Int32): (r: nat)
    ensures r < TWO64 && (r - i) % TWO64 == 0
  {
    if i < 0 then i + TWO64 else i
  }

  lemma SignRoundTrip(i: Int32)
    ensures SignExtended(i) < TWO64 && ToInt32(SignExtended(i) % TWO32) == i
  {
  }

  /** A cleared has-bit means the default value. */
  predicate Canonical(m: Msg) {
    (!m.hasId ==> m.id == 0) && (!m.hasName ==> m.name == [])
  }

  predicate IsKnown(u: Unknown) {
    u.FieldTag() == ID_TAG || u.FieldTag() == NAME_TAG
  }

  predicate NoneKnown(us: seq<Unknown>) {
    us == [] || (!IsKnown(us[0]) && NoneKnown(us[1..]))
  }

  /** What the wire can carry: values of their width, and a name whose length is an int. */
  predicate Sendable(m: Msg) {
    |m.name| <= 0x7fff_ffff && AllValid(m.unknown)
  }

  // ----- parsing

  datatype Item = Id(value: Int32) | Name(data: Bytes) | Extra(field: Unknown)

  /** What a read that failed was to read. */
  datatype Part = InId | InName | InExtra

  datatype Next = Finished | Stopped(rest: Bytes) | Broken(part: Part) | Field(item: Item, rest: Bytes)

  /** One round of the tag loop. */
  function NextItem(s: Bytes): (r: Next)
    ensures r.Field? ==> |r.rest| < |s|
  {
    match ReadTag(s)
    case AtEnd => Finished
    case NoTag => Stopped(s)
    case Tag(t, rest) =>
      if t / 8 == 1 && t % 8 == VARINT then
        (match ReadVarint32(rest) case None => Broken(InId) case Some((v, rest')) => Field(Id(ToInt32(v)), rest'))
      else if t / 8 == 2 && t % 8 == LENGTH_DELIMITED then
        (match ReadDelimited(rest) case None => Broken(InName) case Some((d, rest')) => Field(Name(d), rest'))
      else if t % 8 == END_GROUP then Stopped(rest)
      else
        (match SkipField(t, rest) case None => Broken(InExtra) case Some((u, rest')) => Field(Extra(u), rest'))
  }

  /** A byte 18 at the front is the tag of a name: what the parser's jump relies on. */
  lemma NameComesNext(s: Bytes)
    requires s != [] && s[0] == NAME_TAG
    ensures NextItem(s) == match ReadDelimited(s[1..])
                           case None => Broken(InName)
                           case Some((d, rest)) => Field(Name(d), rest)
    ensures forall m :: Parse(s, m) == ParseName(s[1..], m)
  {
    hide ReadDelimited;
    assert ReadTag(s) == Tag(NAME_TAG, s[1..]);
  }

  function Apply(m: Msg, i: Item): Msg {
    match i
    case Id(v) => m.(hasId := true, id := v)
    case Name(d) => m.(hasName := true, name := d)
    case Extra(u) => m.(unknown := m.unknown + [u])
  }

  /**
   * Done with a message, where atEnd tells the true end of the input from any other stop, and `rest` is
   * not read; or failed in reading a part, with the message as the items in front of it left it.
   */
  datatype Outcome = Failed(msg: Msg, part: Part) | Done(msg: Msg, atEnd: bool, rest: Bytes)

  /** What the library leaves of a read that fails: bytes in the name's string, unknown fields behind the others. */
  datatype Debris = Debris(name: Bytes, unknown: seq<Unknown>)

  /** The message after a parse. A name that fails has already set its bit, through mutable_name. */
  function After(r: Outcome, d: Debris): Msg {
    match r
    case Done(m, _, _) => m
    case Failed(m, InId) => m
    case Failed(m, InName) => m.(hasName := true, name := d.name)
    case Failed(m, InExtra) => m.(unknown := m.unknown + d.unknown)
  }

  /** The tag loop without shortcuts, from a message that is already there. */
  function Parse(s: Bytes, m: Msg): Outcome
    decreases |s|
  {
    match NextItem(s)
    case Finished => Done(m, true, [])
    case Stopped(rest) => Done(m, false, rest)
    case Broken(part) => Failed(m, part)
    case Field(i, rest) => Parse(rest, Apply(m, i))
  }

  lemma ParseEmpty(m: Msg)
    ensures Parse([], m) == Done(m, true, [])
  {
  }

  /** One round of the loop, by the tag that it reads. */
  lemma ParseRound(s: Bytes, m: Msg)
    ensures var r := ReadTag(s);
            Parse(s, m) == (if !r.Tag? then Done(m, r.AtEnd?, s)
                            else if r.tag / 8 == 1 && r.tag % 8 == VARINT then ParseId(r.rest, m)
                            else if r.tag / 8 == 2 && r.tag % 8 == LENGTH_DELIMITED then ParseName(r.rest, m)
                            else if r.tag % 8 == END_GROUP then Done(m, false, r.rest)
                            else ParseExtra(r.tag, r.rest, m))
  {
  }

  /** The parse behind the tag of an id. */
  function ParseId(s: Bytes, m: Msg): Outcome {
    match ReadVarint32(s)
    case None => Failed(m, InId)
    case Some((v, rest)) => Parse(rest, Apply(m, Id(ToInt32(v))))
  }

  /** The parse behind the tag of a name. */
  function ParseName(s: Bytes, m: Msg): Outcome {
    match ReadDelimited(s)
    case None => Failed(m, InName)
    case Some((d, rest)) => Parse(rest, Apply(m, Name(d)))
  }

  /** The parse behind any other tag. */
  function ParseExtra(tag: nat, s: Bytes, m: Msg): Outcome
    requires 0 < tag < TWO32
  {
    match SkipField(tag, s)
    case None => Failed(m, InExtra)
    case Some((u, rest)) => Parse(rest, Apply(m, Extra(u)))
  }

  // ----- merging

  /** Has-bits are united, a set value wins over the one before, unknown fields are appended. */
  function Merge(m: Msg, from: Msg): Msg {
    Msg(m.hasId || from.hasId, if from.hasId then from.id else m.id,
        m.hasName || from.hasName, if from.hasName then from.name else m.name,
        m.unknown + from.unknown)
  }

  lemma MergeLaws(m: Msg, x: Msg, y: Msg, i: Item)
    ensures Merge(Merge(m, x), y) == Merge(m, Merge(x, y))
    ensures Merge(m, EMPTY) == m
    ensures Canonical(m) ==> Merge(EMPTY, m) == m
    ensures Apply(m, i) == Merge(m, Apply(EMPTY, i))
  {
    assert m.unknown + x.unknown + y.unknown == m.unknown + (x.unknown + y.unknown);
    assert m.unknown + [] == m.unknown;
  }

  /** An outcome, with its message merged into another. */
  function MergeOutcome(m: Msg, r: Outcome): Outcome {
    r.(msg := Merge(m, r.msg))
  }

  /** Parsing into a message is parsing into an empty one and merging that in, also as far as a failing parse gets. */
  lemma {:induction false} ParseMerges(s: Bytes, m: Msg)
    ensures Parse(s, m) == MergeOutcome(m, Parse(s, EMPTY))
    decreases |s|
  {
    hide NextItem, Merge, Apply;
    var n := NextItem(s);
    if n.Field? {
      var first := Apply(EMPTY, n.item);
      ParseMerges(n.rest, Apply(m, n.item));
      ParseMerges(n.rest, first);
      MergeLaws(m, first, Parse(n.rest, EMPTY).msg, n.item);
    } else {
      MergeLaws(m, EMPTY, EMPTY, Id(0));
    }
  }

  lemma NextItemStable(s: Bytes, more: Bytes)
    requires NextItem(s).Field?
    ensures NextItem(s + more) == Field(NextItem(s).item, NextItem(s).rest + more)
  {
    hide ReadTag, GetVarint, ReadDelimited, SkipField;
    ReadTagStable(s, more);
    var Tag(t, rest) := ReadTag(s);
    if t / 8 == 1 && t % 8 == VARINT {
      VarintStable(rest, more, MAX_VARINT);
    } else if t / 8 == 2 && t % 8 == LENGTH_DELIMITED {
      DelimitedStable(rest, more);
    } else {
      SkipFieldStable(t, rest, more);
    }
  }

  // ----- the last one wins

  /** Whatever the message holds: an id that is read replaces it, by the low 32 bits of the varint. */
  lemma LastIdWins(m: Msg, v: nat)
    requires v < TWO64
    ensures var r := Parse([8] + PutVarint(v), m);
            && r == Done(m.(hasId := true, id := r.msg.id), true, [])
            && (r.msg.id - v) % TWO32 == 0
  {
    hide PutVarint, GetVarint, ReadTag, VarintSize, NextItem, ToInt32;
    NextAfterVarint(v, []);
    assert [8] + PutVarint(v) + [] == [8] + PutVarint(v);
    ParseEmpty(m.(hasId := true, id := ToInt32(v)));
    LowBits(v);
  }

  lemma LowBits(v: nat)
    ensures ToInt32(v % TWO32) == ToInt32(v) && (ToInt32(v) - v) % TWO32 == 0
  {
  }

  lemma NextAfterVarint(v: nat, rest: Bytes)
    requires v < TWO64
    ensures NextItem([8] + PutVarint(v) + rest) == Field(Id(ToInt32(v)), rest)
  {
    hide PutVarint, GetVarint, ReadTag, VarintSize, ToInt32;
    VarintSizeIsLength(v);
    VarintSizeBound(v);
    VarintRoundTrip(v, rest, MAX_VARINT);
    OneByteTag(8);
    ReadTagBack(8, PutVarint(v) + rest);
    assert [8] + PutVarint(v) + rest == PutVarint(8) + (PutVarint(v) + rest);
    LowBits(v);
  }

  lemma OneByteTag(t: Byte)
    ensures t < 128 ==> PutVarint(t) == [t]
  {
  }

  /** An id that was written replaces the one there was, negative ids included. */
  lemma WrittenIdWins(m: Msg, i: Int32)
    ensures Parse(PutVarint(ID_TAG) + PutVarint(SignExtended(i)), m) == Done(m.(hasId := true, id := i), true, [])
  {
    hide PutVarint, NextItem, SignExtended;
    NextAfterId(i, []);
    assert PutVarint(ID_TAG) + PutVarint(SignExtended(i)) + [] == PutVarint(ID_TAG) + PutVarint(SignExtended(i));
    ParseEmpty(m.(hasId := true, id := i));
  }

  /** A name that is read replaces the one there was. */
  lemma LastNameWins(m: Msg, d: Bytes)
    requires |d| <= INT_MAX
    ensures Parse(PutVarint(NAME_TAG) + PutDelimited(d), m) == Done(m.(hasName := true, name := d), true, [])
  {
    hide PutVarint, PutDelimited, NextItem;
    NextAfterName(d, []);
    assert PutVarint(NAME_TAG) + PutDelimited(d) + [] == PutVarint(NAME_TAG) + PutDelimited(d);
    ParseEmpty(m.(hasName := true, name := d));
  }

  /** Any other field is kept, behind those there were. */
  lemma OtherFieldsAreKept(m: Msg, u: Unknown)
    requires Valid(u) && !IsKnown(u)
    ensures Parse(PutField(u), m) == Done(m.(unknown := m.unknown + [u]), true, [])
  {
    hide PutField, NextItem, Valid;
    NextAfterField(u, []);
    assert PutField(u) + [] == PutField(u);
    ParseEmpty(m.(unknown := m.unknown + [u]));
  }

  /** Two messages one behind the other: the second one's values win wherever its bits are set. */
  lemma LastMessageWins(a: Msg, b: Msg)
    requires Sendable(a) && Sendable(b) && NoneKnown(a.unknown) && NoneKnown(b.unknown)
    ensures var r := Parse(Serialize(a) + Serialize(b), EMPTY);
            && r.Done? && r.atEnd && r.rest == []
            && (r.msg.hasId <==> a.hasId || b.hasId) && (r.msg.hasName <==> a.hasName || b.hasName)
            && (b.hasId ==> r.msg.id == b.id) && (!b.hasId && a.hasId ==> r.msg.id == a.id)
            && (b.hasName ==> r.msg.name == b.name) && (!b.hasName && a.hasName ==> r.msg.name == a.name)
            && r.msg.unknown == a.unknown + b.unknown
  {
    hide Parse, Serialize, ApplyAll, AllValid;
    ParseSerialized(a);
    ParseSerialized(b);
    ApplyUnknown(Shown(a), a.unknown);
    ApplyUnknown(Shown(b), b.unknown);
    assert [] + a.unknown == a.unknown && [] + b.unknown == b.unknown;
    ConcatenationMerges(Serialize(a), Serialize(b), EMPTY);
  }

  /** An end-group tag ends the parse in success; what stands behind it is not read. */
  lemma EndGroupStops(m: Msg, num: nat, b: Bytes)
    requires 0 < num * 8 + 4 < TWO32
    ensures Parse(PutVarint(num * 8 + 4) + b, m) == Done(m, false, b)
  {
    hide PutVarint, ReadTag, SkipField;
    ReadTagBack(num * 8 + 4, b);
  }

  /** A name whose bytes cannot be read fails the parse with its has-bit set already; an id fails it untouched. */
  lemma BrokenFields(m: Msg, s: Bytes, d: Debris)
    ensures ReadDelimited(s).None? ==>
              Parse([18] + s, m).Failed? && After(Parse([18] + s, m), d) == m.(hasName := true, name := d.name)
    ensures ReadVarint32(s).None? ==> Parse([8] + s, m).Failed? && After(Parse([8] + s, m), d) == m
  {
    hide ReadDelimited, ReadVarint32, GetVarint, PutVarint;
    OneByteTag(18);
    OneByteTag(8);
    ReadTagBack(18, s);
    ReadTagBack(8, s);
    ParseRound([18] + s, m);
    ParseRound([8] + s, m);
  }

  /** Behind an input that parses to its true end, parsing goes on with what follows. */
  lemma {:induction false} ParseContinues(a: Bytes, b: Bytes, m: Msg)
    requires Parse(a, m).Done? && Parse(a, m).atEnd
    ensures Parse(a + b, m) == Parse(b, Parse(a, m).msg)
    decreases |a|
  {
    var n := NextItem(a);
    if n.Field? {
      hide NextItem;
      NextItemStable(a, b);
      ParseContinues(n.rest, b, Apply(m, n.item));
    } else {
      assert a == [];
      assert a + b == b;
    }
  }

  /** Concatenating inputs merges messages. */
  lemma ConcatenationMerges(a: Bytes, b: Bytes, m: Msg)
    requires Parse(a, m).Done? && Parse(a, m).atEnd
    ensures Parse(a + b, m) == MergeOutcome(Parse(a, m).msg, Parse(b, EMPTY))
  {
    hide Parse, Merge;
    ParseContinues(a, b, m);
    ParseMerges(b, Parse(a, m).msg);
  }

  /** The condition is needed: a zero byte ends the parse, and nothing behind it is seen. */
  lemma ZeroTagHidesTheRest(b: Bytes, m: Msg)
    ensures Parse([0] + b, m) == Done(m, false, [0] + b)
  {
    assert ([0] + b)[1..] == b;
    assert ReadTag([0] + b) == NoTag;
  }

  // ----- clearing, and the states a message can be in

  /** Clear resets a field only behind its guard: any has-bit for the id, the name's own bit for the name. */
  function Cleared(m: Msg): Msg {
    Msg(false, if m.hasId || m.hasName then 0 else m.id, false, if m.hasName then [] else m.name, [])
  }

  /** It yields a fresh message exactly when the fields behind the guards that did not fire hold their defaults. */
  lemma ClearedIsFresh(m: Msg)
    ensures Cleared(m) == EMPTY <==> (!m.hasId && !m.hasName ==> m.id == 0) && (!m.hasName ==> m.name == [])
    ensures Canonical(m) ==> Cleared(m) == EMPTY && Merge(Cleared(m), m) == m
  {
    MergeLaws(m, EMPTY, EMPTY, Id(0));
  }

  /** What copying leaves is the source's value exactly when every field that the source's bits hide has it already. */
  lemma CopyYields(m: Msg, from: Msg)
    ensures Merge(Cleared(m), from) == from
        <==> (from.hasId || Cleared(m).id == from.id) && (from.hasName || Cleared(m).name == from.name)
    ensures Canonical(m) && Canonical(from) ==> Merge(Cleared(m), from) == from
  {
    assert [] + from.unknown == from.unknown;
  }

  // ----- every state a message can be in

  /**
   * How a message came about: from the constructor, by the accessors, clearing, merging, copying,
   * swapping and parsing, failed parses included; and by writing through a pointer to its string that
   * mutable_name once handed out.
   */
  datatype History =
    | New
    | SetId(h: History, value: Int32)
    | ClearId(h: History)
    | SetName(h: History, data: Bytes)
    | MutableName(h: History)
    | ClearName(h: History)
    | ReleaseName(h: History)
    | Clear(h: History)
    | MergeFrom(h: History, from: History)
    | CopyFrom(h: History, from: History)
    | SwapWith(h: History, from: History)
    | ParseFrom(h: History, input: Bytes, debris: Debris)
    | WriteName(h: History, data: Bytes)

  function Value(h: History): Msg
    decreases h, 0
  {
    match h
    case New => EMPTY
    case SetId(h, v) => Value(h).(hasId := true, id := v)
    case ClearId(h) => Value(h).(hasId := false, id := 0)
    case SetName(h, d) => Value(h).(hasName := true, name := d)
    case MutableName(h) => Value(h).(hasName := true)
    case ClearName(h) => Value(h).(hasName := false, name := [])
    case ReleaseName(h) => Value(h).(hasName := false, name := [])
    case Clear(h) => Cleared(Value(h))
    case MergeFrom(h, from) => Merge(Value(h), Value(from))
    case CopyFrom(h, from) => Merge(Cleared(Value(h)), Value(from))
    case SwapWith(_, from) => Value(from)
    case ParseFrom(h, input, debris) => After(Parse(input, Value(h)), debris)
    case WriteName(h, d) => if OwnsString(h) then Value(h).(name := d) else Value(h)
  }

  /** The message has a string of its own, which a pointer can still reach. */
  predicate OwnsString(h: History)
    decreases h, 1
  {
    match h
    case New => false
    case ReleaseName(_) => false
    case SwapWith(_, from) => OwnsString(from)
    case WriteName(h, _) => OwnsString(h)
    case _ => OwnsString(h.h) || Value(h).hasName
  }

  /** Bytes were written through a pointer while the has-bit was clear, and no name was set or cleared since. */
  predicate StaleName(h: History) {
    match h
    case New => false
    case SetId(h, _) => StaleName(h)
    case ClearId(h) => StaleName(h)
    case SetName(_, _) => false
    case MutableName(_) => false
    case ClearName(_) => false
    case ReleaseName(_) => false
    case Clear(h) => StaleName(h)
    case MergeFrom(g, from) => StaleName(g) && !Value(from).hasName
    case CopyFrom(g, from) => StaleName(g) && !Value(from).hasName
    case SwapWith(_, from) => StaleName(from)
    case ParseFrom(g, _, _) => StaleName(g) && !Value(h).hasName
    case WriteName(h, d) => if OwnsString(h) then !Value(h).hasName && d != [] else StaleName(h)
  }

  /** Parsing only ever adds: it clears no has-bit, and stores a value only behind a bit that is set. */
  lemma {:induction false} ParseOnlySets(s: Bytes, m: Msg, d: Debris)
    ensures var r := After(Parse(s, m), d);
            && (m.hasId ==> r.hasId) && (!r.hasId ==> r.id == m.id)
            && (m.hasName ==> r.hasName) && (!r.hasName ==> r.name == m.name)
    decreases |s|
  {
    hide NextItem;
    var n := NextItem(s);
    if n.Field? {
      ParseOnlySets(n.rest, Apply(m, n.item), d);
    }
  }

  lemma ParseKeepsCanonical(s: Bytes, m: Msg, d: Debris)
    requires Canonical(m)
    ensures Canonical(After(Parse(s, m), d))
  {
    hide Parse;
    ParseOnlySets(s, m, d);
  }

  /** A message with its name's bit set has a string of its own, and a stale name is in one. */
  lemma {:induction false} NameIsOwned(h: History)
    ensures Value(h).hasName ==> OwnsString(h)
    ensures StaleName(h) ==> OwnsString(h) && !Value(h).hasName
  {
    hide Parse;
    match h
    case New =>
    case SwapWith(_, from) => NameIsOwned(from);
    case ParseFrom(g, input, d) =>
      NameIsOwned(g);
      ParseOnlySets(input, Value(g), d);
    case _ => NameIsOwned(h.h);
  }

  /** Exactly when: in every reachable state, a cleared has-bit means the default iff no stale name is left. */
  lemma {:induction false} CanonicalUnlessStale(h: History)
    ensures Canonical(Value(h)) <==> !StaleName(h)
    ensures !Value(h).hasId ==> Value(h).id == 0
  {
    hide Parse;
    NameIsOwned(h);
    match h
    case New =>
    case SwapWith(_, from) => CanonicalUnlessStale(from);
    case ParseFrom(g, input, d) =>
      CanonicalUnlessStale(g);
      ParseOnlySets(input, Value(g), d);
    case MergeFrom(g, from) =>
      CanonicalUnlessStale(g);
      CanonicalUnlessStale(from);
    case CopyFrom(g, from) =>
      CanonicalUnlessStale(g);
      CanonicalUnlessStale(from);
    case _ =>
      NameIsOwned(h.h);
      CanonicalUnlessStale(h.h);
  }

  /** No pointer is written while the has-bit is clear, here and in the messages that were merged in. */
  predicate NoStaleWrites(h: History) {
    match h
    case New => true
    case MergeFrom(g, from) => NoStaleWrites(g) && NoStaleWrites(from)
    case CopyFrom(g, from) => NoStaleWrites(g) && NoStaleWrites(from)
    case SwapWith(g, from) => NoStaleWrites(g) && NoStaleWrites(from)
    case WriteName(g, d) => NoStaleWrites(g) && (Value(g).hasName || d == [])
    case _ => NoStaleWrites(h.h)
  }

  /** So without such writes a cleared has-bit always means the default, and Clear leaves a fresh message. */
  lemma {:induction false} EveryHistoryIsCanonical(h: History)
    requires NoStaleWrites(h)
    ensures !StaleName(h) && Canonical(Value(h)) && Cleared(Value(h)) == EMPTY
  {
    hide Parse;
    CanonicalUnlessStale(h);
    assert !StaleName(h) by { NoneIsStale(h); }
  }

  lemma {:induction false} NoneIsStale(h: History)
    requires NoStaleWrites(h)
    ensures !StaleName(h)
  {
    hide Parse;
    match h
    case New =>
    case SwapWith(_, from) => NoneIsStale(from);
    case _ => NoneIsStale(h.h);
  }

  /** A copy has its source's value exactly if the source has a name or, after Clear, both hide the same bytes. */
  lemma CopyIsExact(h: History, from: History)
    ensures Value(CopyFrom(h, from)) == Value(from)
        <==> Value(from).hasName || Cleared(Value(h)).name == Value(from).name
    ensures !StaleName(h) && !StaleName(from) ==> Value(CopyFrom(h, from)) == Value(from)
  {
    CanonicalUnlessStale(h);
    CanonicalUnlessStale(from);
    CopyYields(Value(h), Value(from));
  }

  // ----- what every parse keeps

  lemma {:induction false} Appended(us: seq<Unknown>, u: Unknown)
    ensures AllValid(us + [u]) <==> AllValid(us) && Valid(u)
    ensures NoneKnown(us + [u]) <==> NoneKnown(us) && !IsKnown(u)
  {
    if us == [] {
      assert us + [u] == [u];
    } else {
      Appended(us[1..], u);
      assert (us + [u])[1..] == us[1..] + [u];
    }
  }

  lemma NextItemIsFit(s: Bytes)
    ensures var n := NextItem(s);
            n.Field? ==> match n.item
                         case Id(v) => true
                         case Name(d) => |d| <= 0x7fff_ffff
                         case Extra(u) => Valid(u) && !IsKnown(u)
  {
    hide GetVarint;
  }

  lemma {:induction false} AppendedAll(us: seq<Unknown>, vs: seq<Unknown>)
    ensures AllValid(us + vs) <==> AllValid(us) && AllValid(vs)
    ensures NoneKnown(us + vs) <==> NoneKnown(us) && NoneKnown(vs)
    decreases |us|
  {
    hide IsKnown, Valid;
    if us == [] {
      assert us + vs == vs;
    } else {
      AppendedAll(us[1..], vs);
      assert (us + vs)[1..] == us[1..] + vs;
    }
  }

  /** What a failing read leaves is of its width, and no field with a recognised tag. */
  predicate Fit(d: Debris) {
    |d.name| <= INT_MAX && AllValid(d.unknown) && NoneKnown(d.unknown)
  }

  /** Parsing keeps the side conditions of the round trip, also when it fails, if what the failing read leaves does. */
  lemma {:induction false} ParseKeeps(s: Bytes, m: Msg, d: Debris)
    requires Sendable(m) && NoneKnown(m.unknown)
    ensures var r := Parse(s, m);
            && Sendable(r.msg) && NoneKnown(r.msg.unknown)
            && (r.Done? || Fit(d) ==> Sendable(After(r, d)) && NoneKnown(After(r, d).unknown))
    decreases |s|
  {
    hide NextItem, IsKnown, Valid;
    var n := NextItem(s);
    AppendedAll(m.unknown, d.unknown);
    if n.Field? {
      NextItemIsFit(s);
      if n.item.Extra? {
        Appended(m.unknown, n.item.field);
      }
      ParseKeeps(n.rest, Apply(m, n.item), d);
    }
  }

  // ----- serializing

  function PutId(m: Msg): Bytes {
    if m.hasId then PutVarint(ID_TAG) + PutVarint(SignExtended(m.id)) else []
  }

  function PutName(m: Msg): Bytes {
    if m.hasName then PutVarint(NAME_TAG) + PutDelimited(m.name) else []
  }

  function Serialize(m: Msg): Bytes {
    PutId(m) + PutName(m) + PutFields(m.unknown)
  }

  /** What the parser makes of a written unknown field. */
  function ReadAs(u: Unknown): Item {
    if u.FieldTag() == ID_TAG && u.Varint? then Id(ToInt32(u.value % TWO32))
    else if u.FieldTag() == NAME_TAG && u.Delimited? then Name(u.data)
    else Extra(u)
  }

  lemma NextAfterId(i: Int32, rest: Bytes)
    ensures NextItem(PutVarint(ID_TAG) + PutVarint(SignExtended(i)) + rest) == Field(Id(i), rest)
  {
    hide PutVarint, GetVarint, ReadTag, VarintSize;
    var v := SignExtended(i);
    SignRoundTrip(i);
    VarintSizeIsLength(v);
    VarintSizeBound(v);
    VarintRoundTrip(v, rest, MAX_VARINT);
    ReadTagBack(ID_TAG, PutVarint(v) + rest);
    assert PutVarint(ID_TAG) + PutVarint(v) + rest == PutVarint(ID_TAG) + (PutVarint(v) + rest);
  }

  lemma NextAfterName(d: Bytes, rest: Bytes)
    requires |d| <= 0x7fff_ffff
    ensures NextItem(PutVarint(NAME_TAG) + PutDelimited(d) + rest) == Field(Name(d), rest)
  {
    hide PutVarint, ReadTag, PutDelimited, ReadDelimited;
    DelimitedRoundTrip(d, rest);
    ReadTagBack(NAME_TAG, PutDelimited(d) + rest);
    assert PutVarint(NAME_TAG) + PutDelimited(d) + rest == PutVarint(NAME_TAG) + (PutDelimited(d) + rest);
  }

  lemma TagParts(u: Unknown)
    ensures u.FieldTag() % 8 == u.WireType() && u.FieldTag() / 8 == u.num
  {
  }

  lemma NextAfterField(u: Unknown, rest: Bytes)
    requires Valid(u)
    ensures NextItem(PutField(u) + rest) == Field(ReadAs(u), rest)
  {
    hide PutVarint, ReadTag, SkipField, PutValue, Unknown.FieldTag, ReadDelimited, ReadVarint32, ReadVarint64;
    var s := PutValue(u) + rest;
    FieldRoundTrip(u, rest);
    TagParts(u);
    ReadTagBack(u.FieldTag(), s);
    assert PutField(u) + rest == PutVarint(u.FieldTag()) + s;
    if u.Varint? {
      VarintBack(u, rest);
    } else if u.Delimited? {
      DelimitedBack(u, rest);
    }
  }

  lemma VarintBack(u: Unknown, rest: Bytes)
    requires Valid(u) && u.Varint?
    ensures ReadVarint32(PutValue(u) + rest) == Some((u.value % TWO32, rest))
    ensures u.FieldTag() == ID_TAG <==> u.num == 1
  {
    hide PutVarint, GetVarint;
    VarintSizeIsLength(u.value);
    VarintSizeBound(u.value);
    VarintRoundTrip(u.value, rest, MAX_VARINT);
  }

  lemma DelimitedBack(u: Unknown, rest: Bytes)
    requires Valid(u) && u.Delimited?
    ensures ReadDelimited(PutValue(u) + rest) == Some((u.data, rest))
    ensures u.FieldTag() == NAME_TAG <==> u.num == 2
  {
    hide ReadDelimited, PutDelimited;
    DelimitedRoundTrip(u.data, rest);
  }

  function ApplyAll(m: Msg, us: seq<Unknown>): Msg
    decreases |us|
  {
    if us == [] then m else ApplyAll(Apply(m, ReadAs(us[0])), us[1..])
  }

  lemma {:induction false} ParseFields(us: seq<Unknown>, m: Msg)
    requires AllValid(us)
    ensures Parse(PutFields(us), m) == Done(ApplyAll(m, us), true, [])
    decreases |us|
  {
    if us == [] {
      assert NextItem([]) == Finished;
    } else {
      hide NextItem, PutField, ReadAs;
      NextAfterField(us[0], PutFields(us[1..]));
      ParseFields(us[1..], Apply(m, ReadAs(us[0])));
    }
  }

  /** The fields that the has-bits show. */
  function Shown(m: Msg): Msg {
    Msg(m.hasId, if m.hasId then m.id else 0, m.hasName, if m.hasName then m.name else [], [])
  }

  /** A serialized message parses to its true end. */
  lemma ParseSerialized(m: Msg)
    requires Sendable(m)
    ensures Parse(Serialize(m), EMPTY) == Done(ApplyAll(Shown(m), m.unknown), true, [])
  {
    hide NextItem, PutFields, ApplyAll, AllValid, PutVarint, PutDelimited;
    var fields := PutFields(m.unknown);
    var m1 := Shown(m).(hasName := false, name := []);
    assert Parse(fields, Shown(m)) == Done(ApplyAll(Shown(m), m.unknown), true, []) by {
      ParseFields(m.unknown, Shown(m));
    }
    assert Parse(PutName(m) + fields, m1) == Parse(fields, Shown(m)) by {
      if m.hasName { NextAfterName(m.name, fields); } else { assert PutName(m) + fields == fields; }
    }
    assert Serialize(m) == PutId(m) + (PutName(m) + fields);
    if m.hasId {
      NextAfterId(m.id, PutName(m) + fields);
    } else {
      assert Serialize(m) == PutName(m) + fields;
    }
  }

  lemma {:induction false} ApplyUnknown(m: Msg, us: seq<Unknown>)
    ensures NoneKnown(us) ==> ApplyAll(m, us) == m.(unknown := m.unknown + us)
    ensures |ApplyAll(m, us).unknown| <= |m.unknown| + |us|
    ensures AllValid(us) && !NoneKnown(us) ==> |ApplyAll(m, us).unknown| < |m.unknown| + |us|
    decreases |us|
  {
    if us == [] {
      assert m.unknown + us == m.unknown;
    } else {
      var m1 := Apply(m, ReadAs(us[0]));
      ApplyUnknown(m1, us[1..]);
      assert m.unknown + [us[0]] + us[1..] == m.unknown + us;
      assert Valid(us[0]) && IsKnown(us[0]) ==> !ReadAs(us[0]).Extra?;
    }
  }

  /**
   * Parsing what was written gives the message back exactly when its cleared has-bits mean defaults
   * and none of its unknown fields carries a tag that the parser recognises.
   */
  lemma RoundTrip(m: Msg)
    requires Sendable(m)
    ensures Parse(Serialize(m), EMPTY) == Done(m, true, []) <==> Canonical(m) && NoneKnown(m.unknown)
  {
    hide Parse, Serialize, ApplyAll;
    ParseSerialized(m);
    ApplyUnknown(Shown(m), m.unknown);
    assert [] + m.unknown == m.unknown;
  }

  /** A message that came from the wire always comes back. */
  lemma ParsedMessagesRoundTrip(s: Bytes)
    requires Parse(s, EMPTY).Done?
    ensures var m := Parse(s, EMPTY).msg;
            Parse(Serialize(m), EMPTY) == Done(m, true, []) && |Serialize(m)| == ByteSizeOf(m)
  {
    hide Parse, Serialize, ByteSizeOf;
    ParseKeeps(s, EMPTY, Debris([], []));
    ParseKeepsCanonical(s, EMPTY, Debris([], []));
    RoundTrip(Parse(s, EMPTY).msg);
    ByteSizeIsLength(Parse(s, EMPTY).msg);
  }

  /** All names and all that failing reads leave can be sent. */
  predicate FitHistory(h: History) {
    match h
    case New => true
    case SetName(g, d) => FitHistory(g) && |d| <= INT_MAX
    case WriteName(g, d) => FitHistory(g) && |d| <= INT_MAX
    case MergeFrom(g, from) => FitHistory(g) && FitHistory(from)
    case CopyFrom(g, from) => FitHistory(g) && FitHistory(from)
    case SwapWith(g, from) => FitHistory(g) && FitHistory(from)
    case ParseFrom(g, _, d) => FitHistory(g) && Fit(d)
    case _ => FitHistory(h.h)
  }

  lemma {:induction false} HistoryIsSendable(h: History)
    requires FitHistory(h)
    ensures Sendable(Value(h)) && NoneKnown(Value(h).unknown)
  {
    hide Parse, After, IsKnown, Valid, OwnsString;
    match h
    case New =>
    case SwapWith(_, from) => HistoryIsSendable(from);
    case ParseFrom(g, s, d) =>
      HistoryIsSendable(g);
      ParseKeeps(s, Value(g), d);
    case MergeFrom(g, from) =>
      HistoryIsSendable(g);
      HistoryIsSendable(from);
      AppendedAll(Value(g).unknown, Value(from).unknown);
    case CopyFrom(g, from) =>
      HistoryIsSendable(g);
      HistoryIsSendable(from);
      AppendedAll([], Value(from).unknown);
    case _ => HistoryIsSendable(h.h);
  }

  /** Every reachable message comes back from the wire, with the size computed, iff no stale name is left in it. */
  lemma ReachableRoundTrip(h: History)
    requires FitHistory(h)
    ensures Parse(Serialize(Value(h)), EMPTY) == Done(Value(h), true, []) <==> !StaleName(h)
    ensures |Serialize(Value(h))| == ByteSizeOf(Value(h))
  {
    hide Parse, Serialize, ByteSizeOf, Value;
    HistoryIsSendable(h);
    CanonicalUnlessStale(h);
    RoundTrip(Value(h));
    ByteSizeIsLength(Value(h));
  }

  /** The items of an input, in the order in which they are read. */
  function Items(s: Bytes): seq<Item>
    decreases |s|
  {
    match NextItem(s)
    case Field(i, rest) => [i] + Items(rest)
    case _ => []
  }

  function Extras(us: seq<Unknown>): seq<Item> {
    seq(|us|, i requires 0 <= i < |us| => Extra(us[i]))
  }

  lemma {:induction false} ItemsOfFields(us: seq<Unknown>)
    requires AllValid(us) && NoneKnown(us)
    ensures Items(PutFields(us)) == Extras(us)
  {
    if us == [] {
      assert NextItem([]) == Finished;
    } else {
      hide NextItem, PutField, Valid;
      NextAfterField(us[0], PutFields(us[1..]));
      ItemsOfFields(us[1..]);
      assert Extras(us) == [Extra(us[0])] + Extras(us[1..]);
    }
  }

  lemma FirstItem(s: Bytes, i: Item, rest: Bytes)
    requires NextItem(s) == Field(i, rest)
    ensures Items(s) == [i] + Items(rest)
  {
    hide NextItem;
  }

  /** Fields are written in the order of their numbers, unknown ones behind them in theirs. */
  lemma WrittenInOrder(m: Msg)
    requires Sendable(m) && NoneKnown(m.unknown)
    ensures Items(Serialize(m))
         == (if m.hasId then [Id(m.id)] else []) + (if m.hasName then [Name(m.name)] else []) + Extras(m.unknown)
  {
    hide NextItem, PutFields, PutVarint, PutDelimited, AllValid, Items, SignExtended;
    var fields, named := PutFields(m.unknown), PutName(m) + PutFields(m.unknown);
    ItemsOfFields(m.unknown);
    if m.hasName {
      NextAfterName(m.name, fields);
      FirstItem(named, Name(m.name), fields);
    } else {
      assert named == fields;
    }
    assert Serialize(m) == PutId(m) + named;
    if m.hasId {
      NextAfterId(m.id, named);
      FirstItem(Serialize(m), Id(m.id), named);
    } else {
      assert Serialize(m) == named;
    }
  }

  /**
   * An id is written as the varint of its 64-bit two's complement, a negative one in ten bytes; a name as
   * its length and its bytes.
   */
  lemma OnTheWire(m: Msg)
    requires |m.name| < TWO64
    ensures m.hasId ==>
              var v := SignExtended(m.id);
              && v < TWO64 && (v - m.id) % TWO64 == 0
              && [8] + PutVarint(v) <= Serialize(m) && (m.id < 0 ==> |PutVarint(v)| == 10)
    ensures m.hasName && !m.hasId ==> [18] + PutVarint(|m.name|) + m.name <= Serialize(m)
  {
    hide PutVarint, PutFields;
    OneByteTag(8);
    OneByteTag(18);
    VarintSizeIsLength(SignExtended(m.id));
    if m.hasName && !m.hasId {
      assert Serialize(m) == [18] + PutVarint(|m.name|) + m.name + PutFields(m.unknown);
    }
  }

  // ----- sizes

  function Int32Size(i: Int32): nat {
    if i < 0 then 10 else VarintSize(i)
  }

  /** ByteSize: one byte for each tag and the sizes of the values. */
  function ByteSizeOf(m: Msg): nat {
    (if m.hasId then 1 + Int32Size(m.id) else 0)
    + (if m.hasName then 1 + VarintSize(|m.name|) + |m.name| else 0)
    + FieldsSize(m.unknown)
  }

  lemma ByteSizeIsLength(m: Msg)
    requires Sendable(m)
    ensures |Serialize(m)| == ByteSizeOf(m)
  {
    hide PutFields, FieldsSize;
    FieldsSizeIsLength(m.unknown);
    if m.hasId {
      SignRoundTrip(m.id);
      VarintSizeIsLength(SignExtended(m.id));
      VarintSizeIsLength(ID_TAG);
    }
    if m.hasName {
      VarintSizeIsLength(|m.name|);
      VarintSizeIsLength(NAME_TAG);
    }
  }
}
