/**
 * The generated class `hello`: has-bits, a name that is the shared empty string until it is first set,
 * retained unknown fields and a cached size, with the generated methods proved against HelloCodec.
 */
module Hello {
  import opened Text
  import opened Wire
  import opened HelloCodec

  /** std::string behind a pointer. */
  class StdString {
    var data: Bytes

    constructor (data: Bytes)
      ensures this.data == data
    {
      this.data := data;
    }
  }

  /** CodedInputStream: the bytes not read yet, and what it will leave of a read that fails. */
  class CodedInput {
    var data: Bytes
    var atEnd: bool          // the last tag was looked for at the true end of the input
    const debris: Debris

    constructor (data: Bytes, debris: Debris)
      ensures this.data == data && this.debris == debris
    {
      this.data, atEnd := data, false;
      this.debris := debris;
    }

    /** 0 at the end of the input and where there is no tag. */
    method ReadTag() returns (tag: nat)
      modifies this
      ensures match Wire.ReadTag(old(data))
              case Tag(t, rest) => tag == t && data == rest
              case _ => tag == 0 && data == old(data)
      ensures atEnd == (old(data) == [])
    {
      var r := Wire.ReadTag(data);
      atEnd := data == [];
      if r.Tag? {
        tag, data := r.tag, r.rest;
      } else {
        tag := 0;
      }
    }

    /** A hint: consumes a one-byte tag that comes next, if it is in sight. */
    method ExpectTag(expected: Byte) returns (found: bool)
      requires 0 < expected < 128
      modifies this
      ensures found ==> old(data) != [] && old(data)[0] == expected
      ensures data == if found then old(data)[1..] else old(data)
    {
      var inSight := *;
      found := inSight && data != [] && data[0] == expected;
      if found {
        data := data[1..];
      }
    }

    /** A hint: true only at the end, which then counts as one where a tag was looked for. */
    method ExpectAtEnd() returns (found: bool)
      modifies this`atEnd
      ensures found ==> data == [] && atEnd
    {
      var inSight := *;
      found := inSight && data == [];
      if found {
        atEnd := true;
      }
    }

    method ReadInt32() returns (ok: bool, value: Int32)
      modifies this
      ensures match ReadVarint32(old(data))
              case None => !ok
              case Some((v, rest)) => ok && value == ToInt32(v) && data == rest
    {
      value := 0;
      var r := ReadVarint32(data);
      ok := r.Some?;
      if ok {
        value, data := ToInt32(r.value.0), r.value.1;
      }
    }

    method ReadString(into: StdString) returns (ok: bool)
      modifies this, into
      ensures match ReadDelimited(old(data))
              case None => !ok && into.data == debris.name
              case Some((d, rest)) => ok && into.data == d && data == rest
    {
      var r := ReadDelimited(data);
      ok := r.Some?;
      if ok {
        into.data, data := r.value.0, r.value.1;
      } else {
        into.data := debris.name;
      }
    }

    method SkipField(tag: nat) returns (ok: bool, field: seq<Unknown>)
      requires 0 < tag < TWO32
      modifies this
      ensures match Wire.SkipField(tag, old(data))
              case None => !ok && field == debris.unknown
              case Some((u, rest)) => ok && field == [u] && data == rest
    {
      field := debris.unknown;
      var r := Wire.SkipField(tag, data);
      ok := r.Some?;
      if ok {
        field, data := [r.value.0], r.value.1;
      }
    }
  }

  /** CodedOutputStream: the bytes written. */
  class CodedOutput {
    var data: Bytes

    constructor ()
      ensures data == []
    {
      data := [];
    }

    method Write(bytes: Bytes)
      modifies this
      ensures data == old(data) + bytes
    {
      data := data + bytes;
    }
  }

  /** The array went from `was` to `now`: s stands at at..end, and nothing outside has changed. */
  predicate Filled(was: Bytes, now: Bytes, at: nat, end: nat, s: Bytes) {
    && end == at + |s| <= |now| == |was|
    && now[at..end] == s && now[..at] == was[..at] && now[end..] == was[end..]
  }

  /** Two pieces written one behind the other. */
  lemma FilledTwice(t0: Bytes, t1: Bytes, t2: Bytes, at: nat, mid: nat, end: nat, a: Bytes, b: Bytes)
    requires Filled(t0, t1, at, mid, a) && Filled(t1, t2, mid, end, b)
    ensures Filled(t0, t2, at, end, a + b)
  {
    assert t2[at..mid] == t2[..mid][at..] == t1[..mid][at..] == t1[at..mid];
    assert t2[at..end] == t2[at..mid] + t2[mid..end];
    assert t2[..at] == t2[..mid][..at] && t1[..mid][..at] == t1[..at];
    assert t1[end..] == t1[mid..][end - mid..] && t0[end..] == t0[mid..][end - mid..];
  }

  method BytesToArray(s: Bytes, target: array<Byte>, at: nat) returns (end: nat)
    requires at + |s| <= target.Length
    modifies target
    ensures Filled(old(target[..]), target[..], at, end, s)
  {
    forall i | 0 <= i < |s| { target[at + i] := s[i]; }
    end := at + |s|;
  }

  /** Seven bits at a time, low ones first. */
  method VarintToArray(v: nat, target: array<Byte>, at: nat) returns (end: nat)
    requires at + |PutVarint(v)| <= target.Length
    modifies target
    ensures Filled(old(target[..]), target[..], at, end, PutVarint(v))
  {
    hide Filled;
    var value := v;
    end := at;
    ghost var was, sent: Bytes := target[..], [];
    assert Filled(was, target[..], at, end, sent) by { NothingFilled(was, at); }
    while value >= 128
      invariant Filled(was, target[..], at, end, sent) && end == at + |sent|
      invariant sent + PutVarint(value) == PutVarint(v)
    {
      var b := 128 + value % 128;
      ghost var t1, was1 := target[..], end;
      end := BytesToArray([b], target, end);
      FilledTwice(was, t1, target[..], at, was1, end, sent, [b]);
      assert PutVarint(value) == [b] + PutVarint(value / 128);
      sent, value := sent + [b], value / 128;
      FilledEnd(was, target[..], at, end, sent);
    }
    ghost var t1, was1 := target[..], end;
    end := BytesToArray([value], target, end);
    FilledTwice(was, t1, target[..], at, was1, end, sent, [value]);
  }

  lemma NothingFilled(t: Bytes, at: nat)
    requires at <= |t|
    ensures Filled(t, t, at, at, [])
  {
  }

  /** A length, then that many bytes. */
  method DelimitedToArray(d: Bytes, target: array<Byte>, at: nat) returns (end: nat)
    requires at + |PutDelimited(d)| <= target.Length
    modifies target
    ensures Filled(old(target[..]), target[..], at, end, PutDelimited(d))
  {
    hide PutVarint, Filled;
    var mid := VarintToArray(|d|, target, at);
    assert mid == at + |PutVarint(|d|)| by { FilledEnd(old(target[..]), target[..], at, mid, PutVarint(|d|)); }
    ghost var t1 := target[..];
    end := BytesToArray(d, target, mid);
    FilledTwice(old(target[..]), t1, target[..], at, mid, end, PutVarint(|d|), d);
  }

  lemma FilledEnd(was: Bytes, now: Bytes, at: nat, end: nat, s: Bytes)
    requires Filled(was, now, at, end, s)
    ensures end == at + |s|
  {
  }

  /** One unknown field: its tag, then its value, a group's fields in between. */
  method UnknownToArray(u: Unknown, target: array<Byte>, at: nat) returns (end: nat)
    requires at + |PutField(u)| <= target.Length
    modifies target
    ensures Filled(old(target[..]), target[..], at, end, PutField(u))
    decreases u, 2
  {
    hide PutVarint, PutValue, Filled;
    var tag := u.FieldTag();
    var mid := VarintToArray(tag, target, at);
    FilledEnd(old(target[..]), target[..], at, mid, PutVarint(tag));
    ghost var t1 := target[..];
    end := ValueToArray(u, target, mid);
    FilledTwice(old(target[..]), t1, target[..], at, mid, end, PutVarint(tag), PutValue(u));
  }

  method ValueToArray(u: Unknown, target: array<Byte>, at: nat) returns (end: nat)
    requires at + |PutValue(u)| <= target.Length
    modifies target
    ensures Filled(old(target[..]), target[..], at, end, PutValue(u))
    decreases u, 1
  {
    hide PutVarint, PutDelimited, PutFields, Filled;
    match u {
      case Varint(_, v) => end := VarintToArray(v, target, at);
      case Fixed64(_, b) => end := BytesToArray(b, target, at);
      case Delimited(_, d) => end := DelimitedToArray(d, target, at);
      case Group(n, us) =>
        var mid := UnknownsToArray(us, target, at);
        FilledEnd(old(target[..]), target[..], at, mid, PutFields(us));
        ghost var t1 := target[..];
        end := VarintToArray(MakeTag(n, END_GROUP), target, mid);
        FilledTwice(old(target[..]), t1, target[..], at, mid, end, PutFields(us), PutVarint(MakeTag(n, END_GROUP)));
      case Fixed32(_, b) => end := BytesToArray(b, target, at);
    }
  }

  method UnknownsToArray(us: seq<Unknown>, target: array<Byte>, at: nat) returns (end: nat)
    requires at + |PutFields(us)| <= target.Length
    modifies target
    ensures Filled(old(target[..]), target[..], at, end, PutFields(us))
    decreases us, 0
  {
    end := at;
    if us != [] {
      hide PutField, Filled;
      var mid := UnknownToArray(us[0], target, at);
      FilledEnd(old(target[..]), target[..], at, mid, PutField(us[0]));
      ghost var t1 := target[..];
      end := UnknownsToArray(us[1..], target, mid);
      FilledTwice(old(target[..]), t1, target[..], at, mid, end, PutField(us[0]), PutFields(us[1..]));
    }
  }

  class Message {
    const emptyString: StdString      // kEmptyString, shared by all messages
    var hasBits: bv32
    var id: Int32
    var name: StdString
    var unknown: seq<Unknown>
    var cachedSize: Int32

    /** A set name is in a string of the message's own, never in the shared one. */
    ghost predicate Valid()
      reads this, emptyString
    {
      emptyString.data == [] && hasBits < 4 && (hasBits & 2 != 0 ==> OwnsString())
    }

    ghost predicate OwnsString()
      reads this
    {
      name != emptyString
    }

    /** The string this message owns, if it has allocated one. */
    ghost function Owned(): set<StdString>
      reads this
    {
      if OwnsString() then {name} else {}
    }

    ghost function View(): Msg
      reads this, name
    {
      Msg(hasBits & 1 != 0, id, hasBits & 2 != 0, name.data, unknown)
    }

    constructor (emptyString: StdString)
      requires emptyString.data == []
      ensures Valid() && View() == EMPTY && Owned() == {} && this.emptyString == emptyString
    {
      this.emptyString := emptyString;
      cachedSize, id, name, hasBits, unknown := 0, 0, emptyString, 0, [];
    }

    method SetId(value: Int32)
      requires Valid()
      modifies this`hasBits, this`id
      ensures Valid() && View() == old(View()).(hasId := true, id := value)
    {
      hasBits := hasBits | 1;
      id := value;
    }

    method ClearId()
      requires Valid()
      modifies this`hasBits, this`id
      ensures Valid() && View() == old(View()).(hasId := false, id := 0)
    {
      id := 0;
      hasBits := hasBits & !1;
    }

    /** Sets the has-bit and makes sure that the message owns its string. */
    method MutableName() returns (p: StdString)
      requires Valid()
      modifies this`hasBits, this`name
      ensures Valid() && p == name && OwnsString() && (name == old(name) || fresh(name))
      ensures View() == old(View()).(hasName := true)
    {
      hasBits := hasBits | 2;
      if name == emptyString {
        name := new StdString([]);
      }
      return name;
    }

    method SetName(value: Bytes)
      requires Valid()
      modifies this`hasBits, this`name, Owned()
      ensures Valid() && OwnsString() && fresh(Owned() - old(Owned()))
      ensures View() == old(View()).(hasName := true, name := value)
    {
      hasBits := hasBits | 2;
      if name == emptyString {
        name := new StdString([]);
      }
      name.data := value;
    }

    method ClearName()
      requires Valid()
      modifies this`hasBits, Owned()
      ensures Valid() && View() == old(View()).(hasName := false, name := [])
    {
      if name != emptyString {
        name.data := [];
      }
      hasBits := hasBits & !2;
    }

    /** Hands the string over; the message forgets it. */
    method ReleaseName() returns (p: StdString?)
      requires Valid()
      modifies this`hasBits, this`name
      ensures Valid() && Owned() == {} && View() == old(View()).(hasName := false, name := [])
      ensures p == (if old(name) == emptyString then null else old(name)) && (p != null ==> p.data == old(View().name))
    {
      hasBits := hasBits & !2;
      if name == emptyString { return null; }
      p := name;
      name := emptyString;
    }

    /** Clears only what the has-bits say is set. */
    method Clear()
      requires Valid()
      modifies this`hasBits, this`id, this`unknown, Owned()
      ensures Valid() && View() == Cleared(old(View()))
      ensures !View().hasId && !View().hasName && View().unknown == []
      ensures View().id == (if old(View()).hasId || old(View()).hasName then 0 else old(View()).id)
      ensures View().name == (if old(View()).hasName then [] else old(View()).name)
    {
      if hasBits & 0xff != 0 {
        id := 0;
        if hasBits & 2 != 0 {
          if name != emptyString {
            name.data := [];
          }
        }
      }
      hasBits := 0;
      unknown := [];
    }

    method IsInitialized() returns (r: bool)
      requires Valid()
      ensures r <==> View().hasId && View().hasName
    {
      return hasBits & 3 == 3;
    }

    method MergeFrom(from: Message)
      requires Valid() && from.Valid() && from != this && from.emptyString == emptyString && Owned() !! from.Owned()
      modifies this, Owned()
      ensures Valid() && fresh(Owned() - old(Owned())) && (OwnsString() <==> old(OwnsString()) || View().hasName)
      ensures View() == Merge(old(View()), old(from.View())) && cachedSize == old(cachedSize)
      ensures var was, other := old(View()), old(from.View());
              && View().id == (if other.hasId then other.id else was.id)
              && View().name == (if other.hasName then other.name else was.name)
              && (View().hasId <==> was.hasId || other.hasId) && (View().hasName <==> was.hasName || other.hasName)
              && View().unknown == was.unknown + other.unknown
    {
      if from.hasBits & 0xff != 0 {
        if from.hasBits & 1 != 0 {
          SetId(from.id);
        }
        if from.hasBits & 2 != 0 {
          SetName(from.name.data);
        }
      }
      unknown := unknown + from.unknown;
    }

    /**
     * Copying clears and merges; copying onto itself changes nothing. The copy has the source's value
     * if in both messages cleared bits mean defaults; exactly when it has is HelloCodec.CopyYields.
     */
    method CopyFrom(from: Message)
      requires Valid() && from.Valid() && from.emptyString == emptyString
      requires from != this ==> Owned() !! from.Owned()
      modifies this, Owned()
      ensures Valid() && fresh(Owned() - old(Owned())) && (OwnsString() <==> old(OwnsString()) || View().hasName)
      ensures View() == (if from == this then old(View()) else Merge(Cleared(old(View())), old(from.View())))
      ensures old(Canonical(View()) && Canonical(from.View())) ==> View() == old(from.View())
      ensures cachedSize == old(cachedSize)
    {
      if from == this { return; }
      CopyYields(View(), from.View());
      Clear();
      MergeFrom(from);
    }

    method Swap(other: Message)
      requires Valid() && other.Valid() && other.emptyString == emptyString
      modifies this, other
      ensures Valid() && other.Valid()
      ensures View() == old(other.View()) && other.View() == old(View())
      ensures Owned() == old(other.Owned()) && other.Owned() == old(Owned())
      ensures OwnsString() == old(other.OwnsString()) && other.OwnsString() == old(OwnsString())
      ensures cachedSize == old(other.cachedSize) && other.cachedSize == old(cachedSize)
    {
      if other != this {
        id, other.id := other.id, id;
        name, other.name := other.name, name;
        hasBits, other.hasBits := other.hasBits, hasBits;
        unknown, other.unknown := other.unknown, unknown;
        cachedSize, other.cachedSize := other.cachedSize, cachedSize;
      }
    }

    // ----- parsing

    lemma NameIsOwned()
      requires Valid()
      ensures View().hasName ==> OwnsString()
    {
    }

    /** The part of the parse loop that both the switch and the jump from the id case reach. */
    method ParseName(input: CodedInput) returns (ok: bool)
      requires Valid()
      modifies this`hasBits, this`name, Owned(), input
      ensures Valid() && OwnsString() && View().hasName && fresh(Owned() - old(Owned()))
      ensures match ReadDelimited(old(input.data))
              case None => !ok && View() == After(Failed(old(View()), InName), input.debris)
              case Some((d, rest)) => ok && View() == Apply(old(View()), Name(d)) && input.data == rest
    {
      var p := MutableName();
      ok := input.ReadString(p);
    }

    /** The body of the id case. */
    method ParseId(input: CodedInput) returns (ok: bool)
      requires Valid()
      modifies this`hasBits, this`id, input
      ensures Valid() && View().hasName == old(View().hasName)
      ensures match ReadVarint32(old(input.data))
              case None => !ok && View() == After(Failed(old(View()), InId), input.debris)
              case Some((v, rest)) => ok && View() == Apply(old(View()), Id(ToInt32(v))) && input.data == rest
    {
      var value;
      ok, value := input.ReadInt32();
      if !ok { return; }
      id := value;
      hasBits := hasBits | 1;
    }

    /** The body of the default case, for a tag that is no end of a group. */
    method KeepUnknown(input: CodedInput, tag: nat) returns (ok: bool)
      requires Valid() && 0 < tag < TWO32
      modifies this`unknown, input
      ensures Valid() && View().hasName == old(View().hasName)
      ensures match SkipField(tag, old(input.data))
              case None => !ok && View() == After(Failed(old(View()), InExtra), input.debris)
              case Some((u, rest)) => ok && View() == Apply(old(View()), Extra(u)) && input.data == rest
    {
      hide SkipField;
      var field;
      ok, field := input.SkipField(tag);
      unknown := unknown + field;
    }

    /**
     * The generated parser, with its two shortcuts: after an id it looks for the one-byte tag of a name
     * and goes straight to it, and after a name it returns when the input is used up. Whatever the two
     * hints answer, it succeeds exactly when the plain tag loop does, and leaves the same message, also
     * when it fails; and where it succeeds, the same rest of the input and the same word on its end.
     */
    method MergePartialFromCodedStream(input: CodedInput) returns (ok: bool)
      requires Valid()
      modifies this`hasBits, this`id, this`name, this`unknown, Owned(), input
      ensures Valid() && fresh(Owned() - old(Owned())) && (OwnsString() <==> old(OwnsString()) || View().hasName)
      ensures ok <==> Parse(old(input.data), old(View())).Done?
      ensures View() == After(Parse(old(input.data), old(View())), input.debris)
      ensures var r := Parse(old(input.data), old(View()));
              ok ==> input.data == r.rest && input.atEnd == r.atEnd
    {
      hide SkipField, ReadDelimited, ReadVarint32, Wire.ReadTag, ToInt32, View, Parse, NextItem, Apply;
      ghost var plain := Parse(input.data, View());
      NameIsOwned();
      while true
        invariant Valid() && fresh(Owned() - old(Owned())) && (OwnsString() <==> old(OwnsString()) || View().hasName)
        invariant Parse(input.data, View()) == plain
        decreases |input.data|
      {
        ParseRound(input.data, View());
        var tag := input.ReadTag();
        if tag == 0 { return true; }
        if tag / 8 == 1 && tag % 8 == VARINT {
          var good := ParseId(input);
          if !good { return false; }
          ghost var after := input.data;
          var nameNext := input.ExpectTag(18);
          if nameNext {
            NameComesNext(after);
            var good := ParseName(input);
            if !good { return false; }
            var atEnd := input.ExpectAtEnd();
            if atEnd { ParseEmpty(View()); return true; }
          }
        } else if tag / 8 == 2 && tag % 8 == LENGTH_DELIMITED {
          var good := ParseName(input);
          if !good { return false; }
          var atEnd := input.ExpectAtEnd();
          if atEnd { ParseEmpty(View()); return true; }
        } else {
          if tag % 8 == END_GROUP { return true; }
          var good := KeepUnknown(input, tag);
          if !good { return false; }
        }
      }
    }

    // ----- serializing

    method SerializeWithCachedSizes(output: CodedOutput)
      requires Valid()
      modifies output
      ensures output.data == old(output.data) + Serialize(View())
    {
      hide PutVarint, PutDelimited, PutFields;
      ghost var was, v := output.data, View();
      NoFieldsNoBytes();
      if hasBits & 1 != 0 {
        output.Write(PutVarint(ID_TAG) + PutVarint(SignExtended(id)));
      }
      assert output.data == was + PutId(v);
      if hasBits & 2 != 0 {
        output.Write(PutVarint(NAME_TAG) + PutDelimited(name.data));
      }
      assert output.data == was + PutId(v) + PutName(v);
      if unknown != [] {
        output.Write(PutFields(unknown));
      }
      assert output.data == was + PutId(v) + PutName(v) + PutFields(v.unknown);
      Regroup(was, PutId(v), PutName(v), PutFields(v.unknown));
    }

    method IdToArray(target: array<Byte>, at: nat) returns (end: nat)
      requires Valid() && at + |PutId(View())| <= target.Length
      modifies target
      ensures Filled(old(target[..]), target[..], at, end, PutId(View()))
    {
      hide PutVarint;
      end := at;
      if hasBits & 1 != 0 {
        var mid := VarintToArray(ID_TAG, target, at);
        ghost var t1 := target[..];
        end := VarintToArray(SignExtended(id), target, mid);
        FilledTwice(old(target[..]), t1, target[..], at, mid, end, PutVarint(ID_TAG), PutVarint(SignExtended(id)));
      }
    }

    method NameToArray(target: array<Byte>, at: nat) returns (end: nat)
      requires Valid() && at + |PutName(View())| <= target.Length
      modifies target
      ensures Filled(old(target[..]), target[..], at, end, PutName(View()))
    {
      hide PutVarint, PutDelimited;
      end := at;
      if hasBits & 2 != 0 {
        var mid := VarintToArray(NAME_TAG, target, at);
        ghost var t1 := target[..];
        end := DelimitedToArray(name.data, target, mid);
        FilledTwice(old(target[..]), t1, target[..], at, mid, end, PutVarint(NAME_TAG), PutDelimited(name.data));
      }
    }

    /** The array writer puts the same bytes as the stream writer, and touches nothing around them. */
    method SerializeWithCachedSizesToArray(target: array<Byte>, at: nat) returns (end: nat)
      requires Valid() && at + |Serialize(View())| <= target.Length
      modifies target
      ensures Filled(old(target[..]), target[..], at, end, Serialize(View()))
    {
      hide PutId, PutName, PutFields, Filled;
      ghost var v := View();
      var afterId := IdToArray(target, at);
      FilledEnd(old(target[..]), target[..], at, afterId, PutId(v));
      ghost var t1 := target[..];
      var afterName := NameToArray(target, afterId);
      FilledEnd(t1, target[..], afterId, afterName, PutName(v));
      ghost var t2 := target[..];
      FilledTwice(old(target[..]), t1, t2, at, afterId, afterName, PutId(v), PutName(v));
      end := afterName;
      if unknown != [] {
        end := UnknownsToArray(unknown, target, afterName);
        FilledTwice(old(target[..]), t2, target[..], at, afterName, end, PutId(v) + PutName(v), PutFields(unknown));
      } else {
        NoFieldsNoBytes();
        assert Serialize(v) == PutId(v) + PutName(v);
      }
    }

    /**
     * The size is computed in ints and remembered: it is the number of bytes that serializing yields
     * exactly if that number is an int.
     */
    method ByteSize() returns (totalSize: Int32)
      requires Valid() && Sendable(View())
      modifies this`cachedSize
      ensures totalSize == Wrap32(|Serialize(View())|) == cachedSize && View() == old(View())
      ensures totalSize == |Serialize(View())| <==> |Serialize(View())| <= INT_MAX
    {
      hide Serialize, FieldsSize, Wrap32;
      totalSize := 0;
      ghost var exact := 0;
      NoFieldsNoBytes();
      ByteSizeIsLength(View());
      IntsDoNotWrap(0);
      if hasBits & 0xff != 0 {
        if hasBits & 1 != 0 {
          WrapSum(exact, 1 + Int32Size(id));
          totalSize, exact := Wrap32(totalSize + (1 + Int32Size(id))), exact + (1 + Int32Size(id));
        }
        if hasBits & 2 != 0 {
          ghost var size := 1 + VarintSize(|name.data|) + |name.data|;
          WrapSum(exact, size);
          totalSize, exact := Wrap32(totalSize + (1 + VarintSize(|name.data|) + |name.data|)), exact + size;
        }
      }
      if unknown != [] {
        WrapSum(exact, FieldsSize(unknown));
        totalSize, exact := Wrap32(totalSize + FieldsSize(unknown)), exact + FieldsSize(unknown);
      }
      cachedSize := totalSize;
      assert exact == ByteSizeOf(View());
      IntsDoNotWrap(exact);
    }
  }

  lemma IntsDoNotWrap(n: nat)
    ensures Wrap32(n) == n <==> n <= INT_MAX
  {
  }

  lemma Regroup(a: Bytes, b: Bytes, c: Bytes, d: Bytes)
    ensures a + b + c + d == a + (b + c + d)
  {
  }

  lemma NoFieldsNoBytes()
    ensures PutFields([]) == [] && FieldsSize([]) == 0
  {
  }

  // ----- whole histories

  /** A message that some history made, with the strings it owns new. */
  ghost predicate Made(m: Message, h: History, emptyString: StdString)
    reads m, emptyString, m.name
  {
    m.emptyString == emptyString && m.Valid() && m.View() == Value(h) && (m.OwnsString() <==> OwnsString(h))
  }

  /** Writing to a string that a message handed out: seen by the message if the string still is its own. */
  method WriteString(m: Message, p: StdString, data: Bytes)
    requires m.Valid() && p != m.emptyString
    modifies p
    ensures m.Valid() && m.View() == if p == m.name then old(m.View()).(name := data) else old(m.View())
    ensures var v := m.View();
            p == m.name ==> (Canonical(v) <==> (v.hasName || data == []) && (v.hasId || v.id == 0))
  {
    p.data := data;
  }

  /** A change that one message makes to itself. */
  method ReplayOwn(h: History, m: Message, emptyString: StdString)
    requires !h.New? && !h.MergeFrom? && !h.CopyFrom? && !h.SwapWith? && !h.ParseFrom? && Made(m, h.h, emptyString)
    modifies m, m.Owned()
    ensures Made(m, h, emptyString) && fresh(m.Owned() - old(m.Owned()))
  {
    hide Cleared;
    match h {
      case SetId(_, v) => m.SetId(v);
      case ClearId(_) => m.ClearId();
      case SetName(_, d) => m.SetName(d);
      case MutableName(_) => var _ := m.MutableName();
      case ClearName(_) => m.ClearName();
      case ReleaseName(_) => var _ := m.ReleaseName();
      case Clear(_) => m.Clear();
      case WriteName(_, d) => if m.name != emptyString { WriteString(m, m.name, d); }
    }
  }

  /** A change that takes another message. */
  method ReplayWith(h: History, m: Message, other: Message, emptyString: StdString)
    requires h.MergeFrom? || h.CopyFrom? || h.SwapWith?
    requires Made(m, h.h, emptyString) && Made(other, h.from, emptyString)
    requires m != other && m.Owned() !! other.Owned()
    modifies m, m.Owned(), other
    ensures Made(m, h, emptyString) && fresh(m.Owned() - old(m.Owned() + other.Owned()))
  {
    hide Cleared, Merge;
    match h {
      case MergeFrom(_, _) => m.MergeFrom(other);
      case CopyFrom(_, _) => m.CopyFrom(other);
      case SwapWith(_, _) => m.Swap(other);
    }
  }

  /**
   * The class through any history, made with its own methods: it holds exactly the history's value, and
   * a string of its own exactly when the history says.
   */
  method Replay(h: History, emptyString: StdString) returns (m: Message)
    requires emptyString.data == []
    ensures fresh(m) && fresh(m.Owned()) && Made(m, h, emptyString)
  {
    hide Parse, Made;
    if h.New? {
      m := new Message(emptyString);
      NewIsMade(m, emptyString);
      return;
    }
    m := Replay(h.h, emptyString);
    if h.ParseFrom? {
      var input := new CodedInput(h.input, h.debris);
      ReplayParse(h, m, input, emptyString);
    } else if h.MergeFrom? || h.CopyFrom? || h.SwapWith? {
      var other := Replay(h.from, emptyString);
      ReplayWith(h, m, other, emptyString);
    } else {
      ReplayOwn(h, m, emptyString);
    }
  }

  lemma NewIsMade(m: Message, emptyString: StdString)
    requires m.Valid() && m.View() == EMPTY && m.Owned() == {} && m.emptyString == emptyString
    ensures Made(m, New, emptyString)
  {
  }

  /** A parse, whether it succeeds or fails. */
  method ReplayParse(h: History, m: Message, input: CodedInput, emptyString: StdString)
    requires h.ParseFrom? && Made(m, h.h, emptyString) && input.data == h.input && input.debris == h.debris
    modifies m, m.Owned(), input
    ensures Made(m, h, emptyString) && fresh(m.Owned() - old(m.Owned()))
  {
    hide Parse, After;
    var _ := m.MergePartialFromCodedStream(input);
  }

  /** So a string taken with mutable_name and written after clear_name leaves a name behind a cleared has-bit. */
  method StaleNamePointer(emptyString: StdString, written: Bytes) returns (m: Message)
    requires emptyString.data == []
    ensures m.Valid() && !m.View().hasName && m.View().name == written
    ensures Canonical(m.View()) <==> written == []
  {
    m := new Message(emptyString);
    var p := m.MutableName();
    m.ClearName();
    WriteString(m, p, written);
  }
}
