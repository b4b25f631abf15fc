/**
 * The protocol buffer wire format, from the Protocol Buffers Encoding specification ("Base 128 Varints",
 * "Message Structure"): varints, tags, length-delimited data, and the fields of unknown type with
 * nested groups, each with its reader, its writer and its size.
 */
module Wire {
  import opened Text

  type Byte = b: int | 0 <= b < 256
  type Bytes = seq<Byte>

  const TWO32 := 0x1_0000_0000
  const TWO64 := 0x1_0000_0000_0000_0000
  const VARINT := 0
  const FIXED64 := 1
  const LENGTH_DELIMITED := 2
  const START_GROUP := 3
  const END_GROUP := 4
  const FIXED32 := 5

  // ----- varints

  function PutVarint(v: nat): (s: Bytes)
    ensures s != []
  {
    if v < 128 then [v] else [128 + v % 128] + PutVarint(v / 128)
  }

  /** Reads a varint of at most k bytes. */
  function GetVarint(s: Bytes, k: nat): (r: Option<(nat, Bytes)>)
    ensures r.Some? ==> |r.value.1| < |s|
    decreases k
  {
    if s == [] || k == 0 then None
    else if s[0] < 128 then Some((s[0], s[1..]))
    else
      match GetVarint(s[1..], k - 1)
      case None => None
      case Some((v, rest)) => Some((s[0] - 128 + 128 * v, rest))
  }

  const MAX_VARINT := 10

  function ReadVarint32(s: Bytes): (r: Option<(nat, Bytes)>)
    ensures r.Some? ==> |r.value.1| < |s| && r.value.0 < TWO32
  {
    match GetVarint(s, MAX_VARINT)
    case None => None
    case Some((v, rest)) => Some((v % TWO32, rest))
  }

  function ReadVarint64(s: Bytes): (r: Option<(nat, Bytes)>)
    ensures r.Some? ==> |r.value.1| < |s| && r.value.0 < TWO64
  {
    match GetVarint(s, MAX_VARINT)
    case None => None
    case Some((v, rest)) => Some((v % TWO64, rest))
  }

  lemma {:induction false} VarintStable(s: Bytes, more: Bytes, k: nat)
    requires GetVarint(s, k).Some?
    ensures GetVarint(s + more, k) == Some((GetVarint(s, k).value.0, GetVarint(s, k).value.1 + more))
  {
    assert (s + more)[1..] == s[1..] + more;
    if s[0] >= 128 {
      VarintStable(s[1..], more, k - 1);
    }
  }

  lemma {:induction false} VarintRoundTrip(v: nat, rest: Bytes, k: nat)
    requires |PutVarint(v)| <= k
    ensures GetVarint(PutVarint(v) + rest, k) == Some((v, rest))
  {
    var s := PutVarint(v) + rest;
    if v < 128 {
      assert s[1..] == rest;
    } else {
      VarintRoundTrip(v / 128, rest, k - 1);
      assert s[1..] == PutVarint(v / 128) + rest;
    }
  }

  /** k bytes hold exactly the values below 128^k. */
  lemma {:induction false} VarintLength(v: nat, k: nat)
    ensures |PutVarint(v)| <= k <==> k > 0 && v < Pow(128, k)
  {
    if k == 0 {
    } else if v < 128 {
      PowPositive(128, k - 1);
    } else if k == 1 {
      assert Pow(128, 1) == 128 * Pow(128, 0);
    } else {
      VarintLength(v / 128, k - 1);
      assert Pow(128, k) == 128 * Pow(128, k - 1);
    }
  }

  lemma PowersOf128()
    ensures Pow(128, 1) == 0x80 && Pow(128, 2) == 0x4000 && Pow(128, 3) == 0x20_0000 && Pow(128, 4) == 0x1000_0000
    ensures Pow(128, 5) == 0x8_0000_0000 && Pow(128, 6) == 0x400_0000_0000 && Pow(128, 7) == 0x2_0000_0000_0000
    ensures Pow(128, 8) == 0x100_0000_0000_0000 && Pow(128, 9) == 0x8000_0000_0000_0000
    ensures Pow(128, 10) == 0x40_0000_0000_0000_0000
  {
  }

  /** The size of a varint, by comparison with the powers of 128. */
  function VarintSize(v: nat): nat {
    if v < 0x80 then 1
    else if v < 0x4000 then 2
    else if v < 0x20_0000 then 3
    else if v < 0x1000_0000 then 4
    else if v < 0x8_0000_0000 then 5
    else if v < 0x400_0000_0000 then 6
    else if v < 0x2_0000_0000_0000 then 7
    else if v < 0x100_0000_0000_0000 then 8
    else if v < 0x8000_0000_0000_0000 then 9
    else 10
  }

  lemma VarintSizeIsLength(v: nat)
    requires v < TWO64
    ensures |PutVarint(v)| == VarintSize(v)
  {
    hide PutVarint;
    PowersOf128();
    var n := VarintSize(v);
    VarintLength(v, n);
    VarintLength(v, n - 1);
  }

  lemma VarintSizeBound(v: nat)
    ensures 1 <= VarintSize(v) <= MAX_VARINT
  {
  }

  // ----- tags

  datatype TagRead = AtEnd | NoTag | Tag(tag: nat, rest: Bytes)

  /** 0 from the library's ReadTag is either the true end of the input or anything that is no tag. */
  function ReadTag(s: Bytes): (r: TagRead)
    ensures r.Tag? ==> 0 < r.tag < TWO32 && |r.rest| < |s|
    ensures r.AtEnd? <==> s == []
  {
    if s == [] then AtEnd
    else
      match ReadVarint32(s)
      case None => NoTag
      case Some((t, rest)) => if t == 0 then NoTag else Tag(t, rest)
  }

  lemma ReadTagStable(s: Bytes, more: Bytes)
    requires ReadTag(s).Tag?
    ensures ReadTag(s + more) == Tag(ReadTag(s).tag, ReadTag(s).rest + more)
  {
    VarintStable(s, more, MAX_VARINT);
  }

  lemma ReadTagBack(t: nat, rest: Bytes)
    requires 0 < t < TWO32
    ensures ReadTag(PutVarint(t) + rest) == Tag(t, rest)
  {
    hide GetVarint, PutVarint;
    VarintSizeIsLength(t);
    VarintRoundTrip(t, rest, MAX_VARINT);
  }

  // ----- length-delimited data

  function Take(s: Bytes, n: nat): (r: Option<(Bytes, Bytes)>)
    ensures r.Some? ==> |r.value.0| == n && |r.value.1| == |s| - n
  {
    if |s| < n then None else Some((s[..n], s[n..]))
  }

  /** A length that is negative as an int, or more than is left, is an error. */
  function ReadDelimited(s: Bytes): (r: Option<(Bytes, Bytes)>)
    ensures r.Some? ==> |r.value.1| < |s| && |r.value.0| <= 0x7fff_ffff
  {
    match ReadVarint32(s)
    case None => None
    case Some((n, rest)) => if n > 0x7fff_ffff then None else Take(rest, n)
  }

  lemma TakeBack(b: Bytes, rest: Bytes)
    ensures Take(b + rest, |b|) == Some((b, rest))
  {
    assert (b + rest)[..|b|] == b && (b + rest)[|b|..] == rest;
  }

  function PutDelimited(data: Bytes): Bytes {
    PutVarint(|data|) + data
  }

  lemma DelimitedStable(s: Bytes, more: Bytes)
    requires ReadDelimited(s).Some?
    ensures ReadDelimited(s + more) == Some((ReadDelimited(s).value.0, ReadDelimited(s).value.1 + more))
  {
    VarintStable(s, more, MAX_VARINT);
    var (n, rest) := ReadVarint32(s).value;
    assert (rest + more)[..n] == rest[..n] && (rest + more)[n..] == rest[n..] + more;
  }

  lemma DelimitedRoundTrip(data: Bytes, rest: Bytes)
    requires |data| <= 0x7fff_ffff
    ensures ReadDelimited(PutDelimited(data) + rest) == Some((data, rest))
  {
    hide GetVarint, PutVarint;
    VarintSizeIsLength(|data|);
    VarintRoundTrip(|data|, data + rest, MAX_VARINT);
    assert PutDelimited(data) + rest == PutVarint(|data|) + (data + rest);
  }

  // ----- fields that the message type does not know

  /** UnknownField: fixed-width values are kept as their bytes. */
  datatype Unknown =
    | Varint(num: nat, value: nat)
    | Fixed64(num: nat, bytes: Bytes)
    | Delimited(num: nat, data: Bytes)
    | Group(num: nat, fields: seq<Unknown>)
    | Fixed32(num: nat, bytes: Bytes)
  {
    function WireType(): nat {
      match this
      case Varint(_, _) => VARINT
      case Fixed64(_, _) => FIXED64
      case Delimited(_, _) => LENGTH_DELIMITED
      case Group(_, _) => START_GROUP
      case Fixed32(_, _) => FIXED32
    }

    function FieldTag(): nat {
      MakeTag(num, WireType())
    }
  }

  function MakeTag(num: nat, wireType: nat): nat {
    num * 8 + wireType
  }

  /** What the wire can carry: a tag that is a positive uint32, and values of their width. */
  predicate Valid(u: Unknown)
    decreases u, 1
  {
    && 0 < u.FieldTag() < TWO32
    && match u
       case Varint(_, v) => v < TWO64
       case Fixed64(_, b) => |b| == 8
       case Delimited(_, d) => |d| <= 0x7fff_ffff
       case Group(n, us) => MakeTag(n, END_GROUP) < TWO32 && AllValid(us)
       case Fixed32(_, b) => |b| == 4
  }

  predicate AllValid(us: seq<Unknown>)
    decreases us, 0
  {
    us == [] || (Valid(us[0]) && AllValid(us[1..]))
  }

  /** SkipField: reads the field behind a tag into an unknown field. */
  function SkipField(tag: nat, s: Bytes): (r: Option<(Unknown, Bytes)>)
    requires 0 < tag < TWO32
    ensures r.Some? ==> |r.value.1| <= |s| && r.value.0.FieldTag() == tag && Valid(r.value.0)
    decreases |s|, 1
  {
    var num := tag / 8;
    match tag % 8
    case 0 =>
      (match ReadVarint64(s) case None => None case Some((v, rest)) => Some((Varint(num, v), rest)))
    case 1 => (match Take(s, 8) case None => None case Some((b, rest)) => Some((Fixed64(num, b), rest)))
    case 2 => (match ReadDelimited(s) case None => None case Some((d, rest)) => Some((Delimited(num, d), rest)))
    case 3 =>
      (match SkipMessage(s)
       case None => None
       case Some((us, t, rest)) => if t == MakeTag(num, END_GROUP) then Some((Group(num, us), rest)) else None)
    case 5 => (match Take(s, 4) case None => None case Some((b, rest)) => Some((Fixed32(num, b), rest)))
    case _ => None
  }

  /** SkipMessage: fields up to an end-group tag, or up to where no tag is left (tag 0). */
  function SkipMessage(s: Bytes): (r: Option<(seq<Unknown>, nat, Bytes)>)
    ensures r.Some? ==> |r.value.2| <= |s| && AllValid(r.value.0) && r.value.1 < TWO32
    decreases |s|, 0
  {
    match ReadTag(s)
    case AtEnd => Some(([], 0, s))
    case NoTag => Some(([], 0, s))
    case Tag(t, rest) =>
      if t % 8 == END_GROUP then Some(([], t, rest))
      else
        match SkipField(t, rest)
        case None => None
        case Some((u, rest')) =>
          match SkipMessage(rest')
          case None => None
          case Some((us, e, rest'')) => Some(([u] + us, e, rest''))
  }

  function PutField(u: Unknown): Bytes
    decreases u, 1
  {
    PutVarint(u.FieldTag()) + PutValue(u)
  }

  function PutValue(u: Unknown): Bytes
    decreases u, 0
  {
    match u
    case Varint(_, v) => PutVarint(v)
    case Fixed64(_, b) => b
    case Delimited(_, d) => PutDelimited(d)
    case Group(n, us) => PutFields(us) + PutVarint(MakeTag(n, END_GROUP))
    case Fixed32(_, b) => b
  }

  function PutFields(us: seq<Unknown>): Bytes
    decreases us, 2
  {
    if us == [] then [] else PutField(us[0]) + PutFields(us[1..])
  }

  /** Reading a field to its end does not depend on what follows it. */
  lemma {:induction false} SkipFieldStable(tag: nat, s: Bytes, more: Bytes)
    requires 0 < tag < TWO32 && SkipField(tag, s).Some?
    ensures SkipField(tag, s + more) == Some((SkipField(tag, s).value.0, SkipField(tag, s).value.1 + more))
    decreases |s|, 1
  {
    match tag % 8
    case 0 => VarintStable(s, more, MAX_VARINT);
    case 1 => assert (s + more)[..8] == s[..8] && (s + more)[8..] == s[8..] + more;
    case 2 => DelimitedStable(s, more);
    case 3 => SkipMessageStable(s, more);
    case 5 => assert (s + more)[..4] == s[..4] && (s + more)[4..] == s[4..] + more;
    case _ =>
  }

  lemma {:induction false} SkipMessageStable(s: Bytes, more: Bytes)
    requires SkipMessage(s).Some? && SkipMessage(s).value.1 != 0
    ensures var (us, e, rest) := SkipMessage(s).value;
            SkipMessage(s + more) == Some((us, e, rest + more))
    decreases |s|, 0
  {
    ReadTagStable(s, more);
    var Tag(t, rest) := ReadTag(s);
    if t % 8 != END_GROUP {
      SkipFieldStable(t, rest, more);
      SkipMessageStable(SkipField(t, rest).value.1, more);
    }
  }

  /** Reading back what was written, fields and nested groups alike. */
  lemma {:induction false} FieldRoundTrip(u: Unknown, rest: Bytes)
    requires Valid(u)
    ensures SkipField(u.FieldTag(), PutValue(u) + rest) == Some((u, rest))
    decreases u, 0
  {
    hide PutVarint, GetVarint, VarintSize, ReadDelimited, PutDelimited, Take, SkipMessage, PutFields;
    assert u.FieldTag() % 8 == u.WireType() && u.FieldTag() / 8 == u.num;
    match u
    case Varint(_, v) =>
      VarintSizeIsLength(v);
      assert VarintSize(v) <= MAX_VARINT by { VarintSizeBound(v); }
      VarintRoundTrip(v, rest, MAX_VARINT);
    case Fixed64(_, b) => TakeBack(b, rest);
    case Delimited(_, d) => DelimitedRoundTrip(d, rest);
    case Group(n, us) =>
      var close := PutVarint(MakeTag(n, END_GROUP)) + rest;
      FieldsRoundTrip(us, n, rest);
      assert PutValue(u) + rest == PutFields(us) + close;
    case Fixed32(_, b) => TakeBack(b, rest);
  }

  lemma {:induction false} FieldsRoundTrip(us: seq<Unknown>, n: nat, rest: Bytes)
    requires AllValid(us) && MakeTag(n, END_GROUP) < TWO32
    ensures SkipMessage(PutFields(us) + (PutVarint(MakeTag(n, END_GROUP)) + rest))
         == Some((us, MakeTag(n, END_GROUP), rest))
    decreases us, 1
  {
    hide PutVarint, ReadTag, SkipField, PutValue;
    var close := PutVarint(MakeTag(n, END_GROUP)) + rest;
    if us == [] {
      ReadTagBack(MakeTag(n, END_GROUP), rest);
      assert PutFields(us) + close == close;
    } else {
      var u, us' := us[0], us[1..];
      var more := PutFields(us') + close;
      ReadTagBack(u.FieldTag(), PutValue(u) + more);
      FieldRoundTrip(u, more);
      FieldsRoundTrip(us', n, rest);
      assert PutFields(us) + close == PutVarint(u.FieldTag()) + (PutValue(u) + more);
      SkipOne(PutFields(us) + close, u, PutValue(u) + more, more);
      assert [u] + us' == us;
    }
  }

  /** One field read, then the rest of the message. */
  lemma SkipOne(s: Bytes, u: Unknown, value: Bytes, more: Bytes)
    requires ReadTag(s) == Tag(u.FieldTag(), value) && SkipField(u.FieldTag(), value) == Some((u, more))
    requires SkipMessage(more).Some?
    ensures var (us, e, rest) := SkipMessage(more).value;
            SkipMessage(s) == Some(([u] + us, e, rest))
  {
    assert u.FieldTag() % 8 == u.WireType() != END_GROUP;
  }

  // ----- sizes

  function FieldSize(u: Unknown): nat
    decreases u, 1
  {
    VarintSize(u.FieldTag()) +
    match u
    case Varint(_, v) => VarintSize(v)
    case Fixed64(_, _) => 8
    case Delimited(_, d) => VarintSize(|d|) + |d|
    case Group(n, us) => FieldsSize(us) + VarintSize(MakeTag(n, END_GROUP))
    case Fixed32(_, _) => 4
  }

  function FieldsSize(us: seq<Unknown>): nat
    decreases us, 0
  {
    if us == [] then 0 else FieldSize(us[0]) + FieldsSize(us[1..])
  }

  lemma {:induction false} FieldSizeIsLength(u: Unknown)
    requires Valid(u)
    ensures |PutField(u)| == FieldSize(u)
    decreases u, 1
  {
    VarintSizeIsLength(u.FieldTag());
    match u
    case Varint(_, v) => VarintSizeIsLength(v);
    case Fixed64(_, _) =>
    case Delimited(_, d) => VarintSizeIsLength(|d|);
    case Group(n, us) =>
      VarintSizeIsLength(MakeTag(n, END_GROUP));
      FieldsSizeIsLength(us);
    case Fixed32(_, _) =>
  }

  lemma {:induction false} FieldsSizeIsLength(us: seq<Unknown>)
    requires AllValid(us)
    ensures |PutFields(us)| == FieldsSize(us)
    decreases us, 0
  {
    if us != [] {
      FieldSizeIsLength(us[0]);
      FieldsSizeIsLength(us[1..]);
    }
  }

  // ----- the bytes, by the specification

  /** Byte i of a varint holds bits 7i to 7i + 6, and its high bit says that more bytes follow. */
  lemma {:induction false} VarintBytes(v: nat, i: nat)
    requires i < |PutVarint(v)|
    ensures Pow(128, i) > 0
    ensures PutVarint(v)[i] == (v / Pow(128, i)) % 128 + (if i + 1 < |PutVarint(v)| then 128 else 0)
  {
    PowPositive(128, i);
    if i > 0 {
      VarintBytes(v / 128, i - 1);
      assert PutVarint(v) == [128 + v % 128] + PutVarint(v / 128);
      PowPositive(128, i - 1);
      DivDiv(v, 128, Pow(128, i - 1));
    }
  }

  /** A varint of more than ten bytes is an error, for a tag and for a value. */
  lemma LongVarintsFail(s: Bytes)
    requires |s| >= 10 && forall i :: 0 <= i < 10 ==> s[i] >= 128
    ensures ReadVarint32(s) == None && ReadVarint64(s) == None
  {
    NoEndNoVarint(s, 10);
  }

  lemma {:induction false} NoEndNoVarint(s: Bytes, k: nat)
    requires |s| >= k && forall i :: 0 <= i < k ==> s[i] >= 128
    ensures GetVarint(s, k) == None
  {
    if k > 0 {
      assert s[0] >= 128;
      NoEndNoVarint(s[1..], k - 1);
    }
  }

  /** Fields of fixed width take 8 or 4 bytes, as they are; an end-group tag and the wire types 6 and 7 are no field. */
  lemma FieldWidths(num: nat, s: Bytes)
    requires 0 < num * 8 && num * 8 + 7 < TWO32
    ensures SkipField(num * 8 + 1, s) == if |s| < 8 then None else Some((Fixed64(num, s[..8]), s[8..]))
    ensures SkipField(num * 8 + 5, s) == if |s| < 4 then None else Some((Fixed32(num, s[..4]), s[4..]))
    ensures SkipField(num * 8 + 4, s) == SkipField(num * 8 + 6, s) == SkipField(num * 8 + 7, s) == None
  {
    hide SkipMessage, ReadDelimited, GetVarint;
  }

  /** A group ends with the end tag of its own number, and with no other. */
  lemma GroupsMatch(num: nat, us: seq<Unknown>, other: nat, rest: Bytes)
    requires 0 < num && num * 8 + 7 < TWO32 && other * 8 + 7 < TWO32 && AllValid(us)
    ensures SkipField(num * 8 + 3, PutFields(us) + (PutVarint(other * 8 + 4) + rest))
         == if other == num then Some((Group(num, us), rest)) else None
  {
    hide PutVarint, PutFields, SkipMessage, GetVarint, ReadDelimited;
    FieldsRoundTrip(us, other, rest);
  }
}
