/**
 * The wire format: fields are a tag and a value whose shape the tag tells.  The skipper and the group reader call each
 * other; nested messages are written first and get their length in front afterwards.
 */
module WireFormat {
  import opened Bytes
  import opened PbBuffer
  import opened Varint

  const VARINT: nat := 0
  const FIXED64: nat := 1
  const BYTES: nat := 2
  const GROUP_START: nat := 3
  const GROUP_END: nat := 4
  const FIXED32: nat := 5

  // pb_gettype and pb_gettag
  function WireType(tag: Word): nat {
    tag % 8
  }

  function FieldNumber(tag: Word): nat {
    tag / 8
  }

  // ---- how far a value reaches ----

  // The length of a varint of any length; 0 when it does not end.
  function Span(b: seq<Byte>): (n: nat)
    ensures n <= |b|
  {
    if b == [] then 0
    else if b[0] < 128 then 1
    else var n := Span(b[1..]); if n == 0 then 0 else n + 1
  }

  // A length and as many bytes; 0 when they are not all there.
  function BytesReach(b: seq<Byte>): (n: nat)
    ensures n <= |b|
  {
    if Length(b) == 0 || |b| - Length(b) < Value(b) then 0 else Length(b) + Value(b)
  }

  // A group up to its end: its body, and the body with the tag that ends it.
  datatype Group = NoGroup | Group(body: nat, reach: nat)

  // The bytes that the value of a tag takes; 0 when there is no such value.
  function Reach(b: seq<Byte>, tag: Word): (n: nat)
    ensures n <= |b|
    decreases |b|, 1
  {
    if WireType(tag) == VARINT then Span(b)
    else if WireType(tag) == FIXED64 then if |b| < 8 then 0 else 8
    else if WireType(tag) == BYTES then BytesReach(b)
    else if WireType(tag) == FIXED32 then if |b| < 4 then 0 else 4
    else if WireType(tag) == GROUP_START then
      var g := GroupAt(b, tag); if g.NoGroup? then 0 else g.reach
    else 0
  }

  function GroupAt(b: seq<Byte>, tag: Word): (g: Group)
    ensures g.Group? ==> g.body < g.reach <= |b|
    decreases |b|, 0
  {
    var n := Length(b);
    var inner: Word := Value(b) % 0x1_0000_0000;
    if n == 0 then NoGroup
    else if WireType(inner) == GROUP_END then
      if FieldNumber(inner) == FieldNumber(tag) then Group(0, n) else NoGroup
    else
      var k := Reach(b[n..], inner);
      if k == 0 then NoGroup
      else
        var g := GroupAt(b[n + k..], tag);
        if g.NoGroup? then NoGroup else Group(n + k + g.body, n + k + g.reach)
  }

  // ---- which number is which wire type ----

  lemma WireTypes(b: seq<Byte>, tag: Word)
    ensures tag % 8 == 0 ==> Reach(b, tag) == Span(b)
    ensures tag % 8 == 1 ==> Reach(b, tag) == if |b| < 8 then 0 else 8
    ensures tag % 8 == 2 ==> Reach(b, tag) == BytesReach(b)
    ensures tag % 8 == 3 ==> Reach(b, tag) == match GroupAt(b, tag) case NoGroup => 0 case Group(_, reach) => reach
    ensures tag % 8 == 5 ==> Reach(b, tag) == if |b| < 4 then 0 else 4
    ensures tag % 8 == 4 || tag % 8 == 6 || tag % 8 == 7 ==> Reach(b, tag) == 0
  {
    hide Span, BytesReach, GroupAt;
  }

  // A group ends with a tag of type 4 and its own number, and with no other one of type 4.
  lemma EndTag(b: seq<Byte>, tag: Word)
    requires Length(b) > 0 && Value(b) % 0x1_0000_0000 % 8 == 4
    ensures GroupAt(b, tag)
         == if Value(b) % 0x1_0000_0000 / 8 == tag / 8 then Group(0, Length(b)) else NoGroup
  {
    hide Length, Value;
  }

  // A varint that may be skipped ends with the first byte without the top bit.
  lemma {:induction false} SpanExactly(b: seq<Byte>)
    ensures var n := Span(b);
            if n > 0 then b[n - 1] < 128 && forall j :: 0 <= j < n - 1 ==> b[j] >= 128
            else forall j :: 0 <= j < |b| ==> b[j] >= 128
  {
    if b != [] && b[0] >= 128 {
      SpanExactly(b[1..]);
      assert forall j :: 1 <= j < |b| ==> b[j] == b[1..][j - 1];
    }
  }

  // ---- the skipper ----

  // pb_skipvarint
  method SkipVarint(s: Slice) returns (ret: nat)
    requires s.Valid()
    modifies s
    ensures s.Valid() && ret == Span(old(s.Rest())) && s.p == old(s.p) + ret
  {
    var p := s.p;
    while p < |s.bytes| && s.bytes[p] >= 128
      invariant s.p <= p <= |s.bytes| && unchanged(s)
      invariant var n := Span(s.bytes[p..]); Span(s.Rest()) == if n == 0 then 0 else p - s.p + n
    {
      assert s.bytes[p..][1..] == s.bytes[p + 1..];
      p := p + 1;
    }
    if p >= |s.bytes| { return 0; }
    ret := p + 1 - s.p;
    s.p := p + 1;
  }

  // pb_skipslice
  method SkipSlice(s: Slice, len: nat) returns (ret: nat)
    requires s.Valid()
    modifies s
    ensures s.Valid() && ret == (if |old(s.Rest())| < len then 0 else len) && s.p == old(s.p) + ret
  {
    if s.p + len > |s.bytes| { return 0; }
    s.p := s.p + len;
    ret := len;
  }

  // pb_skipbytes
  method SkipBytes(s: Slice) returns (ret: nat)
    requires s.Valid()
    modifies s
    ensures s.Valid() && ret == BytesReach(old(s.Rest())) && s.p == old(s.p) + ret
  {
    hide Length, Value;
    var p := s.p;
    var n, len := s.ReadVarint64();
    if n == 0 { return 0; }
    if |s.bytes| - s.p < len {
      s.p := p;
      return 0;
    }
    s.p := s.p + len;
    ret := s.p - p;
  }

  // pb_readbytes
  method ReadBytes(s: Slice) returns (ret: nat, body: Slice?)
    requires s.Valid()
    modifies s
    ensures s.Valid() && ret == BytesReach(old(s.Rest())) && s.p == old(s.p) + ret
    ensures ret != 0 ==> body != null && body.Valid() && body.Rest() == old(s.Rest())[Length(old(s.Rest()))..ret]
  {
    hide Length, Value;
    var p := s.p;
    body := null;
    var n, len := s.ReadVarint64();
    if n == 0 || |s.bytes| - s.p < len {
      s.p := p;
      return 0, null;
    }
    body := new Slice(s.bytes[..s.p + len], s.p);
    s.p := s.p + len;
    ret := s.p - p;
  }

  // The bytes from one place to another.
  method Between(s: Slice, p: nat, end: nat) returns (body: Slice)
    requires p <= end <= |s.bytes|
    ensures fresh(body) && body.Valid() && body.Rest() == s.bytes[p..][..end - p]
  {
    body := new Slice(s.bytes[..end], p);
  }

  // pb_readgroup
  method ReadGroup(s: Slice, tag: Word) returns (ret: nat, body: Slice?)
    requires s.Valid() && WireType(tag) == GROUP_START
    modifies s
    ensures s.Valid() && s.p == old(s.p) + ret
    ensures var g := GroupAt(old(s.Rest()), tag);
            if g.NoGroup? then ret == 0
            else ret == g.reach && body != null && body.Valid() && body.Rest() == old(s.Rest())[..g.body]
    decreases |s.bytes| - s.p, 0
  {
    hide Length, Value, Reach, GroupAt, GoesOn, WireType, FieldNumber;
    var p := s.p;
    var inner: Word;
    var count: nat;
    ghost var all := s.Rest();
    count, inner := s.ReadVarint32();
    ret, body := 0, null;
    ghost var b := all;
    GoesOnFrom(all, tag);
    while count != 0
      invariant s.Valid() && p + count <= s.p && count <= |b| && s.Rest() == b[count..]
      invariant count == Length(b) && (count != 0 ==> inner == Value(b) % 0x1_0000_0000)
      invariant GoesOn(all, tag, b, s.p - count - p)
      decreases |s.bytes| - s.p, count
    {
      if WireType(inner) == GROUP_END {
        EndsHere(all, tag, b, s.p - count - p);
        if FieldNumber(inner) != FieldNumber(tag) { break; }
        body := Between(s, p, s.p - count);
        ret := s.p - p;
        return;
      }
      NextField(all, tag, b, s.p - count - p);
      var k := SkipValue(s, inner);
      if k == 0 { break; }
      b := b[count + k..];
      count, inner := s.ReadVarint32();
    }
    if count == 0 { StopsHere(all, tag, b, s.p - count - p); }
    s.p := p;
    ret, body := 0, null;
  }

  // One turn of the group reader: no tag, a tag that ends a group, or another field.
  lemma NoTag(b: seq<Byte>, tag: Word)
    requires Length(b) == 0
    ensures GroupAt(b, tag) == NoGroup
  {
  }

  lemma GroupEnds(b: seq<Byte>, tag: Word)
    requires Length(b) > 0 && WireType(Value(b) % 0x1_0000_0000) == GROUP_END
    ensures GroupAt(b, tag)
         == if FieldNumber(Value(b) % 0x1_0000_0000) == FieldNumber(tag) then Group(0, Length(b)) else NoGroup
  {
  }

  lemma {:induction false} GroupGoesOn(b: seq<Byte>, tag: Word)
    requires Length(b) > 0 && WireType(Value(b) % 0x1_0000_0000) != GROUP_END
    ensures var n := Length(b);
            var k := Reach(b[n..], Value(b) % 0x1_0000_0000);
            GroupAt(b, tag) == if k == 0 then NoGroup else Moved(GroupAt(b[n + k..], tag), n + k)
  {
  }

  // A group that was found n bytes further on.
  function Moved(g: Group, n: nat): Group {
    if g.NoGroup? then NoGroup else Group(n + g.body, n + g.reach)
  }

  // The search for the end of the group is at b now, n bytes further on.
  ghost predicate GoesOn(all: seq<Byte>, tag: Word, b: seq<Byte>, n: nat) {
    GroupAt(all, tag) == Moved(GroupAt(b, tag), n)
  }

  lemma GoesOnFrom(b: seq<Byte>, tag: Word)
    ensures GoesOn(b, tag, b, 0)
  {
    hide GroupAt;
  }

  lemma StopsHere(all: seq<Byte>, tag: Word, b: seq<Byte>, n: nat)
    requires GoesOn(all, tag, b, n) && Length(b) == 0
    ensures GroupAt(all, tag) == NoGroup
  {
    hide GroupAt;
    NoTag(b, tag);
  }

  lemma EndsHere(all: seq<Byte>, tag: Word, b: seq<Byte>, n: nat)
    requires GoesOn(all, tag, b, n) && Length(b) > 0 && WireType(Value(b) % 0x1_0000_0000) == GROUP_END
    ensures GroupAt(all, tag)
         == if FieldNumber(Value(b) % 0x1_0000_0000) == FieldNumber(tag) then Group(n, n + Length(b)) else NoGroup
  {
    hide GroupAt;
    GroupEnds(b, tag);
  }

  lemma NextField(all: seq<Byte>, tag: Word, b: seq<Byte>, n: nat)
    requires GoesOn(all, tag, b, n) && Length(b) > 0 && WireType(Value(b) % 0x1_0000_0000) != GROUP_END
    ensures var len := Length(b);
            var k := Reach(b[len..], Value(b) % 0x1_0000_0000);
            if k == 0 then GroupAt(all, tag) == NoGroup else GoesOn(all, tag, b[len + k..], n + len + k)
  {
    hide GroupAt;
    GroupGoesOn(b, tag);
  }

  // pb_skipvalue: a skip that fails leaves the slice where it was.
  method SkipValue(s: Slice, tag: Word) returns (ret: nat)
    requires s.Valid()
    modifies s
    ensures s.Valid() && ret == Reach(old(s.Rest()), tag) && s.p == old(s.p) + ret
    ensures s.Rest() == old(s.Rest())[ret..]
    decreases |s.bytes| - s.p, 1
  {
    hide Length, Value, GroupAt;
    ret := 0;
    if WireType(tag) == VARINT {
      ret := SkipVarint(s);
    } else if WireType(tag) == FIXED64 {
      ret := SkipSlice(s, 8);
    } else if WireType(tag) == BYTES {
      ret := SkipBytes(s);
    } else if WireType(tag) == FIXED32 {
      ret := SkipSlice(s, 4);
    } else if WireType(tag) == GROUP_START {
      var body;
      ret, body := ReadGroup(s, tag);
    }
  }

  // ---- fields ----

  datatype Field =
    | VarintField(number: nat, value: Long)
    | Fixed64Field(number: nat, value: Long)
    | Fixed32Field(number: nat, word: Word)
    | BytesField(number: nat, bytes: seq<Byte>)
    | MessageField(number: nat, fields: Fields)
    | GroupField(number: nat, fields: Fields)

  datatype Fields = None | More(head: Field, tail: Fields)

  // pb_pair
  function Tag(number: nat, kind: nat): Word
    requires number < 0x2000_0000 && kind < 8
  {
    8 * number + kind
  }

  function Kind(f: Field): (k: nat)
    ensures k < 8
  {
    match f
    case VarintField(_, _) => VARINT
    case Fixed64Field(_, _) => FIXED64
    case Fixed32Field(_, _) => FIXED32
    case BytesField(_, _) => BYTES
    case MessageField(_, _) => BYTES
    case GroupField(_, _) => GROUP_START
  }

  ghost predicate FieldOk(f: Field)
    decreases f, 0
  {
    && f.number < 0x2000_0000
    && (f.BytesField? ==> |f.bytes| < 0x1_0000_0000_0000_0000)
    && (f.GroupField? ==> FieldsOk(f.fields))
    && (f.MessageField? ==> FieldsOk(f.fields) && |AllEncoded(f.fields)| < 0x1_0000_0000_0000_0000)
  }

  ghost predicate FieldsOk(fs: Fields)
    decreases fs, 0
  {
    fs.More? ==> FieldOk(fs.head) && FieldsOk(fs.tail)
  }

  ghost function Payload(f: Field): (b: seq<Byte>)
    requires FieldOk(f)
    decreases f, 1
  {
    match f
    case VarintField(_, v) => Encode(v)
    case Fixed64Field(_, v) => FixedBytes(v, 8)
    case Fixed32Field(_, v) => FixedBytes(v, 4)
    case BytesField(_, b) => Encode(|b|) + b
    case MessageField(_, fs) => Encode(|AllEncoded(fs)|) + AllEncoded(fs)
    case GroupField(n, fs) => AllEncoded(fs) + Encode(Tag(n, GROUP_END))
  }

  ghost function Encoded(f: Field): seq<Byte>
    requires FieldOk(f)
    decreases f, 2
  {
    Encode(Tag(f.number, Kind(f))) + Payload(f)
  }

  ghost function AllEncoded(fs: Fields): seq<Byte>
    requires FieldsOk(fs)
    decreases fs, 3
  {
    match fs
    case None => []
    case More(f, more) => Encoded(f) + AllEncoded(more)
  }

  // The tag of a field is eight times its number and its wire type: 0 for a varint, 1 and 5 for 64 and 32 bits, 2 for
  // bytes and messages, 3 for a group, whose end has 4.
  lemma FieldTags(f: Field)
    requires FieldOk(f)
    ensures var kind := match f
                        case VarintField(_, _) => 0
                        case Fixed64Field(_, _) => 1
                        case BytesField(_, _) => 2
                        case MessageField(_, _) => 2
                        case GroupField(_, _) => 3
                        case Fixed32Field(_, _) => 5;
            && Encoded(f) == Encode(8 * f.number + kind) + Payload(f)
            && (f.number < 16 ==> Encoded(f)[0] == 8 * f.number + kind)
    ensures f.GroupField? ==> Payload(f) == AllEncoded(f.fields) + Encode(8 * f.number + 4)
  {
    hide Payload;
    if f.GroupField? { GroupEnd(f.number, f.fields); }
  }

  lemma GroupEnd(number: nat, fs: Fields)
    requires FieldOk(GroupField(number, fs))
    ensures Payload(GroupField(number, fs)) == AllEncoded(fs) + Encode(8 * number + 4)
  {
    hide Encode;
  }

  lemma {:induction false} SpanEncoded(n: nat, rest: seq<Byte>)
    ensures Span(Encode(n) + rest) == |Encode(n)|
  {
    if n >= 128 {
      SpanEncoded(n / 128, rest);
      assert (Encode(n) + rest)[1..] == Encode(n / 128) + rest;
    }
  }

  lemma BytesReached(body: seq<Byte>, rest: seq<Byte>)
    requires |body| < 0x1_0000_0000_0000_0000
    ensures BytesReach(Encode(|body|) + body + rest) == |Encode(|body|) + body|
    ensures var b := Encode(|body|) + body + rest;
            Length(b) <= BytesReach(b) && b[Length(b)..BytesReach(b)] == body
  {
    hide Encode, Length, Value;
    var b := Encode(|body|) + body + rest;
    assert b == Encode(|body|) + (body + rest);
    RoundTrip(|body|, body + rest);
  }

  lemma TagRead(number: nat, kind: nat, rest: seq<Byte>)
    requires number < 0x2000_0000 && kind < 8
    ensures var t := Tag(number, kind);
            var b := Encode(t) + rest;
            && WireType(t) == kind && FieldNumber(t) == number
            && Length(b) == |Encode(t)| && Value(b) % 0x1_0000_0000 == t && b[Length(b)..] == rest
  {
    hide Encode, Length, Value;
    RoundTrip(Tag(number, kind), rest);
  }

  // The skipper goes over exactly one value, however deep its groups are.
  lemma SkipsOne(f: Field, rest: seq<Byte>)
    requires FieldOk(f)
    ensures Reach(Payload(f) + rest, Tag(f.number, Kind(f))) == |Payload(f)| > 0
    decreases f, 0
  {
    hide Encode, Length, Value, FixedBytes, AllEncoded, Span, BytesReach, GroupAt;
    TagRead(f.number, Kind(f), []);
    match f
    case VarintField(_, v) => SpanEncoded(v, rest);
    case Fixed64Field(_, _) =>
    case Fixed32Field(_, _) =>
    case BytesField(_, b) => BytesReached(b, rest);
    case MessageField(_, fs) => BytesReached(AllEncoded(fs), rest);
    case GroupField(n, fs) =>
      GroupRead(fs, n, rest);
      assert AllEncoded(fs) + Encode(Tag(n, GROUP_END)) + rest == AllEncoded(fs) + (Encode(Tag(n, GROUP_END)) + rest);
  }

  lemma FieldFirst(head: seq<Byte>, value: seq<Byte>, more: seq<Byte>, end: seq<Byte>, rest: seq<Byte>)
    ensures head + value + more + (end + rest) == head + (value + (more + (end + rest)))
    ensures (head + (value + (more + (end + rest))))[|head|..] == value + (more + (end + rest))
    ensures (head + (value + (more + (end + rest))))[|head| + |value|..] == more + (end + rest)
    ensures |head + value + more + end| == |head| + |value| + |more + end|
  {
  }

  lemma NumberSmall(f: Field)
    requires FieldOk(f)
    ensures f.number < 0x2000_0000
  {
  }

  // The group reader finds the end that belongs to the group, and its body.
  lemma {:induction false} GroupRead(fs: Fields, number: nat, rest: seq<Byte>)
    requires FieldsOk(fs) && number < 0x2000_0000
    ensures GroupAt(AllEncoded(fs) + (Encode(Tag(number, GROUP_END)) + rest), Tag(number, GROUP_START))
         == Group(|AllEncoded(fs)|, |AllEncoded(fs) + Encode(Tag(number, GROUP_END))|)
    decreases fs, 1
  {
    hide Encode, Length, Value, Payload, Reach, GroupAt, WireType, FieldNumber, FieldOk;
    var tag, end := Tag(number, GROUP_START), Encode(Tag(number, GROUP_END));
    var b := AllEncoded(fs) + (end + rest);
    TagRead(number, GROUP_START, []);
    match fs
    case None =>
      assert b == end + rest;
      TagRead(number, GROUP_END, rest);
      GroupEnds(b, tag);
    case More(f, more) =>
      NumberSmall(f);
      var after := AllEncoded(more) + (end + rest);
      var head := Encode(Tag(f.number, Kind(f)));
      assert AllEncoded(fs) == head + Payload(f) + AllEncoded(more);
      FieldFirst(head, Payload(f), AllEncoded(more), end, rest);
      assert b == head + (Payload(f) + after);
      TagRead(f.number, Kind(f), Payload(f) + after);
      SkipsOne(f, after);
      GroupGoesOn(b, tag);
      GroupRead(more, number, rest);
  }

  // The body of a nested message comes back exactly.
  lemma NestedBody(number: nat, fs: Fields, rest: seq<Byte>)
    requires FieldOk(MessageField(number, fs))
    ensures var b := Payload(MessageField(number, fs)) + rest;
            && Length(b) <= BytesReach(b)
            && b[Length(b)..BytesReach(b)] == AllEncoded(fs) && b[BytesReach(b)..] == rest
  {
    hide Encode, Length, Value, BytesReach, AllEncoded;
    BytesReached(AllEncoded(fs), rest);
  }

  // ---- reading field after field ----

  datatype Item = Item(tag: Word, value: seq<Byte>)

  datatype Items = Broken | Whole(items: seq<Item>)

  // A reader that takes a tag and skips its value, until nothing is left.
  function Walk(b: seq<Byte>): Items
    decreases |b|
  {
    if b == [] then Whole([])
    else
      var n, tag := Length(b), Value(b) % 0x1_0000_0000;
      var k := Reach(b[n..], tag);
      if n == 0 || k == 0 then Broken
      else
        match Walk(b[n + k..])
        case Broken => Broken
        case Whole(more) => Whole([Item(tag, b[n..n + k])] + more)
  }

  // It stops where there is no tag, or no such value.
  lemma WalkStops(b: seq<Byte>)
    requires b != [] && (Length(b) == 0 || Reach(b[Length(b)..], Value(b) % 0x1_0000_0000) == 0)
    ensures Walk(b) == Broken
  {
    hide Length, Value, Reach;
  }

  ghost function ItemsOf(fs: Fields): seq<Item>
    requires FieldsOk(fs)
  {
    match fs
    case None => []
    case More(f, more) =>
      assert FieldOk(f);
      [Item(Tag(f.number, Kind(f)), Payload(f))] + ItemsOf(more)
  }

  // Every field is found with its tag and exactly its value.
  lemma {:induction false} WalkEncoded(fs: Fields)
    requires FieldsOk(fs)
    ensures Walk(AllEncoded(fs)) == Whole(ItemsOf(fs))
  {
    hide Encode, Length, Value, Payload, Reach;
    match fs
    case None =>
    case More(f, more) =>
      var after := AllEncoded(more);
      var head := Encode(Tag(f.number, Kind(f)));
      var b := AllEncoded(fs);
      assert b == Encoded(f) + after;
      assert b == head + (Payload(f) + after);
      TagRead(f.number, Kind(f), Payload(f) + after);
      SkipsOne(f, after);
      assert b[|head| + |Payload(f)|..] == after;
      assert b[|head|..|head| + |Payload(f)|] == Payload(f);
      WalkEncoded(more);
  }

  // ---- writing field after field ----

  // The buffer has x behind what was there exactly when its size can count both.
  ghost predicate Appended(buf: Buffer, was: seq<Byte>, x: seq<Byte>)
    requires buf.Valid()
    reads buf, buf.data
  {
    |was| + |x| < SIZE_LIMIT <==> buf.Contents() == was + x
  }

  // One append after the other.
  lemma AppendedBoth(buf: Buffer, was: seq<Byte>, x: seq<Byte>, between: seq<Byte>, y: seq<Byte>)
    requires buf.Valid() && Appended(buf, between, y) && (|was| + |x| < SIZE_LIMIT ==> between == was + x)
    ensures Appended(buf, was, x + y)
  {
    assert was + x + y == was + (x + y);
  }

  lemma StoredAppended(buf: Buffer, was: seq<Byte>, x: seq<Byte>)
    requires buf.Valid() && buf.Stores(was + x)
    ensures Appended(buf, was, x)
  {
    buf.StoresAll(was + x);
  }

  // Writes a tag and a value; a nested message is written in place and gets its length in front.
  method WriteField(buf: Buffer, f: Field, memory: bool) returns (ok: bool)
    requires buf.Valid() && FieldOk(f)
    modifies buf, buf.data
    ensures buf.Valid() && (buf.data == old(buf.data) || fresh(buf.data))
    ensures ok ==> Appended(buf, old(buf.Contents()), Encoded(f))
    ensures memory && old(buf.size) + |Encoded(f)| + 10 <= MAX_SIZE / 2 ==> ok
    decreases f, 1
  {
    hide Encode, Payload, Buffer.Stores, CapacityFor;
    ghost var before := buf.Contents();
    ok := WriteTag(buf, Tag(f.number, Kind(f)), memory);
    if !ok { return; }
    ghost var between := buf.Contents();
    ok := WriteValue(buf, f, memory);
    if ok { AppendedBoth(buf, before, Encode(Tag(f.number, Kind(f))), between, Payload(f)); }
  }

  method WriteTag(buf: Buffer, tag: Word, memory: bool) returns (ok: bool)
    requires buf.Valid()
    modifies buf, buf.data
    ensures buf.Valid() && (buf.data == old(buf.data) || fresh(buf.data))
    ensures ok ==> Appended(buf, old(buf.Contents()), Encode(tag))
    ensures memory && old(buf.size) + 5 <= MAX_SIZE / 2 ==> ok
  {
    hide Encode, Buffer.Stores;
    var ret := buf.AddVarint32(tag, memory);
    ok := ret != 0;
    if ok { StoredAppended(buf, old(buf.Contents()), Encode(tag)); }
  }

  method WriteValue(buf: Buffer, f: Field, memory: bool) returns (ok: bool)
    requires buf.Valid() && FieldOk(f)
    modifies buf, buf.data
    ensures buf.Valid() && (buf.data == old(buf.data) || fresh(buf.data))
    ensures ok ==> Appended(buf, old(buf.Contents()), Payload(f))
    ensures memory && old(buf.size) + |Payload(f)| + 10 <= MAX_SIZE / 2 ==> ok
    decreases f, 0
  {
    hide Encode, FixedBytes, AllEncoded, CapacityFor, Buffer.Stores, Appended;
    ghost var before := buf.Contents();
    match f
    case VarintField(_, v) =>
      var ret := buf.AddVarint64(v, memory);
      ok := ret != 0;
      if ok { StoredAppended(buf, before, Encode(v)); }
    case Fixed64Field(_, v) =>
      var ret := buf.AddFixed(v, 8, memory);
      ok := ret != 0;
      if ok { StoredAppended(buf, before, FixedBytes(v, 8)); }
    case Fixed32Field(_, v) =>
      var ret := buf.AddFixed(v, 4, memory);
      ok := ret != 0;
      if ok { StoredAppended(buf, before, FixedBytes(v, 4)); }
    case BytesField(_, b) => ok := WriteBytes(buf, b, memory);
    case MessageField(_, fs) => ok := WriteMessage(buf, f, memory);
    case GroupField(n, fs) => ok := WriteGroup(buf, f, memory);
  }

  method WriteBytes(buf: Buffer, b: seq<Byte>, memory: bool) returns (ok: bool)
    requires buf.Valid()
    modifies buf, buf.data
    ensures buf.Valid() && (buf.data == old(buf.data) || fresh(buf.data))
    ensures ok ==> Appended(buf, old(buf.Contents()), Encode(|b|) + b)
    ensures memory && old(buf.size) + |b| + 5 <= MAX_SIZE / 2 ==> ok
  {
    hide Encode, CapacityFor, Buffer.Stores;
    var ret := buf.AddBytes(b, memory);
    ok := ret != 0;
    var x := Encode(|b|) + b;
    if ok && old(buf.size) + |x| < SIZE_LIMIT { StoredAppended(buf, old(buf.Contents()), x); }
  }

  method WriteGroup(buf: Buffer, f: Field, memory: bool) returns (ok: bool)
    requires buf.Valid() && FieldOk(f) && f.GroupField?
    modifies buf, buf.data
    ensures buf.Valid() && (buf.data == old(buf.data) || fresh(buf.data))
    ensures ok ==> Appended(buf, old(buf.Contents()), Payload(f))
    ensures memory && old(buf.size) + |Payload(f)| + 10 <= MAX_SIZE / 2 ==> ok
    decreases f.fields, 1
  {
    hide Encode, AllEncoded;
    ghost var before := buf.Contents();
    ok := WriteFields(buf, f.fields, memory);
    if !ok { return; }
    ghost var between := buf.Contents();
    ok := WriteTag(buf, Tag(f.number, GROUP_END), memory);
    if ok { AppendedBoth(buf, before, AllEncoded(f.fields), between, Encode(Tag(f.number, GROUP_END))); }
  }

  method WriteMessage(buf: Buffer, f: Field, memory: bool) returns (ok: bool)
    requires buf.Valid() && FieldOk(f) && f.MessageField?
    modifies buf, buf.data
    ensures buf.Valid() && (buf.data == old(buf.data) || fresh(buf.data))
    ensures ok ==> Appended(buf, old(buf.Contents()), Payload(f))
    ensures memory && old(buf.size) + |Payload(f)| + 10 <= MAX_SIZE / 2 ==> ok
    decreases f.fields, 1
  {
    hide Encode, AllEncoded, CapacityFor, Buffer.Stores;
    ghost var before := buf.Contents();
    var len := buf.size;
    ok := WriteFields(buf, f.fields, memory);
    if !ok { return; }
    ghost var between := buf.Contents();
    var ret := buf.AddLength(len, memory);
    ok := ret != 0;
    if ok && |before + Payload(f)| < SIZE_LIMIT {
      LengthInFront(before, AllEncoded(f.fields));
      StoredAppended(buf, before, Payload(f));
    }
  }

  lemma LengthInFront(before: seq<Byte>, body: seq<Byte>)
    ensures var now := before + body;
            now[..|before|] + Encode(|now| - |before|) + now[|before|..] == before + (Encode(|body|) + body)
  {
    hide Encode;
    assert (before + body)[..|before|] == before && (before + body)[|before|..] == body;
  }

  method WriteFields(buf: Buffer, fs: Fields, memory: bool) returns (ok: bool)
    requires buf.Valid() && FieldsOk(fs)
    modifies buf, buf.data
    ensures buf.Valid() && (buf.data == old(buf.data) || fresh(buf.data))
    ensures ok ==> Appended(buf, old(buf.Contents()), AllEncoded(fs))
    ensures memory && old(buf.size) + |AllEncoded(fs)| + 10 <= MAX_SIZE / 2 ==> ok
    decreases fs, 0
  {
    hide Encode, Encoded;
    ok := true;
    match fs
    case None =>
    case More(f, more) =>
      ok := WriteField(buf, f, memory);
      if !ok { return; }
      ok := WriteFields(buf, more, memory);
  }
}
