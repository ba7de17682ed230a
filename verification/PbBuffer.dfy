/**
 * The buffer that messages are written into: it grows by half as long as it must, and a length is put in front of
 * bytes that are already there.
 */
module PbBuffer {
  import opened Bytes
  import opened Varint

  const SSO_SIZE: nat := 16
  const MAX_SIZE: nat := 0xFFFF_FFFF - 100

  // The size of a buffer has 31 bits.
  const SIZE_LIMIT: nat := 0x8000_0000

  // Growing a capacity by half until it is enough, or half of what there can be.
  function CapacityFor(n: nat, expected: nat): (capacity: nat)
    requires SSO_SIZE <= n < 0x1_0000_0000
    ensures SSO_SIZE <= capacity < 0x1_0000_0000
    ensures expected <= 2147483597 ==> capacity >= expected
    decreases expected - n
  {
    if n < MAX_SIZE / 2 && n < expected then CapacityFor(n + n / 2, expected) else n
  }

  // ---- writing varints ----

  lemma EncodeStep(n: nat)
    ensures Encode(n) == if n / 128 == 0 then [n % 128] else [n % 128 + 128] + Encode(n / 128)
  {
  }

  // Only what is between at and q differs.
  ghost predicate Untouched(now: seq<Byte>, was: seq<Byte>, at: nat, q: nat) {
    |now| == |was| && at <= q <= |now| && now[..at] == was[..at] && now[q..] == was[q..]
  }

  // What a writer has done after taking digits off all: n is left.
  ghost predicate Written(now: seq<Byte>, was: seq<Byte>, at: nat, q: nat, n: nat, all: nat) {
    Untouched(now, was, at, q) && Encode(all) == now[at..q] + Encode(n)
  }

  // One line of the unrolled writers: stores a byte that goes on, unless this is the last one.
  method EmitDigit(buff: array<Byte>, at: nat, q: nat, n: nat, ghost bound: nat, ghost all: nat, ghost was: seq<Byte>)
    returns (b: Byte, more: nat, next: nat)
    requires q < buff.Length && Written(buff[..], was, at, q, n, all) && n < 128 * bound
    modifies buff
    ensures b < 128 && more < bound
    ensures more == 0 ==> next == q && Written(buff[..], was, at, q, b, all)
    ensures more != 0 ==> next == q + 1 && Written(buff[..], was, at, next, more, all)
  {
    hide Encode;
    EncodeStep(n);
    b, more, next := n % 128, n / 128, q;
    if more == 0 {
      EncodeStep(b);
      return;
    }
    ghost var out := buff[at..q];
    buff[q] := b + 128;
    assert out + ([b + 128] + Encode(more)) == out + [b + 128] + Encode(more);
    assert buff[..][at..q + 1] == out + [b + 128];
    assert was[q + 1..] == was[q..][1..];
    next := q + 1;
  }

  // The last byte.
  method EmitLast(buff: array<Byte>, at: nat, q: nat, b: Byte, ghost all: nat, ghost was: seq<Byte>)
    requires q < buff.Length && b < 128 && Written(buff[..], was, at, q, b, all)
    modifies buff
    ensures Untouched(buff[..], was, at, q + 1) && buff[at..q + 1] == Encode(all)
  {
    ghost var out := buff[at..q];
    buff[q] := b;
    assert buff[at..q + 1] == out + [b];
    assert was[q + 1..] == was[q..][1..];
  }

  // pb_write64
  method Write64(buff: array<Byte>, at: nat, n: Long) returns (c: nat)
    requires at + 10 <= buff.Length
    modifies buff
    ensures c == |Encode(n)| <= 10 && buff[at..at + c] == Encode(n)
    ensures Untouched(buff[..], old(buff[..]), at, at + c)
  {
    hide Encode, Written, Untouched;
    var q := at;
    var p: Byte;
    var m: nat := n;
    ghost var was := buff[..];
    NothingWritten(was, at, n);
    label done: {
      p, m, q := EmitDigit(buff, at, q, m, 0x200_0000_0000_0000, n, was);
      if m == 0 { break done; }
      p, m, q := EmitDigit(buff, at, q, m, 0x4_0000_0000_0000, n, was);
      if m == 0 { break done; }
      p, m, q := EmitDigit(buff, at, q, m, 0x800_0000_0000, n, was);
      if m == 0 { break done; }
      p, m, q := EmitDigit(buff, at, q, m, 0x10_0000_0000, n, was);
      if m == 0 { break done; }
      p, m, q := EmitDigit(buff, at, q, m, 0x2000_0000, n, was);
      if m == 0 { break done; }
      p, m, q := EmitDigit(buff, at, q, m, 0x40_0000, n, was);
      if m == 0 { break done; }
      p, m, q := EmitDigit(buff, at, q, m, 0x8000, n, was);
      if m == 0 { break done; }
      p, m, q := EmitDigit(buff, at, q, m, 0x100, n, was);
      if m == 0 { break done; }
      p, m, q := EmitDigit(buff, at, q, m, 0x2, n, was);
      if m == 0 { break done; }
      p := m % 128;
    }
    EmitLast(buff, at, q, p, n, was);
    c := q + 1 - at;
  }

  lemma NothingWritten(was: seq<Byte>, at: nat, n: nat)
    requires at <= |was|
    ensures Written(was, was, at, at, n, n)
  {
    assert was[at..at] + Encode(n) == Encode(n);
  }

  // pb_write32
  method Write32(buff: array<Byte>, at: nat, n: Word) returns (c: nat)
    requires at + 5 <= buff.Length
    modifies buff
    ensures c == |Encode(n)| <= 5 && buff[at..at + c] == Encode(n)
    ensures Untouched(buff[..], old(buff[..]), at, at + c)
  {
    hide Encode, Written, Untouched;
    var q := at;
    var p: Byte;
    var m: nat := n;
    ghost var was := buff[..];
    NothingWritten(was, at, n);
    label done: {
      p, m, q := EmitDigit(buff, at, q, m, 0x200_0000, n, was);
      if m == 0 { break done; }
      p, m, q := EmitDigit(buff, at, q, m, 0x4_0000, n, was);
      if m == 0 { break done; }
      p, m, q := EmitDigit(buff, at, q, m, 0x800, n, was);
      if m == 0 { break done; }
      p, m, q := EmitDigit(buff, at, q, m, 0x10, n, was);
      if m == 0 { break done; }
      p := m;
    }
    EmitLast(buff, at, q, p, n, was);
    c := q + 1 - at;
  }

  // ---- the buffer ----

  // Moving the tail and storing s in the gap puts s in.
  lemma Inserted(was: seq<Byte>, shifted: seq<Byte>, now: seq<Byte>, at: nat, s: seq<Byte>, size: nat)
    requires |was| == |shifted| == |now| && at <= size && size + |s| <= |was|
    requires shifted[..at] == was[..at] && shifted[at + |s|..at + |s| + (size - at)] == was[at..at + (size - at)]
    requires now[..at] == shifted[..at] && now[at..at + |s|] == s && now[at + |s|..] == shifted[at + |s|..]
    ensures now[..size + |s|] == was[..size][..at] + s + was[..size][at..]
  {
    assert now[at + |s|..size + |s|] == now[at + |s|..][..size - at] == shifted[at + |s|..][..size - at];
    assert was[..size][at..] == was[at..at + (size - at)];
    assert now[..size + |s|] == now[..at] + now[at..at + |s|] + now[at + |s|..size + |s|];
  }

  class Buffer {
    var data: array<Byte>
    var size: nat

    ghost predicate Valid()
      reads this
    {
      size <= data.Length && size < SIZE_LIMIT && SSO_SIZE <= data.Length < 0x1_0000_0000
    }

    // These bytes are stored; from SIZE_LIMIT bytes on the size has wrapped around.
    ghost predicate Stores(b: seq<Byte>)
      reads this, data
    {
      |b| <= data.Length && data[..|b|] == b && size == |b| % SIZE_LIMIT
    }

    lemma StoresAll(b: seq<Byte>)
      requires Valid() && Stores(b)
      ensures |b| < SIZE_LIMIT ==> Contents() == b
      ensures |b| >= SIZE_LIMIT ==> Contents() == b[..|b| % SIZE_LIMIT]
      ensures size == |b| % SIZE_LIMIT
    {
      assert Contents() == b[..size];
    }

    ghost function Contents(): seq<Byte>
      requires Valid()
      reads this, data
    {
      data[..size]
    }

    // pb_initbuffer: the bytes are kept inside the buffer at first.
    constructor ()
      ensures Valid() && fresh(data) && Contents() == [] && data.Length == 16
    {
      data := new Byte[SSO_SIZE](_ => 0);
      size := 0;
    }

    // pb_prepbuffsize: room for len more bytes; memory says whether an allocation succeeds.
    method Prepare(len: nat, memory: bool) returns (ok: bool)
      requires Valid()
      modifies this
      ensures Valid() && size == old(size) && Contents() == old(Contents())
      ensures if size + len <= old(data.Length) then ok && data == old(data) else ok ==> fresh(data)
      ensures ok ==> size + len <= data.Length
      ensures !ok ==> data == old(data) && size + len > data.Length
      ensures size + len > old(data.Length) ==> ok == (memory && CapacityFor(SSO_SIZE, size + len) >= size + len)
    {
      var expected := size + len;
      if expected <= data.Length { return true; }
      var newSize := SSO_SIZE;
      while newSize < MAX_SIZE / 2 && newSize < expected
        invariant SSO_SIZE <= newSize < 0x1_0000_0000
        invariant CapacityFor(newSize, expected) == CapacityFor(SSO_SIZE, expected)
        invariant unchanged(this) && Contents() == old(Contents())
        decreases expected - newSize
      {
        newSize := newSize + newSize / 2;
      }
      if newSize < expected || !memory { return false; }
      var block := new Byte[newSize](_ => 0);
      var i := 0;
      while i < size
        invariant 0 <= i <= size && unchanged(this) && Contents() == old(Contents())
        invariant block[..i] == Contents()[..i]
      {
        block[i] := data[i];
        i := i + 1;
      }
      assert block[..size] == old(Contents());
      data := block;
      ok := true;
    }

    // pb_addsize
    method AddSize(n: nat)
      requires Valid() && size + n <= data.Length
      modifies this`size
      ensures Valid() && Stores(old(Contents()) + data[old(size)..old(size) + n])
    {
      assert data[..size + n] == data[..size] + data[size..size + n];
      size := (size + n) % SIZE_LIMIT;
    }

    // pb_addslice
    method AddSlice(s: seq<Byte>, memory: bool) returns (ret: nat)
      requires Valid()
      modifies this, data
      ensures Valid() && (data == old(data) || fresh(data))
      ensures (ret == 0 && Contents() == old(Contents())) || ret == |s|
      ensures ret == |s| ==> Stores(old(Contents()) + s)
      ensures memory && CapacityFor(SSO_SIZE, old(size) + |s|) >= old(size) + |s| ==> ret == |s|
      ensures old(size) + |s| <= old(data.Length) ==> ret == |s| && data == old(data)
    {
      var ok := Prepare(|s|, memory);
      if !ok { return 0; }
      Store(size, s);
      assert data[..size] == old(Contents());
      ret := |s|;
      AddSize(ret);
    }

    // memcpy into the buffer
    method Store(at: nat, s: seq<Byte>)
      requires Valid() && at + |s| <= data.Length
      modifies data
      ensures data[..at] == old(data[..at]) && data[at..at + |s|] == s
      ensures data[at + |s|..] == old(data[at + |s|..])
    {
      var i := 0;
      while i < |s|
        invariant 0 <= i <= |s|
        invariant data[..at] == old(data[..at]) && data[at..at + i] == s[..i]
        invariant data[at + |s|..] == old(data[at + |s|..])
      {
        data[at + i] := s[i];
        i := i + 1;
      }
    }

    // memmove of n bytes at at, by shift to the right, the last byte first
    method Shift(at: nat, n: nat, shift: nat)
      requires Valid() && at + n + shift <= data.Length
      modifies data
      ensures data[..at] == old(data[..at]) && data[at + shift..at + shift + n] == old(data[at..at + n])
    {
      var i := n;
      while i > 0
        invariant 0 <= i <= n
        invariant forall j :: 0 <= j < at + i ==> data[j] == old(data[j])
        invariant forall j :: at + shift + i <= j < at + shift + n ==> data[j] == old(data[j - shift])
      {
        i := i - 1;
        data[at + shift + i] := data[at + i];
      }
    }

    // Puts s in at at.
    method Insert(at: nat, s: seq<Byte>)
      requires Valid() && at <= size && size + |s| <= data.Length
      modifies data, this`size
      ensures Valid() && Stores(old(Contents()[..at]) + s + old(Contents()[at..]))
    {
      ghost var was := data[..];
      Shift(at, size - at, |s|);
      ghost var shifted := data[..];
      Store(at, s);
      Inserted(was, shifted, data[..], at, s, size);
      size := (size + |s|) % SIZE_LIMIT;
    }

    // pb_addvarint64
    method AddVarint64(n: Long, memory: bool) returns (ret: nat)
      requires Valid()
      modifies this, data
      ensures Valid() && (data == old(data) || fresh(data))
      ensures (ret == 0 && Contents() == old(Contents())) || (ret == |Encode(n)| && Stores(old(Contents()) + Encode(n)))
      ensures memory && CapacityFor(SSO_SIZE, old(size) + 10) >= old(size) + 10 ==> ret != 0
    {
      hide Encode;
      var ok := Prepare(10, memory);
      if !ok { return 0; }
      ret := Write64(data, size, n);
      assert data[..size] == old(Contents());
      AddSize(ret);
    }

    // pb_addvarint32
    method AddVarint32(n: Word, memory: bool) returns (ret: nat)
      requires Valid()
      modifies this, data
      ensures Valid() && (data == old(data) || fresh(data))
      ensures (ret == 0 && Contents() == old(Contents())) || (ret == |Encode(n)| && Stores(old(Contents()) + Encode(n)))
      ensures memory && CapacityFor(SSO_SIZE, old(size) + 5) >= old(size) + 5 ==> ret != 0
      ensures ret <= 5 && (old(size) + 5 <= old(data.Length) ==> ret != 0 && data == old(data))
    {
      hide Encode;
      var ok := Prepare(5, memory);
      if !ok { return 0; }
      ret := Write32(data, size, n);
      assert data[..size] == old(Contents());
      AddSize(ret);
    }

    // pb_addbytes: the length is cut to 32 bits, but a longer slice does not fit anyway.  When the size wraps around
    // between the length and the slice, the slice goes to the front.
    method AddBytes(s: seq<Byte>, memory: bool) returns (ret: nat)
      requires Valid()
      modifies this, data
      ensures Valid() && (data == old(data) || fresh(data))
      ensures ret == 0 ==> Contents() == old(Contents())
      ensures ret != 0 ==> ret == |Encode(|s|)| + |s| && size == (old(size) + ret) % SIZE_LIMIT
      ensures ret != 0 && old(size) + |Encode(|s|)| < SIZE_LIMIT ==> Stores(old(Contents()) + (Encode(|s|) + s))
      ensures ret != 0 && old(size) + |Encode(|s|)| >= SIZE_LIMIT ==>
        var k := old(size) + |Encode(|s|)| - SIZE_LIMIT; k <= old(size) && Contents() == old(Contents())[..k] + s
      ensures memory && CapacityFor(SSO_SIZE, old(size) + |s| + 5) >= old(size) + |s| + 5 ==> ret != 0
    {
      hide Encode, Buffer.Stores, CapacityFor;
      var ok := Prepare(|s| + 5, memory);
      if !ok { return 0; }
      ret := AddParts(s, memory);
    }

    // The length and then the slice, when there is room for both.
    method AddParts(s: seq<Byte>, memory: bool) returns (ret: nat)
      requires Valid() && size + |s| + 5 <= data.Length
      modifies this, data
      ensures Valid() && data == old(data) && ret == |Encode(|s|)| + |s| && ret != 0 &&
        size == (old(size) + ret) % SIZE_LIMIT
      ensures old(size) + |Encode(|s|)| < SIZE_LIMIT ==> Stores(old(Contents()) + (Encode(|s|) + s))
      ensures old(size) + |Encode(|s|)| >= SIZE_LIMIT ==>
        var k := old(size) + |Encode(|s|)| - SIZE_LIMIT; k <= old(size) && Contents() == old(Contents())[..k] + s
    {
      hide Encode, Buffer.Stores, CapacityFor, Buffer.Contents;
      ghost var was := Contents();
      SizeOfContents();
      assert |s| % 0x1_0000_0000 == |s|;
      var n := AddVarint32(|s| % 0x1_0000_0000, memory);
      StoresAll(was + Encode(|s|));
      ghost var between := Contents();
      SizeOfContents();
      ret := AddSlice(s, memory);
      BothStored(was, Encode(|s|), between, s);
      ret := n + ret;
    }

    lemma SizeOfContents()
      requires Valid()
      ensures |Contents()| == size
    {
    }

    lemma BothStored(was: seq<Byte>, e: seq<Byte>, between: seq<Byte>, s: seq<Byte>)
      requires Valid() && |was| < SIZE_LIMIT && |e| <= 5 && |was| + |s| + 5 <= data.Length && Stores(between + s)
      requires |was + e| < SIZE_LIMIT ==> between == was + e
      requires |was + e| >= SIZE_LIMIT ==> between == (was + e)[..|was + e| % SIZE_LIMIT]
      ensures size == (|was| + |e| + |s|) % SIZE_LIMIT
      ensures |was + e| < SIZE_LIMIT ==> Stores(was + (e + s))
      ensures |was + e| >= SIZE_LIMIT ==> var k := |was + e| - SIZE_LIMIT; k <= |was| && Contents() == was[..k] + s
    {
      var all := |was| + |e|;
      if all < SIZE_LIMIT {
        assert was + e + s == was + (e + s);
      } else {
        var k := all - SIZE_LIMIT;
        assert all % SIZE_LIMIT == k;
        assert (was + e)[..k] == was[..k];
      }
    }

    // The stores of pb_addfixed32 and pb_addfixed64, which unroll this loop: the lowest byte first.
    method StoreFixed(at: nat, n: nat, width: nat)
      requires Valid() && at + width <= data.Length
      modifies data
      ensures data[..at] == old(data[..at]) && data[at..at + width] == FixedBytes(n, width)
    {
      hide FixedBytes;
      var i, left := 0, n;
      while i < width
        invariant 0 <= i <= width && data[..at] == old(data[..at])
        invariant FixedBytes(n, width) == data[at..at + i] + FixedBytes(left, width - i)
      {
        ghost var out := data[at..at + i];
        FixedStep(left, width - i);
        data[at + i] := left % 256;
        assert data[at..at + i + 1] == out + [left % 256];
        ghost var rest := FixedBytes(left / 256, width - i - 1);
        assert out + ([left % 256] + rest) == out + [left % 256] + rest;
        i, left := i + 1, left / 256;
      }
      NoFixedBytes(left);
    }

    // pb_addfixed32 and pb_addfixed64
    method AddFixed(n: nat, width: nat, memory: bool) returns (ret: nat)
      requires Valid() && (width == 4 || width == 8)
      modifies this, data
      ensures Valid() && (data == old(data) || fresh(data))
      ensures (ret == 0 && Contents() == old(Contents())) ||
        (ret == width && Stores(old(Contents()) + FixedBytes(n, width)))
      ensures memory && CapacityFor(SSO_SIZE, old(size) + width) >= old(size) + width ==> ret != 0
    {
      hide FixedBytes;
      var ok := Prepare(width, memory);
      if !ok { return 0; }
      StoreFixed(size, n, width);
      assert data[..size] == old(Contents());
      ret := width;
      AddSize(ret);
    }

    // pb_addlength: the bytes from len on get their length in front.
    method AddLength(len: nat, memory: bool) returns (ret: nat)
      requires Valid()
      modifies this, data
      ensures Valid() && (data == old(data) || fresh(data))
      ensures ret == 0 ==> Contents() == old(Contents())
      ensures ret != 0 ==> len <= old(size)
      ensures ret != 0 ==> ret == |Encode(old(size) - len)|
      ensures ret != 0 ==> Stores(old(Contents()[..len]) + Encode(old(size) - len) + old(Contents()[len..]))
      ensures ret == 0 && memory ==>
        len > old(size) || (var more := old(size) + |Encode(old(size) - len)|; CapacityFor(SSO_SIZE, more) < more)
    {
      hide Encode;
      if size < len { return 0; }
      var buff := new Byte[10](_ => 0);
      var ml := Write64(buff, 0, size - len);
      assert buff[..ml] == Encode(size - len) by { assert buff[0..ml] == buff[..ml]; }
      var ok := Prepare(ml, memory);
      if !ok { return 0; }
      Insert(len, buff[..ml]);
      ret := ml;
    }
  }

  // The capacity for more than half the largest size holds more bytes than a size can count.
  lemma LargestCapacity(e: nat)
    requires e >= MAX_SIZE / 2
    ensures CapacityFor(SSO_SIZE, e) == 2988261580
  {
    assert CapacityFor(16, e) == CapacityFor(24, e) == CapacityFor(36, e) == CapacityFor(54, e);
    assert CapacityFor(54, e) == CapacityFor(81, e) == CapacityFor(121, e) == CapacityFor(181, e);
    assert CapacityFor(181, e) == CapacityFor(271, e) == CapacityFor(406, e) == CapacityFor(609, e);
    assert CapacityFor(609, e) == CapacityFor(913, e) == CapacityFor(1369, e) == CapacityFor(2053, e);
    assert CapacityFor(2053, e) == CapacityFor(3079, e) == CapacityFor(4618, e) == CapacityFor(6927, e);
    assert CapacityFor(6927, e) == CapacityFor(10390, e) == CapacityFor(15585, e) == CapacityFor(23377, e);
    assert CapacityFor(23377, e) == CapacityFor(35065, e) == CapacityFor(52597, e) == CapacityFor(78895, e);
    assert CapacityFor(78895, e) == CapacityFor(118342, e) == CapacityFor(177513, e) == CapacityFor(266269, e);
    UpperCapacities(e);
  }

  lemma UpperCapacities(e: nat)
    requires e >= MAX_SIZE / 2
    ensures CapacityFor(266269, e) == 2988261580
  {
    assert CapacityFor(266269, e) == CapacityFor(399403, e) == CapacityFor(599104, e) == CapacityFor(898656, e);
    assert CapacityFor(898656, e) == CapacityFor(1347984, e) == CapacityFor(2021976, e);
    assert CapacityFor(2021976, e) == CapacityFor(3032964, e) == CapacityFor(4549446, e);
    assert CapacityFor(4549446, e) == CapacityFor(6824169, e) == CapacityFor(10236253, e);
    assert CapacityFor(10236253, e) == CapacityFor(15354379, e) == CapacityFor(23031568, e);
    assert CapacityFor(23031568, e) == CapacityFor(34547352, e) == CapacityFor(51821028, e);
    assert CapacityFor(51821028, e) == CapacityFor(77731542, e) == CapacityFor(116597313, e);
    assert CapacityFor(116597313, e) == CapacityFor(174895969, e) == CapacityFor(262343953, e);
    assert CapacityFor(262343953, e) == CapacityFor(393515929, e) == CapacityFor(590273893, e);
    assert CapacityFor(590273893, e) == CapacityFor(885410839, e) == CapacityFor(1328116258, e);
    assert CapacityFor(1328116258, e) == CapacityFor(1992174387, e) == CapacityFor(2988261580, e);
  }

  // An append can lose what is there: 32 bytes behind 2^31 - 16 others leave a buffer of 16.
  method WrapAround() returns (b: Buffer, ret: nat, more: nat)
    ensures fresh(b) && b.Valid()
    ensures ret == 0x7FFF_FFF0 && more == 0x20 && b.size == 0x10
  {
    hide CapacityFor;
    LargestCapacity(0x7FFF_FFF0);
    LargestCapacity(0x8000_0010);
    b := new Buffer();
    ret := b.AddSlice(seq(0x7FFF_FFF0, _ => 0), true);
    b.StoresAll(seq(0x7FFF_FFF0, _ => 0));
    more := b.AddSlice(seq(0x20, _ => 0), true);
    b.StoresAll(seq(0x7FFF_FFF0, _ => 0) + seq(0x20, _ => 0));
  }
}
