/**
 * Base-128 varints: every byte carries seven bits, the lowest first, and all bytes but the last have the top bit set.
 * The readers come in two forms, a simple loop and an unrolled one without a bounds test, and are proved to agree.
 */
module Varint {
  import opened Bytes

  // ---- what a varint is ----

  function Pow128(k: nat): (p: nat)
    ensures p > 0
  {
    if k == 0 then 1 else 128 * Pow128(k - 1)
  }

  // The number in the first k bytes.
  function Low(b: seq<Byte>, k: nat): nat
    requires k <= |b|
  {
    if k == 0 then 0 else Low(b, k - 1) + b[k - 1] % 128 * Pow128(k - 1)
  }

  // The length of a varint whose first i bytes are there and go on; 0 when it does not end within ten bytes.
  function Scan(b: seq<Byte>, i: nat): (n: nat)
    ensures n == 0 || i < n <= |b|
    ensures n <= 10
    decreases |b| - i
  {
    if i >= |b| || i >= 10 then 0 else if b[i] < 128 then i + 1 else Scan(b, i + 1)
  }

  function Length(b: seq<Byte>): (n: nat)
    ensures n <= |b| && n <= 10
  {
    Scan(b, 0)
  }

  function Value(b: seq<Byte>): Long {
    Low(b, Length(b)) % 0x1_0000_0000_0000_0000
  }

  function Encode(n: nat): (b: seq<Byte>)
    ensures |b| > 0
  {
    if n < 128 then [n] else [n % 128 + 128] + Encode(n / 128)
  }

  // ---- numbers of a fixed width, the lowest byte first ----

  function FixedBytes(n: nat, k: nat): (b: seq<Byte>)
    ensures |b| == k
    decreases k
  {
    if k == 0 then [] else [n % 256] + FixedBytes(n / 256, k - 1)
  }

  function FixedValue(b: seq<Byte>): nat {
    if b == [] then 0 else b[0] + 256 * FixedValue(b[1..])
  }

  lemma FixedEmpty()
    ensures FixedValue([]) == 0
  {
  }

  lemma FixedHead(b: seq<Byte>)
    requires b != []
    ensures FixedValue(b) == b[0] + 256 * FixedValue(b[1..])
  {
  }

  lemma NoFixedBytes(n: nat)
    ensures FixedBytes(n, 0) == []
  {
  }

  lemma FixedStep(n: nat, k: nat)
    requires k > 0
    ensures FixedBytes(n, k) == [n % 256] + FixedBytes(n / 256, k - 1)
  {
  }

  function Pow256(k: nat): (p: nat)
    ensures p > 0
  {
    if k == 0 then 1 else 256 * Pow256(k - 1)
  }

  lemma {:induction false} FixedRoundTrip(n: nat, k: nat)
    requires n < Pow256(k)
    ensures FixedValue(FixedBytes(n, k)) == n
  {
    if k > 0 { FixedRoundTrip(n / 256, k - 1); }
  }

  // ---- a written number is read back ----

  lemma LowMore(b: seq<Byte>, k: nat)
    requires 0 < k <= |b|
    ensures Low(b, k) == Low(b, k - 1) + b[k - 1] % 128 * Pow128(k - 1)
  {
  }

  lemma {:induction false} LowShift(c: Byte, b: seq<Byte>, k: nat)
    requires k <= |b|
    ensures Low([c] + b, k + 1) == c % 128 + 128 * Low(b, k)
  {
    if k > 0 {
      LowShift(c, b, k - 1);
      var d, unit := b[k - 1] % 128, Pow128(k - 1);
      assert d * (128 * unit) == 128 * (d * unit);
      assert ([c] + b)[k] == b[k - 1];
      LowMore([c] + b, k + 1);
      LowMore(b, k);
    }
  }

  function Digits(n: nat): (d: nat)
    ensures d > 0
  {
    if n < 128 then 1 else 1 + Digits(n / 128)
  }

  lemma {:induction false} EncodeLength(n: nat)
    ensures |Encode(n)| == Digits(n)
  {
    if n >= 128 { EncodeLength(n / 128); }
  }

  lemma DividedTwice(n: nat, a: nat, b: nat)
    requires (a == 128 || a == 256) && b > 0
    ensures n / a / b == n / (a * b)
  {
    var m, r := n / a, n % a;
    var q, s := m / b, m % b;
    var bq := b * q;
    assert m == bq + s && n == a * m + r;
    assert (a * b) * q == a * bq;
    QuotientIs(n, a * b, q, a * s + r);
  }

  lemma QuotientIs(n: nat, d: nat, q: nat, r: nat)
    requires d > 0 && n == d * q + r && r < d
    ensures n / d == q
  {
    var e, t := n / d, n % d;
    var k := q - e;
    assert d * k == d * q - d * e;
    if k >= 1 {
      TimesLess(1, k, d);
      assert false;
    }
    if k <= -1 {
      TimesLess(k, -1, d);
      assert false;
    }
  }

  // Byte k of a varint carries the k-th seven bits, and goes on unless it is the last one.
  lemma {:induction false} EncodeDigit(n: nat, k: nat)
    requires k < |Encode(n)|
    ensures Encode(n)[k] % 128 == n / Pow128(k) % 128
    ensures Encode(n)[k] >= 128 <==> k + 1 < |Encode(n)|
    decreases k
  {
    if k > 0 {
      EncodeDigit(n / 128, k - 1);
      DividedTwice(n, 128, Pow128(k - 1));
    }
  }

  // Byte k of a fixed-width number counts 256^k.
  lemma {:induction false} FixedDigit(n: nat, width: nat, k: nat)
    requires k < width
    ensures FixedBytes(n, width)[k] == n / Pow256(k) % 256
    decreases k
  {
    if k > 0 {
      FixedDigit(n / 256, width - 1, k - 1);
      DividedTwice(n, 256, Pow256(k - 1));
    }
  }

  lemma Powers256()
    ensures Pow256(0) == 1 && Pow256(1) == 0x100 && Pow256(2) == 0x1_0000 && Pow256(3) == 0x100_0000
    ensures Pow256(4) == 0x1_0000_0000 && Pow256(8) == 0x1_0000_0000_0000_0000
  {
  }

  // A varint ends with the first byte without the top bit, which must be among the first ten.
  lemma {:induction false} LengthExactly(b: seq<Byte>, i: nat)
    requires i <= |b| && i <= 10 && Length(b) == Scan(b, i) && forall j :: 0 <= j < i ==> b[j] >= 128
    ensures var n := Length(b);
            if n > 0 then n <= 10 && b[n - 1] < 128 && forall j :: 0 <= j < n - 1 ==> b[j] >= 128
            else forall j :: 0 <= j < |b| && j < 10 ==> b[j] >= 128
    decreases |b| - i
  {
    if i < |b| && i < 10 && b[i] >= 128 { LengthExactly(b, i + 1); }
  }

  lemma {:induction false} DigitsBound(n: nat, k: nat)
    requires n < Pow128(k) && k > 0
    ensures Digits(n) <= k
  {
    if n >= 128 { DigitsBound(n / 128, k - 1); }
  }

  // All bytes but the last go on.
  lemma {:induction false} EncodeBytes(n: nat, i: nat)
    requires i < |Encode(n)|
    ensures Encode(n)[i] < 128 <==> i == |Encode(n)| - 1
  {
    if n >= 128 && i > 0 { EncodeBytes(n / 128, i - 1); }
  }

  lemma {:induction false} ScanEncoded(n: nat, rest: seq<Byte>, i: nat)
    requires i < |Encode(n)| <= 10
    ensures Scan(Encode(n) + rest, i) == |Encode(n)|
    decreases |Encode(n)| - i
  {
    EncodeBytes(n, i);
    if i + 1 < |Encode(n)| { ScanEncoded(n, rest, i + 1); }
  }

  lemma LowDigit(n: nat)
    ensures n == n % 128 + 128 * (n / 128) && (n % 128 + 128) % 128 == n % 128
  {
  }

  lemma {:induction false} LowEncoded(n: nat, rest: seq<Byte>)
    ensures Low(Encode(n) + rest, |Encode(n)|) == n
  {
    if n < 128 {
      LowStarts(Encode(n) + rest);
      LowMore(Encode(n) + rest, 1);
    } else {
      LowEncoded(n / 128, rest);
      LowDigit(n);
      hide Low;
      LowShift(n % 128 + 128, Encode(n / 128) + rest, |Encode(n / 128)|);
      assert Encode(n) + rest == [n % 128 + 128] + (Encode(n / 128) + rest);
    }
  }

  // Reading gives back the number and leaves exactly what follows.
  lemma {:induction false} RoundTrip(n: Long, rest: seq<Byte>)
    ensures Length(Encode(n) + rest) == |Encode(n)| && Value(Encode(n) + rest) == n
    ensures (Encode(n) + rest)[Length(Encode(n) + rest)..] == rest
  {
    EncodeLength(n);
    TenDigits(n);
    ScanEncoded(n, rest, 0);
    LowEncoded(n, rest);
  }

  lemma Powers()
    ensures Pow128(0) == 1 && Pow128(1) == 0x80 && Pow128(2) == 0x4000 && Pow128(3) == 0x20_0000 &&
      Pow128(4) == 0x1000_0000
    ensures Pow128(5) == 0x8_0000_0000 && Pow128(6) == 0x400_0000_0000 && Pow128(7) == 0x2_0000_0000_0000
    ensures Pow128(8) == 0x100_0000_0000_0000 && Pow128(9) == 0x8000_0000_0000_0000
  {
  }

  lemma TenDigits(n: Long)
    ensures Digits(n) <= 10
    ensures n < 0x1_0000_0000 ==> Digits(n) <= 5
  {
    Powers();
    assert Pow128(10) == 128 * Pow128(9);
    DigitsBound(n, 10);
    if n < 0x1_0000_0000 { DigitsBound(n, 5); }
  }

  // ---- a slice of bytes that is read from the front ----

  class Slice {
    const bytes: seq<Byte>
    var p: nat

    constructor (bytes: seq<Byte>, p: nat)
      ensures this.bytes == bytes && this.p == p
    {
      this.bytes := bytes;
      this.p := p;
    }

    predicate Valid()
      reads this
    {
      p <= |bytes|
    }

    function Rest(): seq<Byte>
      requires Valid()
      reads this
    {
      bytes[p..]
    }

    // pb_readfixed32 and pb_readfixed64
    method ReadFixed(width: nat) returns (ret: nat, v: nat)
      requires Valid() && (width == 4 || width == 8)
      modifies this
      ensures Valid() && ret == (if |old(Rest())| < width then 0 else width) && p == old(p) + ret
      ensures ret != 0 ==> v == FixedValue(old(Rest())[..width])
    {
      hide FixedValue;
      v := 0;
      if p + width > |bytes| { return 0, 0; }
      ghost var r := Rest()[..width];
      var i := width;
      FixedEmpty();
      assert r[width..] == [];
      while i > 0
        invariant 0 <= i <= width && unchanged(this)
        invariant v == FixedValue(r[i..])
      {
        i := i - 1;
        FixedHead(r[i..]);
        assert r[i..][1..] == r[i + 1..];
        v := v * 256 + bytes[p + i];
      }
      assert r[0..] == r;
      p := p + width;
      ret := width;
    }

    // pb_readvarint_slow
    method ReadSlow() returns (ret: nat, v: Long)
      requires Valid()
      modifies this
      ensures Valid() && ret == Length(old(Rest())) && p == old(p) + ret
      ensures ret != 0 ==> v == Value(old(Rest()))
    {
      hide Low, Scan, Pow128;
      var start := p;
      ghost var r := Rest();
      var i, n: int, unit: int := 0, 0, 1;
      LowStarts(r);
      while p < |bytes| && i < 10
        invariant 0 <= i <= 10 && p == start + i <= |bytes|
        invariant Scan(r, 0) == Scan(r, i)
        invariant unit == Pow128(i) && n == Low(r, i) % 0x1_0000_0000_0000_0000
        decreases 10 - i
      {
        var b := bytes[p];
        assert b == r[i];
        LowStep(r, i);
        ModAdd(Low(r, i), b % 128 * unit);
        p := p + 1;
        n := (n + b % 128 * unit) % 0x1_0000_0000_0000_0000;
        i, unit := i + 1, 128 * unit;
        if b < 128 { return i, n; }
      }
      ScanEnds(r, i);
      p := start;
      ret, v := 0, 0;
    }

    // The first four bytes, which both unrolled readers take in the same way; go says that the fourth goes on.
    method ReadHead() returns (q: nat, n: Word, go: bool)
      requires Valid() && Unchecked(Rest())
      ensures p < q <= p + 4 && q <= |bytes|
      ensures n == Low(Rest(), q - p) < 0x1000_0000
      ensures !go ==> Length(Rest()) == q - p
      ensures go ==> q == p + 4 && Scan(Rest(), 0) == Scan(Rest(), 4) && |Rest()| > 4
    {
      hide Low, Scan, Pow128, Wrap;
      ghost var r := Rest();
      LowStarts(r);
      Powers();
      q := p;
      LowAt(r, 0, 1);
      WrapSmall(bytes[q] - 0x80);
      n := Wrap(bytes[q] - 0x80); q := q + 1;
      var b: int := bytes[q]; q := q + 1;
      LowAt(r, 1, 0x80);
      WrapSmall(n + b * 0x80);
      n := Wrap(n + b * 0x80);
      if b < 128 { return q, n, false; }
      WrapSmall(n - 0x80 * 0x80);
      n := Wrap(n - 0x80 * 0x80);
      b := bytes[q]; q := q + 1;
      LowAt(r, 2, 0x4000);
      WrapSmall(n + b * 0x4000);
      n := Wrap(n + b * 0x4000);
      if b < 128 { return q, n, false; }
      WrapSmall(n - 0x80 * 0x4000);
      n := Wrap(n - 0x80 * 0x4000);
      b := bytes[q]; q := q + 1;
      LowAt(r, 3, 0x20_0000);
      WrapSmall(n + b * 0x20_0000);
      n := Wrap(n + b * 0x20_0000);
      LowBound(r, 4);
      if b < 128 { return q, n, false; }
      WrapSmall(n - 0x80 * 0x20_0000);
      n := Wrap(n - 0x80 * 0x20_0000);
      go := true;
    }

    // pb_readvarint32_fallback: unrolled, with no test for the end of the slice.
    method ReadFallback32() returns (ret: nat, v: Word)
      requires Valid() && Unchecked(Rest())
      modifies this
      ensures Valid() && ret == Length(old(Rest())) && p == old(p) + ret
      ensures ret != 0 ==> v == Value(old(Rest())) % 0x1_0000_0000
    {
      hide Low, Scan, Pow128, Wrap;
      ghost var r := Rest();
      Powers();
      var q, n, go := ReadHead();
      label done: {
        if !go { break done; }
        var b: int := bytes[q]; q := q + 1;
        LowAt(r, 4, 0x1000_0000);
        LastWrap(n, b);
        n := Wrap(n + b * 0x1000_0000);
        if b < 128 { break done; }
        b := bytes[q]; q := q + 1;
        SkipAt(r, 5, 0x8);
        if b < 128 { break done; }
        b := bytes[q]; q := q + 1;
        SkipAt(r, 6, 0x400);
        if b < 128 { break done; }
        b := bytes[q]; q := q + 1;
        SkipAt(r, 7, 0x2_0000);
        if b < 128 { break done; }
        b := bytes[q]; q := q + 1;
        SkipAt(r, 8, 0x100_0000);
        if b < 128 { break done; }
        b := bytes[q]; q := q + 1;
        SkipAt(r, 9, 0x8000_0000);
        if b < 128 { break done; }
        ScanEnds(r, 10);
        return 0, 0;
      }
      SameWord(Low(r, q - p));
      v, p, ret := n, q, q - p;
    }

    // One line of the unrolled reader: adds a byte and, when that goes on, takes its top bit off again.
    method AddDigit(q: nat, unit: nat, n: Word, ghost k: nat, ghost n1: Word) returns (n2: Word, more: bool)
      requires Valid() && q == p + k && k < 9 && k < |Rest()| && Scan(Rest(), 0) == Scan(Rest(), k)
      requires Unchecked(Rest())
      requires unit == 1 || unit == 0x80 || unit == 0x4000 || unit == 0x20_0000
      requires unit * 0x1000_0000 == Pow128(k) && n1 + n * 0x1000_0000 == Low(Rest(), k)
      ensures n2 < 128 * unit && n1 + n2 * 0x1000_0000 == Low(Rest(), k + 1)
      ensures Scan(Rest(), 0) == if more then Scan(Rest(), k + 1) else k + 1
      ensures more ==> k + 1 < |Rest()|
    {
      hide Low, Scan, Pow128, Wrap;
      LaterAt(Rest(), k, unit, n1, n);
      var b: int := bytes[q];
      DigitFits(n, b, unit);
      n2 := Wrap(n + b * unit);
      more := b >= 128;
      if more { n2 := Wrap(n2 - 0x80 * unit); }
    }

    // Its bytes five to eight.
    method ReadMiddle(from: nat, ghost n1: Word) returns (q: nat, n2: Word, go: bool)
      requires Valid() && from == p + 4 && Unchecked(Rest()) && |Rest()| > 4
      requires n1 == Low(Rest(), 4) < 0x1000_0000 && Scan(Rest(), 0) == Scan(Rest(), 4)
      ensures from < q <= from + 4 && q <= |bytes|
      ensures n2 < 0x1000_0000 && n1 + n2 * 0x1000_0000 == Low(Rest(), q - p)
      ensures !go ==> Length(Rest()) == q - p
      ensures go ==> q == from + 4 && Scan(Rest(), 0) == Scan(Rest(), 8) && |Rest()| > 8
    {
      hide Low, Scan, Pow128;
      Powers();
      n2, go := AddDigit(from, 1, 0, 4, n1);
      q := from + 1;
      if !go { return; }
      n2, go := AddDigit(q, 0x80, n2, 5, n1);
      q := q + 1;
      if !go { return; }
      n2, go := AddDigit(q, 0x4000, n2, 6, n1);
      q := q + 1;
      if !go { return; }
      n2, go := AddDigit(q, 0x20_0000, n2, 7, n1);
      q := q + 1;
    }

    // pb_readvarint64_fallback: three words collect the bytes four, four and two at a time.
    method ReadFallback64() returns (ret: nat, v: Long)
      requires Valid() && Unchecked(Rest())
      modifies this
      ensures Valid() && ret == Length(old(Rest())) && p == old(p) + ret
      ensures ret != 0 ==> v == Value(old(Rest()))
    {
      hide Low, Scan, Pow128, Wrap;
      ghost var r := Rest();
      Powers();
      var q, n1, go := ReadHead();
      var n2: Word, n3: Word := 0, 0;
      label done: {
        if !go { break done; }
        q, n2, go := ReadMiddle(q, n1);
        if !go { break done; }
        var b: int := bytes[q]; q := q + 1;
        LowAt(r, 8, 0x100_0000_0000_0000);
        WrapSmall(n3 + b);
        n3 := Wrap(n3 + b);
        if b < 128 { break done; }
        WrapSmall(n3 - 0x80);
        n3 := Wrap(n3 - 0x80);
        b := bytes[q]; q := q + 1;
        LowAt(r, 9, 0x8000_0000_0000_0000);
        WrapSmall(n3 + b * 0x80);
        n3 := Wrap(n3 + b * 0x80);
        if b < 128 { break done; }
        ScanEnds(r, 10);
        return 0, 0;
      }
      v := (n1 + n2 * 0x1000_0000 + n3 * 0x100_0000_0000_0000) % 0x1_0000_0000_0000_0000;
      p, ret := q, q - p;
    }

    // pb_readvarint32
    method ReadVarint32() returns (ret: nat, v: Word)
      requires Valid()
      modifies this
      ensures Valid() && ret == Length(old(Rest())) && p == old(p) + ret
      ensures ret != 0 ==> v == Value(old(Rest())) % 0x1_0000_0000
      ensures Rest() == old(Rest())[ret..]
    {
      if p >= |bytes| { return 0, 0; }
      if bytes[p] < 128 {
        OneByte(Rest());
        v := bytes[p];
        p := p + 1;
        return 1, v;
      }
      if |bytes| - p >= 10 || bytes[|bytes| - 1] < 128 {
        ret, v := ReadFallback32();
      } else {
        var w;
        ret, w := ReadSlow();
        v := w % 0x1_0000_0000;
      }
    }

    // pb_readvarint64
    method ReadVarint64() returns (ret: nat, v: Long)
      requires Valid()
      modifies this
      ensures Valid() && ret == Length(old(Rest())) && p == old(p) + ret
      ensures ret != 0 ==> v == Value(old(Rest()))
      ensures Rest() == old(Rest())[ret..]
    {
      if p >= |bytes| { return 0, 0; }
      if bytes[p] < 128 {
        OneByte(Rest());
        v := bytes[p];
        p := p + 1;
        return 1, v;
      }
      if |bytes| - p >= 10 || bytes[|bytes| - 1] < 128 {
        ret, v := ReadFallback64();
      } else {
        ret, v := ReadSlow();
      }
    }
  }

  // A reader that does not test for the end is safe: ten bytes are there, or one without the top bit ends the slice.
  predicate Unchecked(b: seq<Byte>) {
    b != [] && b[0] >= 128 && (|b| >= 10 || b[|b| - 1] < 128)
  }

  // Unsigned 32-bit arithmetic.
  function Wrap(n: int): Word {
    n % 0x1_0000_0000
  }

  lemma LowStarts(r: seq<Byte>)
    ensures Low(r, 0) == 0 && Pow128(0) == 1
  {
  }

  lemma LowStep(r: seq<Byte>, k: nat)
    requires k < |r| && k < 10 && Scan(r, 0) == Scan(r, k)
    ensures Low(r, k + 1) == Low(r, k) + r[k] % 128 * Pow128(k) && Pow128(k + 1) == 128 * Pow128(k)
    ensures Scan(r, 0) == if r[k] < 128 then k + 1 else Scan(r, k + 1)
  {
  }

  lemma TimesLess(a: int, b: int, unit: nat)
    requires a <= b
    ensures a * unit <= b * unit
  {
  }

  lemma {:induction false} LowBound(r: seq<Byte>, k: nat)
    requires k <= |r|
    ensures Low(r, k) < Pow128(k)
  {
    if k > 0 {
      LowBound(r, k - 1);
      assert Low(r, k) == Low(r, k - 1) + r[k - 1] % 128 * Pow128(k - 1) && Pow128(k) == 128 * Pow128(k - 1);
      hide Low, Pow128;
      DigitBelow(Low(r, k - 1), r[k - 1] % 128, Pow128(k - 1));
    }
  }

  lemma DigitBelow(low: nat, digit: nat, unit: nat)
    requires low < unit && digit < 128
    ensures low + digit * unit < 128 * unit
  {
    TimesLess(digit, 127, unit);
  }

  // What the byte after the first k adds.
  lemma LowAt(r: seq<Byte>, k: nat, unit: nat)
    requires k < |r| && k < 10 && Scan(r, 0) == Scan(r, k) && unit == Pow128(k)
    ensures 0 <= Low(r, k) < unit
    ensures Low(r, k + 1) == Low(r, k) + (if r[k] < 128 then r[k] else r[k] - 128) * unit
    ensures Scan(r, 0) == if r[k] < 128 then k + 1 else Scan(r, k + 1)
  {
    LowStep(r, k);
    LowBound(r, k);
  }

  // The same for the second word, which begins after four bytes.
  lemma LaterAt(r: seq<Byte>, k: nat, unit: nat, n1: nat, n2: nat)
    requires k < |r| && k < 10 && Scan(r, 0) == Scan(r, k) && unit * 0x1000_0000 == Pow128(k)
    requires Low(r, k) == n1 + n2 * 0x1000_0000
    ensures n2 < unit
    ensures Low(r, k + 1) == n1 + (n2 + (if r[k] < 128 then r[k] else r[k] - 128) * unit) * 0x1000_0000
    ensures Scan(r, 0) == if r[k] < 128 then k + 1 else Scan(r, k + 1)
  {
    hide Low, Scan, Pow128;
    LowAt(r, k, unit * 0x1000_0000);
    var d := if r[k] < 128 then r[k] else r[k] - 128;
    assert d * (unit * 0x1000_0000) == d * unit * 0x1000_0000;
  }

  lemma ScanEnds(r: seq<Byte>, k: nat)
    requires k >= |r| || k >= 10
    ensures Scan(r, k) == 0
  {
  }

  lemma ModAdd(a: int, b: int)
    ensures (a % 0x1_0000_0000_0000_0000 + b) % 0x1_0000_0000_0000_0000 == (a + b) % 0x1_0000_0000_0000_0000
  {
  }

  lemma WrapSmall(n: int)
    requires 0 <= n < 0x1_0000_0000
    ensures Wrap(n) == n
  {
  }

  // A digit more stays within 28 bits, and its top bit comes off again.
  lemma DigitFits(n: nat, b: int, unit: nat)
    requires n < unit && 0 <= b < 256
    requires unit == 1 || unit == 0x80 || unit == 0x4000 || unit == 0x20_0000
    ensures Wrap(n + b * unit) == n + b * unit
    ensures b >= 128 ==> Wrap(Wrap(n + b * unit) - 0x80 * unit) == n + (b - 128) * unit
    ensures n + (if b < 128 then b else b - 128) * unit < 128 * unit
  {
    if unit == 1 {
    } else if unit == 0x80 {
    } else if unit == 0x4000 {
    } else {
    }
  }

  lemma SameWord(n: nat)
    ensures n % 0x1_0000_0000_0000_0000 % 0x1_0000_0000 == n % 0x1_0000_0000
  {
  }

  // The top bit of the fifth byte is beyond 32 bits.
  lemma LastWrap(n: int, b: Byte)
    ensures Wrap(n + b * 0x1000_0000) == (n + (if b < 128 then b else b - 128) * 0x1000_0000) % 0x1_0000_0000
  {
  }

  lemma ModSkip(a: int, m: int)
    ensures (a + m * 0x1_0000_0000) % 0x1_0000_0000 == a % 0x1_0000_0000
  {
  }

  // So is all that follows the fifth byte.
  lemma SkipAt(r: seq<Byte>, k: nat, m: nat)
    requires k < |r| && k < 10 && Scan(r, 0) == Scan(r, k) && Pow128(k) == m * 0x1_0000_0000
    ensures Low(r, k + 1) % 0x1_0000_0000 == Low(r, k) % 0x1_0000_0000
    ensures Scan(r, 0) == if r[k] < 128 then k + 1 else Scan(r, k + 1)
  {
    hide Low, Scan, Pow128;
    LowAt(r, k, m * 0x1_0000_0000);
    var d := if r[k] < 128 then r[k] else r[k] - 128;
    assert d * (m * 0x1_0000_0000) == d * m * 0x1_0000_0000;
    ModSkip(Low(r, k), d * m);
  }

  lemma OneByte(b: seq<Byte>)
    requires b != [] && b[0] < 128
    ensures Length(b) == 1 && Value(b) == b[0]
  {
    assert Low(b, 0) == 0 && Pow128(0) == 1;
    assert Low(b, 1) == b[0];
  }
}
