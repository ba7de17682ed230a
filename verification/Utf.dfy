/**
 * Conversion between UTF-16 and UTF-32, of either byte order and with or without byte order marks, in calls that may
 * end anywhere: when the input stops inside a character, when the output is full, or at an error.
 */
module Utf {
  import opened Bytes

  type Unit = n: int | 0 <= n < 0x1_0000

  // A codepage: 16 or 32 bits wide, big or little endian, with or without a byte order mark.
  datatype Coding = Coding(wide: bool, big: bool, useBom: bool)

  datatype Mode = Mode(bomDone: bool, swapped: bool)

  datatype Status = DONE | EINVAL | EILSEQ | E2BIG

  const START: Mode := Mode(false, false)

  // ---- code units and code points ----

  function UnitOf(big: bool, a: Byte, b: Byte): Unit {
    var x: int, y: int := a, b;
    if big then 0x100 * x + y else 0x100 * y + x
  }

  function UnitBytes(big: bool, u: Unit): (b: seq<Byte>)
    ensures |b| == 2
  {
    if big then [u / 0x100, u % 0x100] else [u % 0x100, u / 0x100]
  }

  function WordOf(big: bool, b: seq<Byte>): Word
    requires |b| >= 4
  {
    BytesWord(if big then Reversed(b[..4]) else b[..4])
  }

  function WordOut(big: bool, w: Word): (b: seq<Byte>)
    ensures |b| == 4
  {
    if big then Reversed(WordBytes(w)) else WordBytes(w)
  }

  predicate High(u: int) {
    0xD800 <= u <= 0xDBFF
  }

  predicate Low(u: int) {
    0xDC00 <= u <= 0xDFFF
  }

  // One character: a unit outside the surrogates or a pair of them.
  predicate IsChar(w: seq<Unit>) {
    (|w| == 1 && !High(w[0]) && !Low(w[0])) || (|w| == 2 && High(w[0]) && Low(w[1]))
  }

  predicate Scalar(c: int) {
    0 <= c <= 0x10FFFF && !(0xD800 <= c <= 0xDFFF)
  }

  // utf16_to_ucs4; the mask keeps the low ten bits of each unit.
  function Ucs4(w: seq<Unit>): Word
    requires IsChar(w)
  {
    if High(w[0]) then (w[0] as int % 0x400) * 0x400 + w[1] as int % 0x400 + 0x1_0000 else w[0]
  }

  // ucs4_to_utf16
  function Units(c: int): (w: seq<Unit>)
    requires Scalar(c)
  {
    if c < 0x1_0000 then [c] else [0xD800 + (c - 0x1_0000) / 0x400, 0xDC00 + (c - 0x1_0000) % 0x400]
  }

  lemma UnitsOfUcs4(w: seq<Unit>)
    requires IsChar(w)
    ensures Scalar(Ucs4(w)) && Units(Ucs4(w)) == w
  {
    if High(w[0]) {
      var a: int, b: int := w[0], w[1];
      var h, l := a - 0xD800, b - 0xDC00;
      assert a % 0x400 == h && b % 0x400 == l;
      assert (h * 0x400 + l) / 0x400 == h && (h * 0x400 + l) % 0x400 == l;
    }
  }

  lemma Ucs4OfUnits(c: int)
    requires Scalar(c)
    ensures IsChar(Units(c)) && Ucs4(Units(c)) == c
  {
    if c >= 0x1_0000 {
      var d := c - 0x1_0000;
      var h, l := d / 0x400, d % 0x400;
      assert 0 <= h < 0x400;
      assert (0xD800 + h) % 0x400 == h && (0xDC00 + l) % 0x400 == l;
    }
  }

  // Pairs come in the order of their code points, which are those from 0x10000 on; other units stand for themselves.
  lemma PairsInOrder(w: seq<Unit>, v: seq<Unit>)
    requires IsChar(w) && IsChar(v) && |w| == |v| == 2
    requires w[0] < v[0] || (w[0] == v[0] && w[1] < v[1])
    ensures 0x1_0000 <= Ucs4(w) < Ucs4(v) <= 0x10_FFFF
  {
    var a: int, b: int, c: int, d: int := w[0], w[1], v[0], v[1];
    assert a % 0x400 == a - 0xD800 && b % 0x400 == b - 0xDC00 && c % 0x400 == c - 0xD800 && d % 0x400 == d - 0xDC00;
  }

  lemma SingleUnits(w: seq<Unit>)
    requires IsChar(w) && |w| == 1
    ensures Ucs4(w) == w[0] && Units(w[0]) == w
  {
  }

  // ---- reading one character ----

  datatype Read = Bad(error: Status) | Mark(size: nat, mode: Mode) | Char(units: seq<Unit>, size: nat, mode: Mode)

  // utf16_mbtowc
  function Read16(c: Coding, m: Mode, b: seq<Byte>): Read {
    var big := c.big != m.swapped;
    if |b| < 2 then Bad(EINVAL)
    else
      var u := UnitOf(big, b[0], b[1]);
      var first := c.useBom && !m.bomDone;
      var now := if first then m.(bomDone := true) else m;
      if first && u == 0xFFFE then Mark(2, now.(swapped := true))
      else if first && u == 0xFEFF then Mark(2, now)
      else if Low(u) then Bad(EILSEQ)
      else if High(u) then
        if |b| < 4 then Bad(EINVAL)
        else
          var v := UnitOf(big, b[2], b[3]);
          if Low(v) then Char([u, v], 4, now) else Bad(EILSEQ)
      else Char([u], 2, now)
  }

  // utf32_mbtowc
  function Read32(c: Coding, m: Mode, b: seq<Byte>): Read {
    var big := c.big != m.swapped;
    if |b| < 4 then Bad(EINVAL)
    else
      var w := WordOf(big, b);
      var first := c.useBom && !m.bomDone;
      var now := if first then m.(bomDone := true) else m;
      if first && w == 0xFFFE_0000 then Mark(4, now.(swapped := true))
      else if first && w == 0xFEFF then Mark(4, now)
      else if Scalar(w) then Char(Units(w), 4, now)
      else Bad(EILSEQ)
  }

  function ReadChar(c: Coding, m: Mode, b: seq<Byte>): (r: Read)
    ensures !r.Bad? ==> 0 < r.size <= |b|
    ensures r.Char? ==> IsChar(r.units)
    ensures r.Bad? ==> r.error == EINVAL || r.error == EILSEQ
  {
    if c.wide then
      var r := Read32(c, m, b);
      assert r.Char? ==> IsChar(r.units) by {
        if r.Char? { Ucs4OfUnits(WordOf(c.big != m.swapped, b)); }
      }
      r
    else Read16(c, m, b)
  }

  // ---- writing one character ----

  function PlainBytes(c: Coding, w: seq<Unit>): (b: seq<Byte>)
    requires IsChar(w)
    ensures |b| > 0
  {
    if c.wide then WordOut(c.big, Ucs4(w))
    else if |w| == 2 then UnitBytes(c.big, w[0]) + UnitBytes(c.big, w[1])
    else UnitBytes(c.big, w[0])
  }

  function Bom(c: Coding): (b: seq<Byte>) {
    if c.wide then WordOut(c.big, 0xFEFF) else UnitBytes(c.big, 0xFEFF)
  }

  // The bytes that utf16_wctomb and utf32_wctomb write when there is room: a mark goes before the first character.
  function Written(c: Coding, m: Mode, w: seq<Unit>): (b: seq<Byte>)
    requires IsChar(w)
    ensures |b| > 0
  {
    (if c.useBom && !m.bomDone then Bom(c) else []) + PlainBytes(c, w)
  }

  function AfterWrite(c: Coding, m: Mode): Mode {
    if c.useBom then m.(bomDone := true) else m
  }

  // The bytes of a character: of each unit, or of the code point, the highest byte first in a big-endian codepage, the
  // lowest first in the others.
  lemma NarrowLayout(c: Coding, w: seq<Unit>, i: nat)
    requires IsChar(w) && !c.wide && i < |w|
    ensures var b := PlainBytes(c, w);
            && |b| == 2 * |w|
            && w[i] == if c.big then 0x100 * b[2 * i] as int + b[2 * i + 1] as int
                       else b[2 * i] as int + 0x100 * b[2 * i + 1] as int
  {
  }

  lemma WideLayout(c: Coding, w: seq<Unit>)
    requires IsChar(w) && c.wide
    ensures var b := PlainBytes(c, w);
            && |b| == 4
            && Ucs4(w) ==
                 if c.big then 0x100_0000 * b[0] as int + 0x1_0000 * b[1] as int + 0x100 * b[2] as int + b[3] as int
                 else b[0] as int + 0x100 * b[1] as int + 0x1_0000 * b[2] as int + 0x100_0000 * b[3] as int
  {
    LittleEndian(Ucs4(w));
  }

  lemma Marks(c: Coding)
    ensures Bom(c) == if c.wide then if c.big then [0, 0, 0xFE, 0xFF] else [0xFF, 0xFE, 0, 0]
                      else if c.big then [0xFE, 0xFF] else [0xFF, 0xFE]
  {
  }

  // What cannot be read from the middle of a document: less than a unit, a pair that is cut, a lone surrogate, and a
  // word that is no code point.
  lemma Unreadable(c: Coding, m: Mode, b: seq<Byte>, x: int, y: int)
    requires (c.useBom ==> m.bomDone) && c.big && !m.swapped
    requires |b| >= 4 && c.wide ==>
      x == 0x100_0000 * b[0] as int + 0x1_0000 * b[1] as int + 0x100 * b[2] as int + b[3] as int
    requires |b| >= 4 && !c.wide ==> y == 0x100 * b[2] as int + b[3] as int
    requires |b| >= 2 && !c.wide ==> x == 0x100 * b[0] as int + b[1] as int
    ensures var r := ReadChar(c, m, b);
            if c.wide then
              && (r == Bad(EINVAL) <==> |b| < 4)
              && (r == Bad(EILSEQ) <==> |b| >= 4 && (x > 0x10_FFFF || 0xD800 <= x <= 0xDFFF))
            else
              && (r == Bad(EINVAL) <==> |b| < 2 || (0xD800 <= x <= 0xDBFF && |b| < 4))
              && (r == Bad(EILSEQ) <==>
                   || (|b| >= 2 && 0xDC00 <= x <= 0xDFFF)
                   || (|b| >= 4 && 0xD800 <= x <= 0xDBFF && !(0xDC00 <= y <= 0xDFFF)))
  {
    if c.wide && |b| >= 4 {
      var four := Reversed(b[..4]);
      assert BytesWord(four) == x;
    }
  }

  // ---- one call ----

  // ignore: what cannot be converted is left out.
  datatype Conversion = Conversion(source: Coding, target: Coding, ignore: bool)

  datatype Space = Unlimited | Limited(n: nat)

  // What a call has written, what input it leaves, in which modes, and why it stopped.
  datatype Outcome = Outcome(out: seq<Byte>, rest: seq<Byte>, source: Mode, target: Mode, status: Status)

  predicate Fits(space: Space, n: nat) {
    space.Limited? ==> n <= space.n
  }

  function Shrunk(space: Space, n: nat): Space
    requires Fits(space, n)
  {
    match space
    case Unlimited => Unlimited
    case Limited(k) => Limited(k - n)
  }

  function Prepend(b: seq<Byte>, o: Outcome): Outcome {
    o.(out := b + o.out)
  }

  function Run(cv: Conversion, source: Mode, target: Mode, b: seq<Byte>, space: Space): Outcome
    decreases |b|
  {
    if b == [] then Outcome([], [], source, target, DONE)
    else
      match ReadChar(cv.source, source, b)
      case Bad(e) =>
        if cv.ignore then Run(cv, source, target, b[1..], space)
        else Outcome([], b, source, target, e)
      case Mark(n, m) => Run(cv, m, target, b[n..], space)
      case Char(w, n, m) =>
        var written := Written(cv.target, target, w);
        if !Fits(space, |written|) then Outcome([], b, source, target, E2BIG)
        else Prepend(written, Run(cv, m, AfterWrite(cv.target, target), b[n..], Shrunk(space, |written|)))
  }

  // ---- splitting the input ----

  // A character that is read from the first bytes is read in the same way when more follow.
  lemma ReadMore(c: Coding, m: Mode, a: seq<Byte>, b: seq<Byte>)
    requires ReadChar(c, m, a) != Bad(EINVAL)
    ensures ReadChar(c, m, a + b) == ReadChar(c, m, a)
  {
  }

  // A call that goes on where another one has stopped, with all bytes that have come by then.
  function Resume(cv: Conversion, o: Outcome, b: seq<Byte>, space: Space): Outcome {
    Prepend(o.out, Run(cv, o.source, o.target, o.rest + b, space))
  }

  // With room for everything, it does not matter where the input is cut: neither for the output nor for the place and
  // the kind of an error.
  lemma {:induction false} InputSplit(cv: Conversion, source: Mode, target: Mode, a: seq<Byte>, b: seq<Byte>)
    requires !cv.ignore
    ensures Run(cv, source, target, a + b, Unlimited) == Resume(cv, Run(cv, source, target, a, Unlimited), b, Unlimited)
    decreases |a|
  {
    hide ReadChar, Written, AfterWrite;
    if a == [] {
      assert a + b == b && [] + b == b;
      NothingBefore(Run(cv, source, target, b, Unlimited));
    } else {
      match ReadChar(cv.source, source, a)
      case Bad(e) =>
        NothingBefore(Run(cv, source, target, a + b, Unlimited));
      case Mark(n, m) =>
        ReadMore(cv.source, source, a, b);
        assert (a + b)[n..] == a[n..] + b;
        InputSplit(cv, m, target, a[n..], b);
      case Char(w, n, m) =>
        ReadMore(cv.source, source, a, b);
        assert (a + b)[n..] == a[n..] + b;
        InputSplit(cv, m, AfterWrite(cv.target, target), a[n..], b);
        var written := Written(cv.target, target, w);
        var o := Run(cv, m, AfterWrite(cv.target, target), a[n..], Unlimited);
        PrependTwice(written, o.out, Run(cv, o.source, o.target, o.rest + b, Unlimited));
    }
  }

  lemma NothingBefore(o: Outcome)
    ensures Prepend([], o) == o
  {
    assert [] + o.out == o.out;
  }

  lemma PrependTwice(a: seq<Byte>, b: seq<Byte>, o: Outcome)
    ensures Prepend(a, Prepend(b, o)) == Prepend(a + b, o)
  {
    assert a + (b + o.out) == a + b + o.out;
  }

  // ---- splitting the output ----

  // A full output loses nothing: going on with more room gives what would have come at once.
  lemma {:induction false} OutputSplit(cv: Conversion, source: Mode, target: Mode, b: seq<Byte>, space: Space)
    ensures var o := Run(cv, source, target, b, space);
            && Fits(space, |o.out|)
            && Resume(cv, o, [], Unlimited) == Run(cv, source, target, b, Unlimited)
            && (o.status != E2BIG ==> o == Run(cv, source, target, b, Unlimited))
    decreases |b|
  {
    hide ReadChar, Written, AfterWrite;
    var o := Run(cv, source, target, b, space);
    if b == [] {
      assert o.rest + [] == [];
      NothingBefore(Run(cv, source, target, b, Unlimited));
    } else {
      match ReadChar(cv.source, source, b)
      case Bad(e) =>
        if cv.ignore {
          OutputSplit(cv, source, target, b[1..], space);
        } else {
          assert b + [] == b;
          NothingBefore(o);
        }
      case Mark(n, m) => OutputSplit(cv, m, target, b[n..], space);
      case Char(w, n, m) =>
        var written := Written(cv.target, target, w);
        if Fits(space, |written|) {
          var more := AfterWrite(cv.target, target);
          OutputSplit(cv, m, more, b[n..], Shrunk(space, |written|));
          var q := Run(cv, m, more, b[n..], Shrunk(space, |written|));
          PrependTwice(written, q.out, Run(cv, q.source, q.target, q.rest + [], Unlimited));
        } else {
          assert b + [] == b;
          NothingBefore(Run(cv, source, target, b, Unlimited));
        }
    }
  }

  // ---- any sequence of calls ----

  // One call: the bytes that have come since the last one, and the room that it is given.
  datatype Call = Call(more: seq<Byte>, space: Space)

  // The calls one after the other; an error in the input ends them, a full output or a cut character does not.
  function Calls(cv: Conversion, o: Outcome, calls: seq<Call>): Outcome
    decreases |calls|
  {
    if calls == [] then o
    else
      var q := Resume(cv, o, calls[0].more, calls[0].space);
      if q.status == EILSEQ then q else Calls(cv, q, calls[1..])
  }

  function AllBytes(calls: seq<Call>): seq<Byte> {
    if calls == [] then [] else calls[0].more + AllBytes(calls[1..])
  }

  // The bytes of the calls that are not made because an error in the input came first.
  function NotMade(cv: Conversion, o: Outcome, calls: seq<Call>): seq<Byte>
    decreases |calls|
  {
    if calls == [] then []
    else
      var q := Resume(cv, o, calls[0].more, calls[0].space);
      if q.status == EILSEQ then AllBytes(calls[1..]) else NotMade(cv, q, calls[1..])
  }

  // However input and room are dealt out, the calls do what one call with all the input and enough room does: going on
  // without limit from where they stopped gives the same; and when they stop at an error, the one call has written the
  // same, stops at the same place of the input, in the same modes and with the same error.
  lemma {:induction false} AnySchedule(cv: Conversion, o: Outcome, calls: seq<Call>)
    requires !cv.ignore
    ensures var q, full := Calls(cv, o, calls), Resume(cv, o, AllBytes(calls), Unlimited);
            if q.status != EILSEQ || calls == [] then full == Resume(cv, q, [], Unlimited)
            else full == q.(rest := q.rest + NotMade(cv, o, calls))
    decreases |calls|
  {
    if calls == [] {
    } else {
      var a, rest := calls[0].more, AllBytes(calls[1..]);
      var q := Resume(cv, o, a, calls[0].space);
      OneCall(cv, o, a, calls[0].space, rest);
      if q.status != EILSEQ {
        AnySchedule(cv, q, calls[1..]);
        if calls[1..] == [] {
          assert q.rest + rest == q.rest + [];
        }
      } else {
        ErrorStays(cv, o.source, o.target, o.rest + a, calls[0].space, rest);
      }
    }
  }

  // What is malformed stays malformed.
  lemma {:induction false} ErrorStays(cv: Conversion, source: Mode, target: Mode, b: seq<Byte>, space: Space,
                                      more: seq<Byte>)
    requires Run(cv, source, target, b, space).status == EILSEQ
    ensures var o := Run(cv, source, target, b, space);
            Run(cv, o.source, o.target, o.rest + more, Unlimited)
              == Outcome([], o.rest + more, o.source, o.target, EILSEQ)
    decreases |b|
  {
    hide ReadChar, Written, AfterWrite;
    if b != [] {
      match ReadChar(cv.source, source, b)
      case Bad(e) =>
        if cv.ignore {
          ErrorStays(cv, source, target, b[1..], space, more);
        } else {
          ReadMore(cv.source, source, b, more);
        }
      case Mark(n, m) => ErrorStays(cv, m, target, b[n..], space, more);
      case Char(w, n, m) =>
        var written := Written(cv.target, target, w);
        if Fits(space, |written|) {
          ErrorStays(cv, m, AfterWrite(cv.target, target), b[n..], Shrunk(space, |written|), more);
        }
    }
  }

  lemma OneCall(cv: Conversion, o: Outcome, a: seq<Byte>, space: Space, b: seq<Byte>)
    requires !cv.ignore
    ensures Resume(cv, o, a + b, Unlimited) == Resume(cv, Resume(cv, o, a, space), b, Unlimited)
  {
    hide Run;
    var all := o.rest + a;
    assert o.rest + (a + b) == all + b;
    InputSplit(cv, o.source, o.target, all, b);
    OutputSplit(cv, o.source, o.target, all, space);
    var p := Run(cv, o.source, o.target, all, space);
    var full := Run(cv, o.source, o.target, all, Unlimited);
    // going on from p with b is going on from full with b
    assert p.rest + [] == p.rest;
    var r := Run(cv, p.source, p.target, p.rest, Unlimited);
    assert full == Prepend(p.out, r);
    InputSplit(cv, p.source, p.target, p.rest, b);
    PrependTwice(p.out, r.out, Run(cv, r.source, r.target, r.rest + b, Unlimited));
    var end := Run(cv, p.source, p.target, p.rest + b, Unlimited);
    PrependTwice(o.out, p.out, end);
  }

  // ---- leaving out what cannot be converted ----

  ghost predicate SplitsWell(cv: Conversion, source: Mode, target: Mode, a: seq<Byte>, b: seq<Byte>) {
    Run(cv, source, target, a + b, Unlimited) == Resume(cv, Run(cv, source, target, a, Unlimited), b, Unlimited)
  }

  // A character that is cut is taken for an error, and so left out: with that option the result does depend on how
  // the input is cut.
  lemma CutCharacter(cv: Conversion)
    requires cv.ignore
    ensures !SplitsWell(cv, START, START, [0], if cv.source.wide then [0, 0, 0] else [0])
  {
    var m := START;
    var b: seq<Byte> := if cv.source.wide then [0, 0, 0] else [0];
    var all: seq<Byte> := [0] + b;
    assert ReadChar(cv.source, m, all) == Char([0], |all|, Mode(cv.source.useBom, false));
    assert Run(cv, m, START, all, Unlimited).out != [];
    NoneWhole(cv, m, [0]);
    NoneWhole(cv, m, b);
    assert [] + b == b;
  }

  // Fewer zeros than a character has are left out.
  lemma {:induction false} NoneWhole(cv: Conversion, m: Mode, b: seq<Byte>)
    requires cv.ignore && |b| < (if cv.source.wide then 4 else 2)
    ensures Run(cv, m, START, b, Unlimited) == Outcome([], [], m, START, DONE)
    decreases |b|
  {
    if b != [] {
      assert ReadChar(cv.source, m, b) == Bad(EINVAL);
      NoneWhole(cv, m, b[1..]);
    }
  }

  // Cutting the input never matters exactly when nothing is left out.
  lemma SplitsWellExactly(cv: Conversion)
    ensures (forall source, target, a, b :: SplitsWell(cv, source, target, a, b)) <==> !cv.ignore
    ensures (forall a, b :: SplitsWell(cv, START, START, a, b)) <==> !cv.ignore
  {
    if cv.ignore {
      CutCharacter(cv);
    } else {
      forall source, target, a, b
        ensures SplitsWell(cv, source, target, a, b)
      {
        InputSplit(cv, source, target, a, b);
      }
    }
  }

  // No call writes more than there is room for, and one that stops for want of room has none for the next character.
  lemma {:induction false} RoomKept(cv: Conversion, source: Mode, target: Mode, b: seq<Byte>, space: nat)
    ensures var o := Run(cv, source, target, b, Limited(space));
            && |o.out| <= space && |o.rest| <= |b| && o.rest == b[|b| - |o.rest|..]
            && (o.status == E2BIG ==> var r := ReadChar(cv.source, o.source, o.rest);
                  o.rest != [] && r.Char? && |o.out| + |Written(cv.target, o.target, r.units)| > space)
    decreases |b|
  {
    hide ReadChar, Written, AfterWrite;
    if b != [] {
      match ReadChar(cv.source, source, b)
      case Bad(e) => if cv.ignore { RoomKept(cv, source, target, b[1..], space); }
      case Mark(n, m) => RoomKept(cv, m, target, b[n..], space);
      case Char(w, n, m) =>
        var written := Written(cv.target, target, w);
        if |written| <= space { RoomKept(cv, m, AfterWrite(cv.target, target), b[n..], space - |written|); }
    }
  }

  // With //IGNORE one byte is left out at a time.
  lemma OneByteLeftOut(cv: Conversion)
    requires cv.ignore && cv.source == cv.target == Coding(false, true, false)
    ensures Run(cv, START, START, [0xDC, 0x00, 0x00, 0x41], Unlimited).out == [0x00, 0x00]
    ensures Run(cv, START, START, [0xD8, 0x3D, 0xDE, 0x00], Unlimited).out == [0xD8, 0x3D, 0xDE, 0x00]
  {
    var b: seq<Byte> := [0xDC, 0x00, 0x00, 0x41];
    assert b[1..] == [0x00, 0x00, 0x41] && b[1..][2..] == [0x41] && [0x41 as Byte][1..] == [];
  }

  // ---- well-formed text ----

  ghost predicate IsText(text: seq<seq<Unit>>) {
    forall i :: 0 <= i < |text| ==> IsChar(text[i])
  }

  function Encode(c: Coding, text: seq<seq<Unit>>): seq<Byte>
    requires forall i :: 0 <= i < |text| ==> IsChar(text[i])
  {
    if text == [] then [] else PlainBytes(c, text[0]) + Encode(c, text[1..])
  }

  // A text with its mark.
  function Document(c: Coding, text: seq<seq<Unit>>): seq<Byte>
    requires forall i :: 0 <= i < |text| ==> IsChar(text[i])
  {
    (if c.useBom && text != [] then Bom(c) else []) + Encode(c, text)
  }

  // A document begins with its mark and goes on with the text.
  lemma MarkFirst(c: Coding, text: seq<seq<Unit>>)
    requires IsText(text) && text != []
    ensures var d, n := Document(c, text), if !c.useBom then 0 else if c.wide then 4 else 2;
            && |d| == n + |Encode(c, text)| && d[n..] == Encode(c, text) && (c.useBom ==> d[..n] == Bom(c))
  {
  }

  lemma UnitRoundTrip(big: bool, u: Unit)
    ensures var b := UnitBytes(big, u); UnitOf(big, b[0], b[1]) == u
  {
  }

  lemma WordReadBack(big: bool, w: Word, rest: seq<Byte>)
    ensures WordOf(big, WordOut(big, w) + rest) == w
  {
    WordRoundTrip(w);
    assert (WordOut(big, w) + rest)[..4] == WordOut(big, w);
  }

  // A written character is read back, in the byte order that the marks have settled.
  lemma ReadWritten(c: Coding, m: Mode, w: seq<Unit>, rest: seq<Byte>)
    requires IsChar(w) && (c.useBom ==> m.bomDone)
    ensures var b := PlainBytes(c.(big := c.big != m.swapped), w);
            ReadChar(c, m, b + rest) == Char(w, |b|, m)
  {
    var big := c.big != m.swapped;
    var b := PlainBytes(c.(big := big), w);
    if c.wide {
      UnitsOfUcs4(w);
      WordReadBack(big, Ucs4(w), rest);
    } else {
      UnitRoundTrip(big, w[0]);
      if |w| == 2 { UnitRoundTrip(big, w[1]); }
    }
  }

  // What is still to be written of a text: the mark unless it is out, and the characters.
  function StillTo(c: Coding, m: Mode, text: seq<seq<Unit>>): seq<Byte>
    requires forall i :: 0 <= i < |text| ==> IsChar(text[i])
  {
    (if c.useBom && !m.bomDone && text != [] then Bom(c) else []) + Encode(c, text)
  }

  lemma StillToWrite(c: Coding, m: Mode, text: seq<seq<Unit>>)
    requires IsText(text) && text != []
    ensures Written(c, m, text[0]) + StillTo(c, AfterWrite(c, m), text[1..]) == StillTo(c, m, text)
  {
    hide PlainBytes, Bom, Encode;
    EncodeParts(c, text);
    var mark := if c.useBom && !m.bomDone then Bom(c) else [];
    var plain, rest := PlainBytes(c, text[0]), Encode(c, text[1..]);
    assert StillTo(c, AfterWrite(c, m), text[1..]) == rest by { assert [] + rest == rest; }
    assert mark + plain + rest == mark + (plain + rest);
  }

  lemma {:induction false} ConvertsText(cv: Conversion, source: Mode, target: Mode, text: seq<seq<Unit>>)
    requires IsText(text) && (cv.source.useBom ==> source.bomDone)
    ensures var o := Run(cv, source, target, Encode(cv.source.(big := cv.source.big != source.swapped), text),
                         Unlimited);
            o.status == DONE && o.rest == [] && o.out == StillTo(cv.target, target, text)
    decreases |text|
  {
    var c := cv.source.(big := cv.source.big != source.swapped);
    EncodeParts(c, text);
    if text == [] {
      RunNothing(cv, source, target);
    } else {
      hide ReadChar, PlainBytes, Bom, Encode, Run, StillTo, Written, AfterWrite;
      var w, b, more := text[0], PlainBytes(c, text[0]), Encode(c, text[1..]);
      ReadWritten(cv.source, source, w, more);
      RunChar(cv, source, target, b + more, w, |b|, source);
      assert (b + more)[|b|..] == more;
      ConvertsText(cv, source, AfterWrite(cv.target, target), text[1..]);
      StillToWrite(cv.target, target, text);
    }
  }

  lemma EncodeParts(c: Coding, text: seq<seq<Unit>>)
    requires IsText(text)
    ensures text == [] ==> Encode(c, text) == []
    ensures text != [] ==> Encode(c, text) == PlainBytes(c, text[0]) + Encode(c, text[1..])
  {
  }

  lemma RunNothing(cv: Conversion, source: Mode, target: Mode)
    ensures Run(cv, source, target, [], Unlimited) == Outcome([], [], source, target, DONE)
  {
  }

  lemma RunChar(cv: Conversion, source: Mode, target: Mode, b: seq<Byte>, w: seq<Unit>, n: nat, m: Mode)
    requires b != [] && ReadChar(cv.source, source, b) == Char(w, n, m)
    ensures Run(cv, source, target, b, Unlimited)
         == Prepend(Written(cv.target, target, w), Run(cv, m, AfterWrite(cv.target, target), b[n..], Unlimited))
  {
  }

  // Every well-formed document converts completely into the same text in the other form, so converting it there and
  // back gives it again.
  lemma ConvertsDocument(c: Coding, d: Coding, ignore: bool, text: seq<seq<Unit>>)
    requires IsText(text)
    ensures var o := Run(Conversion(c, d, ignore), START, START, Document(c, text), Unlimited);
            o.status == DONE && o.rest == [] && o.out == Document(d, text)
  {
    var cv := Conversion(c, d, ignore);
    var plain := Encode(c, text);
    if c.useBom && text != [] {
      MarkRead(c, plain);
      hide ReadChar;
      assert (Bom(c) + plain)[|Bom(c)|..] == plain;
      assert c.(big := c.big != false) == c;
      ConvertsText(cv, Mode(true, false), START, text);
    } else {
      assert [] + plain == plain;
      if text == [] {
        assert plain == [];
      } else {
        assert c.(big := c.big != false) == c;
        ConvertsText(cv, START, START, text);
      }
    }
  }

  lemma MarkRead(c: Coding, rest: seq<Byte>)
    requires c.useBom
    ensures ReadChar(c, START, Bom(c) + rest) == Mark(|Bom(c)|, Mode(true, false))
  {
    var b := Bom(c) + rest;
    if c.wide {
      WordReadBack(c.big, 0xFEFF, rest);
    } else {
      UnitRoundTrip(c.big, 0xFEFF);
    }
  }

  // A mark in the other byte order turns the order around: such a document converts as well.
  lemma ConvertsSwapped(c: Coding, d: Coding, ignore: bool, text: seq<seq<Unit>>)
    requires IsText(text) && c.useBom && text != []
    ensures var o := Run(Conversion(c, d, ignore), START, START, Document(c.(big := !c.big), text), Unlimited);
            o.status == DONE && o.rest == [] && o.out == Document(d, text)
  {
    var cv, s := Conversion(c, d, ignore), c.(big := !c.big);
    var plain := Encode(s, text);
    SwappedMarkRead(c, plain);
    hide ReadChar;
    assert (Bom(s) + plain)[|Bom(s)|..] == plain;
    ConvertsText(cv, Mode(true, true), START, text);
  }

  lemma SwappedMarkRead(c: Coding, rest: seq<Byte>)
    requires c.useBom
    ensures var s := c.(big := !c.big);
            ReadChar(c, START, Bom(s) + rest) == Mark(|Bom(s)|, Mode(true, true))
  {
    var b := Bom(c.(big := !c.big)) + rest;
    if c.wide {
      assert WordOf(c.big, b) == 0xFFFE_0000;
    } else {
      assert UnitOf(c.big, b[0], b[1]) == 0xFFFE;
    }
  }

  // ---- the loop ----

  // The converter, which keeps its modes from call to call.
  class Iconv {
    const cv: Conversion
    var source: Mode
    var target: Mode

    constructor (cv: Conversion)
      ensures this.cv == cv && source == target == START
    {
      this.cv := cv;
      source, target := START, START;
    }

    // win_iconv: the bytes of b before the rest have been taken.
    method Convert(b: seq<Byte>, space: nat) returns (out: seq<Byte>, rest: seq<Byte>, status: Status)
      modifies this
      ensures Outcome(out, rest, source, target, status) == Run(cv, old(source), old(target), b, Limited(space))
    {
      hide ReadChar, Written, AfterWrite;
      out, rest := [], b;
      var left: nat := space;
      ghost var all := Run(cv, source, target, b, Limited(space));
      NothingBefore(all);
      while rest != []
        invariant all == Prepend(out, Run(cv, source, target, rest, Limited(left)))
        decreases |rest|
      {
        var fromMode, toMode := source, target;
        var r := ReadChar(cv.source, source, rest);
        if r.Bad? {
          source := fromMode;
          if !cv.ignore { return out, rest, r.error; }
          rest := rest[1..];
          continue;
        }
        source := r.mode;
        if r.Mark? {
          rest := rest[r.size..];
          continue;
        }
        var written := Written(cv.target, target, r.units);
        target := AfterWrite(cv.target, target);
        if |written| > left {
          source, target := fromMode, toMode;
          return out, rest, E2BIG;
        }
        PrependTwice(out, written, Run(cv, source, target, rest[r.size..], Limited(left - |written|)));
        out := out + written;
        rest := rest[r.size..];
        left := left - |written|;
      }
      status := DONE;
    }
  }
}
