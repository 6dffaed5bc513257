/** UTF-8 as Rust's `String::from_utf8` accepts it: the well-formed byte
    sequences of RFC 3629 section 4 (no overlong forms, no surrogates, nothing
    above U+10FFFF), decoded to Unicode scalar values (Dafny's `char`). */
module Utf8 {
  import opened Wrappers
  import opened Seqs

  type Byte = b: int | 0 <= b < 0x100

  /** The ASCII code of `'|'`. */
  const PipeByte: Byte := 0x7C

  predicate IsContinuation(b: Byte) { 0x80 <= b < 0xC0 }

  /** The scalar value encoded by the well-formed sequence at the front of `b`,
      with the number of bytes it takes; `None` when the front is ill-formed. */
  function DecodeFirst(b: seq<Byte>): (r: Option<(char, nat)>)
    ensures r.Some? ==> 1 <= r.value.1 <= |b| && r.value.1 <= 4
    ensures r.Some? ==> (r.value.1 == 1 <==> b[0] < 0x80)
  {
    if |b| == 0 then None
    else if b[0] < 0x80 then Some((b[0] as char, 1))
    else if 0xC2 <= b[0] <= 0xDF then
      if 2 <= |b| && IsContinuation(b[1])
      then Some((((b[0] as int - 0xC0) * 0x40 + (b[1] as int - 0x80)) as char, 2))
      else None
    else if 0xE0 <= b[0] <= 0xEF then
      var lo := if b[0] == 0xE0 then 0xA0 else 0x80;
      var hi := if b[0] == 0xED then 0x9F else 0xBF;
      if 3 <= |b| && lo <= b[1] <= hi && IsContinuation(b[2])
      then Some((((b[0] as int - 0xE0) * 0x1000 + (b[1] as int - 0x80) * 0x40 + (b[2] as int - 0x80)) as char, 3))
      else None
    else if 0xF0 <= b[0] <= 0xF4 then
      var lo := if b[0] == 0xF0 then 0x90 else 0x80;
      var hi := if b[0] == 0xF4 then 0x8F else 0xBF;
      if 4 <= |b| && lo <= b[1] <= hi && IsContinuation(b[2]) && IsContinuation(b[3])
      then Some((((b[0] as int - 0xF0) * 0x40000 + (b[1] as int - 0x80) * 0x1000 + (b[2] as int - 0x80) * 0x40 + (b[3] as int - 0x80)) as char, 4))
      else None
    else None
  }

  /** `String::from_utf8`: the decoded text, or `None` when `b` is not well-formed UTF-8.
      Decoded text re-encodes to exactly the bytes it came from. */
  function Decode(b: seq<Byte>): (r: Option<string>)
    ensures r.Some? ==> Encode(r.value) == b
    decreases |b|
  {
    if b == [] then Some([])
    else
      match DecodeFirst(b)
      case None => None
      case Some((c, n)) =>
        match Decode(b[n..])
        case None => None
        case Some(s) =>
          EncodeScalarDecodeFirst(b);
          assert ([c] + s)[0] == c && ([c] + s)[1..] == s;
          assert b == b[..n] + b[n..];
          Some([c] + s)
  }

  predicate Valid(b: seq<Byte>) { Decode(b).Some? }

  /** The shortest UTF-8 form of one scalar value. */
  function EncodeScalar(c: char): (r: seq<Byte>)
    ensures 1 <= |r| <= 4
    ensures |r| == 1 <==> (c as int) < 0x80
  {
    var cp := c as int;
    if cp < 0x80 then [cp]
    else if cp < 0x800 then [0xC0 + cp / 0x40, 0x80 + cp % 0x40]
    else if cp < 0x10000 then [0xE0 + cp / 0x1000, 0x80 + (cp / 0x40) % 0x40, 0x80 + cp % 0x40]
    else [0xF0 + cp / 0x40000, 0x80 + (cp / 0x1000) % 0x40, 0x80 + (cp / 0x40) % 0x40, 0x80 + cp % 0x40]
  }

  /** The UTF-8 bytes of a Rust `String` holding `s`. */
  function Encode(s: string): seq<Byte>
  {
    if s == [] then [] else EncodeScalar(s[0]) + Encode(s[1..])
  }

  lemma DecodeFirstEncodeScalar(c: char, rest: seq<Byte>)
    ensures DecodeFirst(EncodeScalar(c) + rest) == Some((c, |EncodeScalar(c)|))
  {
    var cp := c as int;
    var e := EncodeScalar(c);
    var b := e + rest;
    assert b[..|e|] == e;
    if cp < 0x80 {
    } else if cp < 0x800 {
      assert b[0] == e[0] && b[1] == e[1];
      assert cp == (cp / 0x40) * 0x40 + cp % 0x40;
    } else if cp < 0x10000 {
      assert b[0] == e[0] && b[1] == e[1] && b[2] == e[2];
      assert cp / 0x40 == (cp / 0x1000) * 0x40 + (cp / 0x40) % 0x40;
      assert cp == (cp / 0x40) * 0x40 + cp % 0x40;
    } else {
      assert b[0] == e[0] && b[1] == e[1] && b[2] == e[2] && b[3] == e[3];
      assert cp / 0x1000 == (cp / 0x40000) * 0x40 + (cp / 0x1000) % 0x40;
      assert cp / 0x40 == (cp / 0x1000) * 0x40 + (cp / 0x40) % 0x40;
      assert cp == (cp / 0x40) * 0x40 + cp % 0x40;
    }
  }

  /** Decoding the front of `b` and re-encoding it gives back exactly the bytes consumed:
      there is only one well-formed encoding of each scalar value. */
  lemma EncodeScalarDecodeFirst(b: seq<Byte>)
    requires DecodeFirst(b).Some?
    ensures EncodeScalar(DecodeFirst(b).value.0) == b[..DecodeFirst(b).value.1]
  {
    var c := DecodeFirst(b).value.0;
    var cp := c as int;
    if b[0] < 0x80 {
    } else if b[0] <= 0xDF {
      var p0, p1 := b[0] as int - 0xC0, b[1] as int - 0x80;
      assert cp == p0 * 0x40 + p1;
      Split(p0, p1, 0x40);
      assert EncodeScalar(c) == [b[0], b[1]];
    } else if b[0] <= 0xEF {
      var p0, p1, p2 := b[0] as int - 0xE0, b[1] as int - 0x80, b[2] as int - 0x80;
      assert cp == (p0 * 0x40 + p1) * 0x40 + p2;
      Split(p0 * 0x40 + p1, p2, 0x40);
      Split(p0, p1, 0x40);
      Split(p0, p1 * 0x40 + p2, 0x1000);
      assert EncodeScalar(c) == [b[0], b[1], b[2]];
    } else {
      var p0, p1, p2, p3 := b[0] as int - 0xF0, b[1] as int - 0x80, b[2] as int - 0x80, b[3] as int - 0x80;
      assert cp == ((p0 * 0x40 + p1) * 0x40 + p2) * 0x40 + p3;
      Split((p0 * 0x40 + p1) * 0x40 + p2, p3, 0x40);
      Split(p0 * 0x40 + p1, p2, 0x40);
      Split(p0, p1, 0x40);
      Split(p0 * 0x40 + p1, p2 * 0x40 + p3, 0x1000);
      Split(p0, (p1 * 0x40 + p2) * 0x40 + p3, 0x40000);
      assert EncodeScalar(c) == [b[0], b[1], b[2], b[3]];
    }
  }

  /** Quotient and remainder of `q * d + r` for the three radices UTF-8 uses. */
  lemma Split(q: int, r: int, d: int)
    requires d == 0x40 || d == 0x1000 || d == 0x40000
    requires 0 <= r < d
    ensures (q * d + r) / d == q && (q * d + r) % d == r
  {
  }

  lemma {:induction false} EncodeAppend(a: string, b: string)
    ensures Encode(a + b) == Encode(a) + Encode(b)
  {
    if a == [] {
      assert a + b == b;
    } else {
      assert (a + b)[1..] == a[1..] + b;
      EncodeAppend(a[1..], b);
    }
  }

  /** Round trip from text: every string's encoding is valid and decodes back to it. */
  lemma {:induction false} DecodeEncode(s: string)
    ensures Decode(Encode(s)) == Some(s)
  {
    if s != [] {
      var e := EncodeScalar(s[0]);
      DecodeFirstEncodeScalar(s[0], Encode(s[1..]));
      assert (e + Encode(s[1..]))[|e|..] == Encode(s[1..]);
      DecodeEncode(s[1..]);
      assert [s[0]] + s[1..] == s;
    }
  }

  /** The byte 0x7C occurs in the encoding of a scalar only when that scalar is `'|'`:
      every byte of a multi-byte form has its top bit set. */
  lemma PipeByteOnlyEncodesPipe(c: char)
    ensures PipeByte in EncodeScalar(c) <==> c == '|'
  {
  }

  /** The byte offset at which the first `'|'` of `s` starts in its encoding, if `s` has one. */
  function PipeOffset(s: string): Option<nat>
  {
    match IndexOf(s, '|')
    case None => None
    case Some(i) => Some(|Encode(s[..i])|)
  }

  /** Rust's `find('|')` returns a byte offset into the UTF-8 text; it lands exactly on the
      encoding of the first `'|'` character, so cutting bytes there and cutting characters
      at the first `'|'` give the same text. */
  lemma {:induction false} PipeByteIndex(s: string)
    ensures IndexOf(Encode(s), PipeByte) == PipeOffset(s)
  {
    if s != [] {
      PipeByteOnlyEncodesPipe(s[0]);
      if s[0] == '|' {
        assert EncodeScalar(s[0]) == [PipeByte];
        assert s[..0] == [];
      } else {
        PipeByteIndex(s[1..]);
        PipeByteIndexStep(s);
      }
    }
  }

  /** One step of the above: a leading character other than `'|'` shifts both answers by its width. */
  lemma PipeByteIndexStep(s: string)
    requires s != [] && s[0] != '|'
    requires IndexOf(Encode(s[1..]), PipeByte) == PipeOffset(s[1..])
    ensures IndexOf(Encode(s), PipeByte) == PipeOffset(s)
  {
    var e := EncodeScalar(s[0]);
    PipeByteOnlyEncodesPipe(s[0]);
    assert Encode(s) == e + Encode(s[1..]);
    IndexOfAfter(e, Encode(s[1..]), PipeByte);
    PipeOffsetStep(s);
  }

  lemma PipeOffsetStep(s: string)
    requires s != [] && s[0] != '|'
    ensures PipeOffset(s) == Shift(PipeOffset(s[1..]), |EncodeScalar(s[0])|)
  {
    if IndexOf(s[1..], '|').Some? {
      var j := IndexOf(s[1..], '|').value;
      assert IndexOf(s, '|') == Some(j + 1);
      var t := s[..j + 1];
      assert t[0] == s[0] && t[1..] == s[1..][..j];
      assert Encode(t) == EncodeScalar(s[0]) + Encode(s[1..][..j]);
    }
  }

  /** The encoding of the text before the first `'|'` is the encoding of the whole text
      up to the byte offset of the first `'|'` byte. */
  lemma PipeCutBytes(s: string)
    requires '|' in s
    ensures PipeByte in Encode(s)
    ensures Encode(s[..IndexOf(s, '|').value]) == Encode(s)[..IndexOf(Encode(s), PipeByte).value]
  {
    var i := IndexOf(s, '|').value;
    var a, b := s[..i], s[i..];
    assert s == a + b;
    EncodeAppend(a, b);
    var ea, eb := Encode(a), Encode(b);
    assert Encode(s) == ea + eb;
    PipeByteIndex(s);
    assert PipeOffset(s) == Some(|ea|);
    assert (ea + eb)[..|ea|] == ea;
  }
}
