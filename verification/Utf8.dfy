/** Which bytes `read_to_string` accepts: UTF-8, by the table in section 4 of RFC 3629. */
module Utf8 {

  type Byte = b: int | 0 <= b < 256

  type Bytes = seq<Byte>

  predicate IsTail(b: Byte) {
    0x80 <= b <= 0xBF
  }

  predicate TailsAt(s: Bytes, from: nat, end: nat) {
    end <= |s| && forall i :: from <= i < end ==> IsTail(s[i])
  }

  /** The bytes that may follow a first byte of a longer character. */
  predicate SecondOk(first: Byte, second: Byte) {
    match first
    case 0xE0 => 0xA0 <= second <= 0xBF
    case 0xED => 0x80 <= second <= 0x9F
    case 0xF0 => 0x90 <= second <= 0xBF
    case 0xF4 => 0x80 <= second <= 0x8F
    case _ => IsTail(second)
  }

  /** How many bytes the first byte announces; zero when it starts no character. */
  function Announced(first: Byte): nat {
    if first <= 0x7F then 1
    else if 0xC2 <= first <= 0xDF then 2
    else if 0xE0 <= first <= 0xEF then 3
    else if 0xF0 <= first <= 0xF4 then 4
    else 0
  }

  /** The length of the character at the front; zero when there is none. */
  function CharLength(s: Bytes): (n: nat)
    ensures n <= |s|
  {
    if s == [] then 0
    else
      var n := Announced(s[0]);
      if n <= |s| && (2 <= n ==> SecondOk(s[0], s[1]) && TailsAt(s, 1, n)) then n else 0
  }

  predicate IsText(s: Bytes)
    decreases |s|
  {
    s == [] || (0 < CharLength(s) && IsText(s[CharLength(s)..]))
  }

  lemma CharLengthAppend(a: Bytes, b: Bytes)
    requires 0 < CharLength(a)
    ensures CharLength(a + b) == CharLength(a)
  {
    assert forall i :: 0 <= i < |a| ==> (a + b)[i] == a[i];
  }

  lemma {:induction false} TextAppend(a: Bytes, b: Bytes)
    requires IsText(a) && IsText(b)
    ensures IsText(a + b)
    decreases |a|
  {
    if a == [] {
      assert a + b == b;
    } else {
      var n := CharLength(a);
      CharLengthAppend(a, b);
      TextAppend(a[n..], b);
      assert (a + b)[n..] == a[n..] + b;
    }
  }

  predicate IsAscii(s: Bytes) {
    forall i :: 0 <= i < |s| ==> s[i] <= 0x7F
  }

  lemma {:induction false} AsciiIsText(s: Bytes)
    requires IsAscii(s)
    ensures IsText(s)
    decreases |s|
  {
    if s != [] {
      AsciiIsText(s[1..]);
    }
  }

  // ----- text is what encodes scalar values -----

  /** A Unicode code point that is not a surrogate. */
  type Scalar = v: int | 0 <= v < 0xD800 || 0xE000 <= v < 0x11_0000

  /** The last six bits, and the rest. */
  function Low(v: nat): (r: nat)
    ensures r < 0x40
  {
    v % 0x40
  }

  function High(v: nat): (r: nat)
    ensures v == 0x40 * r + Low(v)
  {
    v / 0x40
  }

  /** The byte that carries the last six bits. */
  function Tail(v: nat): (b: Byte)
    ensures IsTail(b)
  {
    0x80 + Low(v)
  }

  /** The UTF-8 encoding of one scalar value. */
  function Encode(v: Scalar): (s: Bytes)
    ensures 1 <= |s| <= 4
  {
    if v < 0x80 then
      var only: Byte := v;
      [only]
    else if v < 0x800 then
      var first: Byte := 0xC0 + High(v);
      [first, Tail(v)]
    else if v < 0x1_0000 then
      var first: Byte := 0xE0 + High(High(v));
      [first, Tail(High(v)), Tail(v)]
    else
      var first: Byte := 0xF0 + High(High(High(v)));
      [first, Tail(High(High(v))), Tail(High(v)), Tail(v)]
  }

  function EncodeAll(vs: seq<Scalar>): Bytes {
    if vs == [] then [] else Encode(vs[0]) + EncodeAll(vs[1..])
  }

  lemma EncodedIsChar(v: Scalar)
    ensures CharLength(Encode(v)) == |Encode(v)|
  {
    hide Low, High;
    var s := Encode(v);
    assert TailsAt(s, 1, |s|);
    if 0x800 <= v {
      assert SecondOk(s[0], s[1]);
    }
  }

  /** Putting six bits behind a number. */
  lemma Joined(v: nat, high: nat, low: nat)
    requires v == 0x40 * high + low && low < 0x40
    ensures High(v) == high && Low(v) == low
  {
  }

  lemma TwoBytes(a: Byte, b: Byte) returns (v: Scalar)
    requires 0xC2 <= a <= 0xDF && IsTail(b)
    ensures Encode(v) == [a, b]
  {
    hide Low, High;
    var high: int, low: int := a - 0xC0 as int, b - 0x80 as int;
    v := 0x40 * high + low;
    Joined(v, high, low);
  }

  lemma ThreeBytes(a: Byte, b: Byte, c: Byte) returns (v: Scalar)
    requires 0xE0 <= a <= 0xEF && IsTail(b) && IsTail(c) && SecondOk(a, b)
    ensures Encode(v) == [a, b, c]
  {
    hide Low, High;
    var top: int, middle: int, low: int := a - 0xE0 as int, b - 0x80 as int, c - 0x80 as int;
    var high := 0x40 * top + middle;
    var w := 0x40 * high + low;
    assert a == 0xE0 ==> 0x20 <= middle;
    assert a == 0xED ==> middle < 0x20;
    v := w;
    Joined(v, high, low);
    Joined(high, top, middle);
  }

  lemma FourBytes(a: Byte, b: Byte, c: Byte, d: Byte) returns (v: Scalar)
    requires 0xF0 <= a <= 0xF4 && IsTail(b) && IsTail(c) && IsTail(d) && SecondOk(a, b)
    ensures Encode(v) == [a, b, c, d]
  {
    hide Low, High;
    var top: int, second: int, third: int, low: int := a - 0xF0 as int, b - 0x80 as int, c - 0x80 as int, d - 0x80 as int;
    var higher := 0x40 * top + second;
    var high := 0x40 * higher + third;
    v := 0x40 * high + low;
    Joined(v, high, low);
    Joined(high, higher, third);
    Joined(higher, top, second);
  }

  /** The scalar value of a well-formed character. */
  lemma CharIsEncoded(s: Bytes) returns (v: Scalar)
    requires 0 < CharLength(s) == |s|
    ensures Encode(v) == s
  {
    hide Low, High;
    if |s| == 1 {
      v := s[0];
    } else if |s| == 2 {
      v := TwoBytes(s[0], s[1]);
    } else if |s| == 3 {
      v := ThreeBytes(s[0], s[1], s[2]);
    } else {
      v := FourBytes(s[0], s[1], s[2], s[3]);
    }
  }

  lemma CharLengthTake(s: Bytes)
    requires 0 < CharLength(s)
    ensures CharLength(s[..CharLength(s)]) == CharLength(s)
  {
    var n := CharLength(s);
    assert forall i :: 0 <= i < n ==> s[..n][i] == s[i];
  }

  lemma {:induction false} EncodedIsText(vs: seq<Scalar>)
    ensures IsText(EncodeAll(vs))
    decreases |vs|
  {
    hide CharLength, Encode;
    if vs != [] {
      var first, rest := Encode(vs[0]), EncodeAll(vs[1..]);
      EncodedIsText(vs[1..]);
      EncodedIsChar(vs[0]);
      CharLengthAppend(first, rest);
      assert (first + rest)[|first|..] == rest;
    }
  }

  lemma {:induction false} TextIsEncoded(s: Bytes) returns (vs: seq<Scalar>)
    requires IsText(s)
    ensures EncodeAll(vs) == s
    decreases |s|
  {
    hide CharLength, Encode;
    if s == [] {
      vs := [];
    } else {
      var n := CharLength(s);
      CharLengthTake(s);
      var v := CharIsEncoded(s[..n]);
      var rest := TextIsEncoded(s[n..]);
      vs := [v] + rest;
      assert vs[1..] == rest && s == s[..n] + s[n..];
    }
  }

  /** The bytes accepted are exactly the encodings of sequences of scalar values. */
  lemma TextIff(s: Bytes)
    ensures IsText(s) <==> exists vs: seq<Scalar> :: EncodeAll(vs) == s
  {
    if IsText(s) {
      var vs := TextIsEncoded(s);
    }
    if vs: seq<Scalar> :| EncodeAll(vs) == s {
      EncodedIsText(vs);
    }
  }
}
