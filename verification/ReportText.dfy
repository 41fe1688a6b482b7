/**
  decode_quartus_report of scripts/quartus_report_text.py: strict UTF-8 (section 4 of RFC 3629),
  restarted after each invalid byte 0xB0, which stands for the degree sign.  Text is a sequence of
  code points.
*/
module Utf8 {
  import opened Outcomes

  type Byte = x: int | 0 <= x <= 0xFF

  const DEGREE := 0xB0

  datatype Lead = Lead(codePoint: int, length: nat)

  /** Unicode scalar values. */
  predicate IsScalar(c: int) { 0 <= c <= 0xD7FF || 0xE000 <= c <= 0x10FFFF }

  predicate Tail(b: Byte) { 0x80 <= b <= 0xBF }

  predicate TailsAt(data: seq<Byte>, n: nat) {
    n <= |data| && forall i :: 1 <= i < n ==> Tail(data[i])
  }

  /** Length announced by a lead byte; 0 for a byte that cannot start a sequence. */
  function Announced(b: Byte): nat {
    if b <= 0x7F then 1
    else if 0xC2 <= b <= 0xDF then 2
    else if 0xE0 <= b <= 0xEF then 3
    else if 0xF0 <= b <= 0xF4 then 4
    else 0
  }

  /** The second byte excludes overlong forms, surrogates and values above 0x10FFFF. */
  predicate SecondOk(first: Byte, second: Byte) {
    && (first == 0xE0 ==> 0xA0 <= second)
    && (first == 0xED ==> second <= 0x9F)
    && (first == 0xF0 ==> 0x90 <= second)
    && (first == 0xF4 ==> second <= 0x8F)
  }

  /** Four six-bit digits, most significant first. */
  function Number(a: int, b: int, c: int, d: int): int { a * 262144 + b * 4096 + c * 64 + d }

  /** The well-formed sequence at the start of data, if there is one. */
  function FirstSequence(data: seq<Byte>): Option<Lead> {
    if data == [] then None
    else
      var n := Announced(data[0]);
      if n == 0 || !TailsAt(data, n) || (n > 1 && !SecondOk(data[0], data[1])) then None
      else if n == 1 then Some(Lead(data[0], 1))
      else if n == 2 then Some(Lead(Number(0, 0, data[0] - 0xC0, data[1] - 0x80), 2))
      else if n == 3 then Some(Lead(Number(0, data[0] - 0xE0, data[1] - 0x80, data[2] - 0x80), 3))
      else Some(Lead(Number(data[0] - 0xF0, data[1] - 0x80, data[2] - 0x80, data[3] - 0x80), 4))
  }

  predicate Between(low: int, b: Byte, high: int) { low <= b <= high }

  /** The syntax of section 4 of RFC 3629, row by row. */
  ghost predicate Syntax(data: seq<Byte>) {
    || (|data| >= 1 && Between(0x00, data[0], 0x7F))
    || (|data| >= 2 && Between(0xC2, data[0], 0xDF) && Between(0x80, data[1], 0xBF))
    || (|data| >= 3 && Between(0x80, data[2], 0xBF) &&
        (|| (data[0] == 0xE0 && Between(0xA0, data[1], 0xBF))
         || (Between(0xE1, data[0], 0xEC) && Between(0x80, data[1], 0xBF))
         || (data[0] == 0xED && Between(0x80, data[1], 0x9F))
         || (Between(0xEE, data[0], 0xEF) && Between(0x80, data[1], 0xBF))))
    || (|data| >= 4 && Between(0x80, data[2], 0xBF) && Between(0x80, data[3], 0xBF) &&
        (|| (data[0] == 0xF0 && Between(0x90, data[1], 0xBF))
         || (Between(0xF1, data[0], 0xF3) && Between(0x80, data[1], 0xBF))
         || (data[0] == 0xF4 && Between(0x80, data[1], 0x8F))))
  }

  /** A sequence is read exactly where the syntax has one. */
  lemma FirstIffSyntax(data: seq<Byte>)
    ensures FirstSequence(data).Some? <==> Syntax(data)
  {
    if data != [] {
      var n := Announced(data[0]);
      assert n == 1 ==> TailsAt(data, 1);
      assert n == 2 ==> (TailsAt(data, 2) <==> 2 <= |data| && Tail(data[1]));
      assert n == 3 ==> (TailsAt(data, 3) <==> 3 <= |data| && Tail(data[1]) && Tail(data[2]));
      assert n == 4 ==> (TailsAt(data, 4) <==> 4 <= |data| && Tail(data[1]) && Tail(data[2]) && Tail(data[3]));
    }
  }

  /** The encoding of a scalar value. */
  function Encode(c: int): (bytes: seq<Byte>)
    requires IsScalar(c)
    ensures 1 <= |bytes| <= 4
  {
    if c <= 0x7F then [c]
    else if c <= 0x7FF then [0xC0 + c / 64, 0x80 + c % 64]
    else if c <= 0xFFFF then [0xE0 + c / 4096, 0x80 + c / 64 % 64, 0x80 + c % 64]
    else [0xF0 + c / 262144, 0x80 + c / 4096 % 64, 0x80 + c / 64 % 64, 0x80 + c % 64]
  }

  /** Six-bit digits of a number. */
  lemma Digits(a: int, b: int, c: int, d: int)
    requires 0 <= b < 64 && 0 <= c < 64 && 0 <= d < 64
    ensures var n := Number(a, b, c, d);
            n / 262144 == a && n / 4096 % 64 == b && n / 64 % 64 == c && n % 64 == d
  {
    var n := Number(a, b, c, d);
    assert n / 64 == a * 4096 + b * 64 + c;
    assert n / 4096 == a * 64 + b;
    assert n / 262144 == a;
  }

  lemma FromDigits(n: int)
    ensures n == Number(n / 262144, n / 4096 % 64, n / 64 % 64, n % 64)
  {
    var a, b := n / 64, n / 4096;
    assert b == a / 64 && n / 262144 == b / 64;
    assert n == a * 64 + n % 64 && a == b * 64 + a % 64 && b == b / 64 * 64 + b % 64;
  }

  lemma TwoByteFirst(c: int, data: seq<Byte>)
    requires 0x7F < c <= 0x7FF && |data| >= 2 && data[0] == 0xC0 + c / 64 && data[1] == 0x80 + c % 64
    ensures FirstSequence(data) == Some(Lead(c, 2))
  {
    FromDigits(c);
    assert c / 4096 == 0 && c / 262144 == 0 && c / 64 < 64;
  }

  lemma ThreeByteFirst(c: int, data: seq<Byte>)
    requires 0x7FF < c <= 0xFFFF && IsScalar(c) && |data| >= 3
    requires data[0] == 0xE0 + c / 4096 && data[1] == 0x80 + c / 64 % 64 && data[2] == 0x80 + c % 64
    ensures FirstSequence(data) == Some(Lead(c, 3))
  {
    FromDigits(c);
    ThreeByteSecond(c);
    assert c / 262144 == 0 && c / 4096 < 64;
  }

  lemma ThreeByteSecond(c: int)
    requires IsScalar(c) && 0x7FF < c <= 0xFFFF
    ensures SecondOk(0xE0 + c / 4096, 0x80 + c / 64 % 64)
  {}

  lemma FourByteFirst(c: int, data: seq<Byte>)
    requires 0xFFFF < c && IsScalar(c) && |data| >= 4
    requires data[0] == 0xF0 + c / 262144 && data[1] == 0x80 + c / 4096 % 64
    requires data[2] == 0x80 + c / 64 % 64 && data[3] == 0x80 + c % 64
    ensures FirstSequence(data) == Some(Lead(c, 4))
  {
    FromDigits(c);
    FourByteSecond(c);
  }

  lemma FourByteSecond(c: int)
    requires IsScalar(c) && 0xFFFF < c
    ensures c / 262144 <= 4 && SecondOk(0xF0 + c / 262144, 0x80 + c / 4096 % 64)
  {}

  lemma EncodeIsFirst(c: int, rest: seq<Byte>)
    requires IsScalar(c)
    ensures FirstSequence(Encode(c) + rest) == Some(Lead(c, |Encode(c)|))
  {
    var bytes, data := Encode(c), Encode(c) + rest;
    assert forall i :: 0 <= i < |bytes| ==> data[i] == bytes[i];
    if 0x7F < c <= 0x7FF {
      TwoByteFirst(c, data);
    } else if 0x7FF < c <= 0xFFFF {
      ThreeByteFirst(c, data);
    } else if 0xFFFF < c {
      FourByteFirst(c, data);
    }
  }

  lemma TwoByteEncode(a: Byte, b: Byte)
    requires 0xC2 <= a <= 0xDF && Tail(b)
    ensures var c := Number(0, 0, a - 0xC0, b - 0x80); 0x7F < c <= 0x7FF && Encode(c) == [a, b]
  {
    Digits(0, 0, a - 0xC0, b - 0x80);
  }

  lemma ThreeByteEncode(a: Byte, b: Byte, d: Byte)
    requires 0xE0 <= a <= 0xEF && Tail(b) && Tail(d) && SecondOk(a, b)
    ensures var c := Number(0, a - 0xE0, b - 0x80, d - 0x80);
            0x7FF < c <= 0xFFFF && IsScalar(c) && Encode(c) == [a, b, d]
  {
    var c := Number(0, a - 0xE0, b - 0x80, d - 0x80);
    Digits(0, a - 0xE0, b - 0x80, d - 0x80);
    assert c / 4096 == a - 0xE0;
  }

  lemma FourByteEncode(a: Byte, b: Byte, d: Byte, e: Byte)
    requires 0xF0 <= a <= 0xF4 && Tail(b) && Tail(d) && Tail(e) && SecondOk(a, b)
    ensures var c := Number(a - 0xF0, b - 0x80, d - 0x80, e - 0x80);
            0xFFFF < c && IsScalar(c) && Encode(c) == [a, b, d, e]
  {
    Digits(a - 0xF0, b - 0x80, d - 0x80, e - 0x80);
  }

  lemma FirstIsEncode(data: seq<Byte>)
    requires FirstSequence(data).Some?
    ensures var lead := FirstSequence(data).value;
            lead.length <= |data| && IsScalar(lead.codePoint) && Encode(lead.codePoint) == data[..lead.length]
  {
    var n := Announced(data[0]);
    assert TailsAt(data, n);
    if n == 1 {
      assert data[..1] == [data[0]];
    } else if n == 2 {
      TwoByteEncode(data[0], data[1]);
      assert data[..2] == [data[0], data[1]];
    } else if n == 3 {
      ThreeByteEncode(data[0], data[1], data[2]);
      assert data[..3] == [data[0], data[1], data[2]];
    } else {
      FourByteEncode(data[0], data[1], data[2], data[3]);
      assert data[..4] == [data[0], data[1], data[2], data[3]];
    }
  }

  // ------------------------------------------------------------------------------------------
  // bytes.decode("utf-8")
  // ------------------------------------------------------------------------------------------

  /** Text decoded before the first invalid byte, and where that byte is. */
  datatype Decoded = Decoded(text: seq<int>, error: Option<nat>)

  function StrictDecode(data: seq<Byte>): (d: Decoded)
    ensures d.error.Some? ==> d.error.value < |data|
  {
    if data == [] then Decoded([], None)
    else
      var first := FirstSequence(data);
      if first.None? then Decoded([], Some(0))
      else
        var rest := StrictDecode(data[first.value.length..]);
        Decoded([first.value.codePoint] + rest.text,
                if rest.error.None? then None else Some(first.value.length + rest.error.value))
  }

  lemma FirstOfPrefix(data: seq<Byte>, n: nat)
    requires FirstSequence(data).Some? && FirstSequence(data).value.length <= n <= |data|
    ensures FirstSequence(data[..n]) == FirstSequence(data)
  {}

  /** The part before the error decodes cleanly to the text already decoded. */
  lemma {:induction false} PrefixDecodes(data: seq<Byte>)
    requires StrictDecode(data).error.Some?
    ensures StrictDecode(data[..StrictDecode(data).error.value]) == Decoded(StrictDecode(data).text, None)
    ensures FirstSequence(data[StrictDecode(data).error.value..]).None?
    decreases |data|
  {
    var first := FirstSequence(data);
    var e := StrictDecode(data).error.value;
    if first.Some? {
      var n := first.value.length;
      PrefixDecodes(data[n..]);
      FirstOfPrefix(data, e);
      assert data[..e][n..] == data[n..][..e - n];
      assert data[e..] == data[n..][e - n..];
    } else {
      assert data[0..] == data;
    }
  }
}

module ReportText {
  import opened Outcomes
  import opened Utf8

  /** Reference: one left-to-right pass that takes a well-formed sequence or the byte 0xB0 at each step. */
  function Lenient(data: seq<Byte>): Result<seq<int>, nat> {
    if data == [] then Ok([])
    else
      var first := FirstSequence(data);
      if first.Some? then Cons(first.value.codePoint, first.value.length, Lenient(data[first.value.length..]))
      else if data[0] == DEGREE then Cons(DEGREE, 1, Lenient(data[1..]))
      else Err(0)
  }

  /** Prepend one code point; an error position moves by the bytes it took. */
  function Cons(c: int, length: nat, r: Result<seq<int>, nat>): Result<seq<int>, nat> {
    if r.Ok? then Ok([c] + r.value) else Err(length + r.error)
  }

  function Prepend(text: seq<int>, length: nat, r: Result<seq<int>, nat>): Result<seq<int>, nat> {
    if r.Ok? then Ok(text + r.value) else Err(length + r.error)
  }

  lemma PrependCons(c: int, m: nat, text: seq<int>, n: nat, r: Result<seq<int>, nat>)
    ensures Cons(c, m, Prepend(text, n, r)) == Prepend([c] + text, m + n, r)
  {
    if r.Ok? { assert [c] + (text + r.value) == ([c] + text) + r.value; }
  }

  lemma PrependNothing(r: Result<seq<int>, nat>)
    ensures Prepend([], 0, r) == r
  {
    if r.Ok? { assert [] + r.value == r.value; }
  }

  lemma PrependTwice(a: seq<int>, m: nat, b: seq<int>, n: nat, r: Result<seq<int>, nat>)
    ensures Prepend(a, m, Prepend(b, n, r)) == Prepend(a + b, m + n, r)
  {
    if r.Ok? { assert a + (b + r.value) == (a + b) + r.value; }
  }

  /** Strict decoding is a prefix of the single pass. */
  lemma {:induction false} StrictThenLenient(data: seq<Byte>)
    ensures var d := StrictDecode(data);
            Lenient(data) == if d.error.None? then Ok(d.text)
                             else Prepend(d.text, d.error.value, Lenient(data[d.error.value..]))
    decreases |data|
  {
    if data != [] {
      var first := FirstSequence(data);
      if first.Some? {
        var n := first.value.length;
        var tail := data[n..];
        StrictThenLenient(tail);
        var d := StrictDecode(tail);
        if d.error.Some? {
          assert data[n + d.error.value..] == tail[d.error.value..];
          PrependCons(first.value.codePoint, n, d.text, d.error.value, Lenient(tail[d.error.value..]));
        }
      } else {
        assert data[0..] == data;
        PrependNothing(Lenient(data));
      }
    }
  }

  /** Step over a recovered byte. */
  lemma LenientDegree(data: seq<Byte>)
    requires data != [] && FirstSequence(data).None?
    ensures Lenient(data) == if data[0] == DEGREE then Prepend([DEGREE], 1, Lenient(data[1..])) else Err(0)
  {}

  /** One restart: the text before the invalid byte, then the byte itself. */
  lemma RestartAt(rest: seq<Byte>, e: nat)
    requires e < |rest| && StrictDecode(rest).error == Some(e)
    ensures StrictDecode(rest[..e]) == Decoded(StrictDecode(rest).text, None)
    ensures Lenient(rest) == Prepend(StrictDecode(rest).text, e,
                               if rest[e] == DEGREE then Prepend([DEGREE], 1, Lenient(rest[e + 1..])) else Err(0))
  {
    StrictThenLenient(rest);
    PrefixDecodes(rest);
    LenientDegree(rest[e..]);
    assert rest[e..][1..] == rest[e + 1..];
  }

  lemma Compose(decoded: seq<int>, offset: nat, text: seq<int>, e: nat, recovered: bool, tail: Result<seq<int>, nat>)
    ensures Prepend(decoded, offset, Prepend(text, e, if recovered then Prepend([DEGREE], 1, tail) else Err(0))) ==
            if recovered then Prepend(decoded + text + [DEGREE], offset + e + 1, tail) else Err(offset + e)
  {
    PrependTwice(decoded, offset, text, e, if recovered then Prepend([DEGREE], 1, tail) else Err(0));
    PrependTwice(decoded + text, offset + e, [DEGREE], 1, tail);
  }

  lemma SliceAt(data: seq<Byte>, offset: nat, e: nat)
    requires offset + e < |data|
    ensures data[offset..][..e] == data[offset..offset + e] && data[offset..][e] == data[offset + e]
    ensures data[offset..][e + 1..] == data[offset + e + 1..]
  {}

  /** One pass through the loop body, after a failed attempt at `e`. */
  lemma Restart(data: seq<Byte>, offset: nat, decoded: seq<int>, text: seq<int>, e: nat)
    requires offset + e < |data| && StrictDecode(data[offset..]) == Decoded(text, Some(e))
    ensures StrictDecode(data[offset..offset + e]) == Decoded(text, None)
    ensures Prepend(decoded, offset, Lenient(data[offset..])) ==
            if data[offset + e] == DEGREE
            then Prepend(decoded + text + [DEGREE], offset + e + 1, Lenient(data[offset + e + 1..]))
            else Err(offset + e)
  {
    RestartAt(data[offset..], e);
    SliceAt(data, offset, e);
    Compose(decoded, offset, text, e, data[offset + e] == DEGREE, Lenient(data[offset + e + 1..]));
  }

  /** decode_quartus_report: the restart loop terminates and is the single pass. */
  method DecodeReport(data: seq<Byte>) returns (r: Result<seq<int>, nat>)
    ensures r == Lenient(data)
  {
    var decoded: seq<int> := [];
    var offset: nat := 0;
    assert data[0..] == data;
    ghost var expected := Lenient(data);
    PrependNothing(expected);
    while true
      invariant offset <= |data|
      invariant expected == Prepend(decoded, offset, Lenient(data[offset..]))
      decreases |data| - offset
    {
      var attempt := StrictDecode(data[offset..]);
      if attempt.error.None? {
        StrictThenLenient(data[offset..]);
        return Ok(decoded + attempt.text);
      }
      var invalid := offset + attempt.error.value;
      Restart(data, offset, decoded, attempt.text, attempt.error.value);
      if data[invalid] != DEGREE {
        return Err(invalid);
      }
      var valid := StrictDecode(data[offset..invalid]);
      decoded := decoded + valid.text + [DEGREE];
      offset := invalid + 1;
    }
  }

  // ------------------------------------------------------------------------------------------
  // What the single pass accepts
  // ------------------------------------------------------------------------------------------

  /** A report is a sequence of encoded scalar values and legacy degree bytes. */
  datatype Unit = Scalar(c: int) | LegacyDegree

  predicate ValidUnit(u: Unit) { u.Scalar? ==> IsScalar(u.c) }

  predicate ValidUnits(units: seq<Unit>) { forall i :: 0 <= i < |units| ==> ValidUnit(units[i]) }

  function UnitBytes(u: Unit): seq<Byte>
    requires ValidUnit(u)
  {
    if u.Scalar? then Encode(u.c) else [0xB0]
  }

  function Bytes(units: seq<Unit>): seq<Byte>
    requires ValidUnits(units)
  {
    if units == [] then [] else UnitBytes(units[0]) + Bytes(units[1..])
  }

  function Characters(units: seq<Unit>): seq<int> {
    if units == [] then [] else [if units[0].Scalar? then units[0].c else 0xB0] + Characters(units[1..])
  }

  /** Every such byte sequence is decoded to its characters, so the reading is unambiguous. */
  lemma {:induction false} LenientAccepts(units: seq<Unit>)
    requires ValidUnits(units)
    ensures Lenient(Bytes(units)) == Ok(Characters(units))
  {
    if units != [] {
      var rest := Bytes(units[1..]);
      LenientAccepts(units[1..]);
      var data := UnitBytes(units[0]) + rest;
      if units[0].Scalar? {
        EncodeIsFirst(units[0].c, rest);
        assert data[|Encode(units[0].c)|..] == rest;
      } else {
        assert data[1..] == rest;
      }
    }
  }

  /** Nothing else is accepted. */
  lemma {:induction false} LenientOnlyAccepts(data: seq<Byte>) returns (units: seq<Unit>)
    requires Lenient(data).Ok?
    ensures ValidUnits(units) && Bytes(units) == data && Characters(units) == Lenient(data).value
    decreases |data|
  {
    if data == [] {
      units := [];
    } else {
      var first := FirstSequence(data);
      var n := if first.Some? then first.value.length else 1;
      if first.Some? { FirstIsEncode(data); }
      var tail := LenientOnlyAccepts(data[n..]);
      units := [if first.Some? then Scalar(first.value.codePoint) else LegacyDegree] + tail;
      assert units[1..] == tail;
      assert data == data[..n] + data[n..];
    }
  }

  /** A failure points at a malformed sequence that does not start with 0xB0, after an acceptable prefix. */
  lemma {:induction false} LenientFails(data: seq<Byte>)
    requires Lenient(data).Err?
    ensures var e := Lenient(data).error;
            e < |data| && Lenient(data[..e]).Ok? && FirstSequence(data[e..]).None? && data[e] != 0xB0
    decreases |data|
  {
    var first := FirstSequence(data);
    var e := Lenient(data).error;
    if first.None? && data[0] != DEGREE {
      assert data[0..] == data;
    } else {
      var n := if first.Some? then first.value.length else 1;
      LenientFails(data[n..]);
      assert data[e..] == data[n..][e - n..] && data[..e][n..] == data[n..][..e - n];
      if first.Some? { FirstOfPrefix(data, e); } else { DegreeStaysInvalid(data[..e]); }
    }
  }

  lemma DegreeStaysInvalid(data: seq<Byte>)
    requires data != [] && data[0] == DEGREE
    ensures FirstSequence(data).None?
  {}

  /** On valid UTF-8 the result is plain decoding. */
  lemma PlainOnValidInput(data: seq<Byte>)
    requires StrictDecode(data).error.None?
    ensures Lenient(data) == Ok(StrictDecode(data).text)
  {
    StrictThenLenient(data);
  }
}
