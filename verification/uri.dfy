/**
  `encodeURIComponent`: the UTF-16 string is read as code points, each code point
  outside the unreserved set is written as its UTF-8 octets (section 3 of RFC 3629),
  and each octet as `%` followed by two upper-case hexadecimal digits (section 2.1
  of RFC 3986).  A lone surrogate makes the JavaScript function throw; here the
  encoder requires a well-formed string instead.

  The partner of the encoder is a decoder in the manner of `decodeURIComponent`;
  `DecodeEncode` proves that it inverts the encoder on every well-formed string.
 */
module Uri {
  import opened Js

  type Octet = x: int | 0 <= x < 0x100

  /** A Unicode scalar value: a code point that is not a surrogate. */
  type Scalar = x: int | 0 <= x < 0x11_0000 && !(0xD800 <= x < 0xE000)

  const Percent: Unit := 0x25

  predicate IsHigh(u: Unit) { 0xD800 <= u < 0xDC00 }
  predicate IsLow(u: Unit) { 0xDC00 <= u < 0xE000 }

  /** No lone surrogate: each high surrogate is directly followed by a low one, and no low one stands alone. */
  predicate WellFormed(s: JsString)
    decreases |s|
  {
    if s == [] then true
    else if IsHigh(s[0]) then |s| >= 2 && IsLow(s[1]) && WellFormed(s[2..])
    else !IsLow(s[0]) && WellFormed(s[1..])
  }

  /** The code point a surrogate pair stands for. */
  function Pair(hi: Unit, lo: Unit): (cp: Scalar)
    requires IsHigh(hi) && IsLow(lo)
    ensures 0x1_0000 <= cp
  {
    (hi - 0xD800) * 0x400 + (lo - 0xDC00) + 0x1_0000
  }

  /** The UTF-16 code units of one scalar value. */
  function Utf16(cp: Scalar): (r: JsString)
    ensures |r| == (if cp < 0x1_0000 then 1 else 2)
  {
    if cp < 0x1_0000 then [cp]
    else [0xD800 + (cp - 0x1_0000) / 0x400, 0xDC00 + (cp - 0x1_0000) % 0x400]
  }

  lemma Utf16Pair(hi: Unit, lo: Unit)
    requires IsHigh(hi) && IsLow(lo)
    ensures Utf16(Pair(hi, lo)) == [hi, lo]
  {
    var x := (hi - 0xD800) * 0x400 + (lo - 0xDC00);
    assert x / 0x400 == hi - 0xD800 && x % 0x400 == lo - 0xDC00;
  }

  /** The unreserved code units of `encodeURIComponent`: `A-Z a-z 0-9 - _ . ! ~ * ' ( )`. */
  predicate Unreserved(x: int) {
    || (0x41 <= x <= 0x5A) || (0x61 <= x <= 0x7A) || (0x30 <= x <= 0x39)
    || x == 0x2D || x == 0x5F || x == 0x2E || x == 0x21 || x == 0x7E
    || x == 0x2A || x == 0x27 || x == 0x28 || x == 0x29
  }

  /** UTF-8 encoding of one scalar value, section 3 of RFC 3629. */
  function Utf8(cp: Scalar): (r: seq<Octet>)
    ensures |r| == (if cp < 0x80 then 1 else if cp < 0x800 then 2 else if cp < 0x1_0000 then 3 else 4)
  {
    if cp < 0x80 then [cp]
    else if cp < 0x800 then [0xC0 + cp / 0x40, 0x80 + cp % 0x40]
    else if cp < 0x1_0000 then [0xE0 + cp / 0x1000, 0x80 + (cp / 0x40) % 0x40, 0x80 + cp % 0x40]
    else [0xF0 + cp / 0x4_0000, 0x80 + (cp / 0x1000) % 0x40, 0x80 + (cp / 0x40) % 0x40, 0x80 + cp % 0x40]
  }

  /** An upper-case hexadecimal digit. */
  function HexDigit(d: int): (u: Unit)
    requires 0 <= d < 16
  {
    if d < 10 then 0x30 + d else 0x41 + (d - 10)
  }

  /** `%XY` for one octet. */
  function PercentOctet(o: Octet): (r: JsString)
    ensures |r| == 3 && r[0] == Percent
  {
    [Percent, HexDigit(o / 16), HexDigit(o % 16)]
  }

  function PercentOctets(os: seq<Octet>): (r: JsString)
    ensures |r| == 3 * |os|
  {
    if os == [] then [] else PercentOctet(os[0]) + PercentOctets(os[1..])
  }

  /** The encoding of one scalar value: itself when unreserved, else its percent-encoded UTF-8 octets. */
  function EncodeScalar(cp: Scalar): (r: JsString)
    ensures |r| >= 1
  {
    if Unreserved(cp) then [cp] else PercentOctets(Utf8(cp))
  }

  /** `encodeURIComponent(s)`. */
  function Encode(s: JsString): JsString
    requires WellFormed(s)
    decreases |s|
  {
    if s == [] then []
    else if IsHigh(s[0]) then EncodeScalar(Pair(s[0], s[1])) + Encode(s[2..])
    else EncodeScalar(s[0]) + Encode(s[1..])
  }

  // ---------------------------------------------------------------------------
  // Concatenation
  // ---------------------------------------------------------------------------

  /** Joining two well-formed strings cannot create a lone surrogate. */
  lemma {:induction false} WellFormedAppend(a: JsString, b: JsString)
    requires WellFormed(a) && WellFormed(b)
    ensures WellFormed(a + b)
    decreases |a|
  {
    if a == [] {
      assert a + b == b;
    } else {
      var n := if IsHigh(a[0]) then 2 else 1;
      assert (a + b)[n..] == a[n..] + b;
      WellFormedAppend(a[n..], b);
    }
  }

  /** Encoding works piece by piece. */
  lemma {:induction false} EncodeAppend(a: JsString, b: JsString)
    requires WellFormed(a) && WellFormed(b)
    ensures WellFormed(a + b)
    ensures Encode(a + b) == Encode(a) + Encode(b)
    decreases |a|
  {
    WellFormedAppend(a, b);
    var ab := a + b;
    if a == [] {
      assert ab == b;
    } else {
      var n := if IsHigh(a[0]) then 2 else 1;
      var cp: Scalar := if IsHigh(a[0]) then Pair(a[0], a[1]) else a[0];
      assert ab[0] == a[0] && (n == 2 ==> ab[1] == a[1]);
      EncodeFront(a, n, cp);
      EncodeFront(ab, n, cp);
      DropAppend(a, b, n);
      EncodeAppend(a[n..], b);
      Associative(EncodeScalar(cp), Encode(a[n..]), Encode(b));
    }
  }

  /** The encoding of a non-empty string: that of its first scalar value, then that of the rest. */
  lemma EncodeFront(s: JsString, n: nat, cp: Scalar)
    requires WellFormed(s) && s != []
    requires n == (if IsHigh(s[0]) then 2 else 1)
    requires IsHigh(s[0]) ==> |s| >= 2 && IsLow(s[1]) && cp == Pair(s[0], s[1])
    requires !IsHigh(s[0]) ==> cp == s[0]
    ensures n <= |s| && WellFormed(s[n..])
    ensures Encode(s) == EncodeScalar(cp) + Encode(s[n..])
  {
  }

  // ---------------------------------------------------------------------------
  // Length
  // ---------------------------------------------------------------------------

  /** Number of code units that `encodeURIComponent` does not pass through unchanged. */
  function Escaped(s: JsString): (n: nat)
    ensures n <= |s|
  {
    if s == [] then 0 else (if Unreserved(s[0]) then 0 else 1) + Escaped(s[1..])
  }

  lemma EncodeScalarLength(cp: Scalar)
    ensures Unreserved(cp) ==> |EncodeScalar(cp)| == 1
    ensures !Unreserved(cp) && cp < 0x80 ==> |EncodeScalar(cp)| == 3
    ensures !Unreserved(cp) ==> 3 <= |EncodeScalar(cp)| <= 12
    ensures cp < 0x1_0000 ==> |EncodeScalar(cp)| <= 9
  {
  }

  /**
    Encoding never shortens: every code unit costs at least one character and
    every escaped one at least three, and no code unit costs more than nine.
   */
  lemma {:induction false} EncodeLength(s: JsString)
    requires WellFormed(s)
    ensures |s| + 2 * Escaped(s) <= |Encode(s)| <= 9 * |s|
    ensures (forall i | 0 <= i < |s| :: s[i] < 0x80) ==> |Encode(s)| == |s| + 2 * Escaped(s)
    decreases |s|
  {
    if s != [] {
      if IsHigh(s[0]) {
        EncodeLength(s[2..]);
        EncodeScalarLength(Pair(s[0], s[1]));
        assert Escaped(s) == 2 + Escaped(s[2..]) by {
          assert s[1..][1..] == s[2..];
        }
      } else {
        EncodeLength(s[1..]);
        EncodeScalarLength(s[0]);
      }
    }
  }

  /** A string of unreserved code units encodes to itself. */
  lemma {:induction false} EncodeUnreserved(s: JsString)
    requires forall i | 0 <= i < |s| :: Unreserved(s[i])
    ensures WellFormed(s)
    ensures Encode(s) == s
    decreases |s|
  {
    if s != [] {
      EncodeUnreserved(s[1..]);
      assert [s[0]] + s[1..] == s;
    }
  }

  /** The encoding of a well-formed string is at least as long as that of any well-formed piece of it. */
  lemma EncodeInfix(x: JsString, a: JsString, y: JsString)
    requires WellFormed(x) && WellFormed(a) && WellFormed(y)
    ensures WellFormed(x + a + y)
    ensures |Encode(a)| <= |Encode(x + a + y)|
  {
    EncodeAppend(x, a);
    EncodeAppend(x + a, y);
  }

  // ---------------------------------------------------------------------------
  // Decoding, the partner of the encoder
  // ---------------------------------------------------------------------------

  /** The value of a hexadecimal digit, either case. */
  function HexValue(u: Unit): Option<int> {
    if 0x30 <= u <= 0x39 then Some(u - 0x30)
    else if 0x41 <= u <= 0x46 then Some(u - 0x41 + 10)
    else if 0x61 <= u <= 0x66 then Some(u - 0x61 + 10)
    else None
  }

  /** The octet written as `%XY` at position `i` of `e`, if there is one. */
  function OctetAt(e: JsString, i: nat): (r: Option<Octet>)
  {
    if i + 3 > |e| || e[i] != Percent then None
    else match (HexValue(e[i + 1]), HexValue(e[i + 2]))
      case (Some(h), Some(l)) => Some(h * 16 + l)
      case _ => None
  }

  /** A UTF-8 continuation octet `%XY` at position `i`: its low six bits. */
  function ContinuationAt(e: JsString, i: nat): (r: Option<int>)
    ensures r.Some? ==> 0 <= r.value < 0x40
  {
    match OctetAt(e, i)
    case Some(o) => if 0x80 <= o < 0xC0 then Some(o - 0x80) else None
    case None => None
  }

  /** Decode the first character of `e`: the code units it stands for and the number of units read. */
  function DecodeFirst(e: JsString): (r: Option<(JsString, nat)>)
    requires e != []
    ensures r.Some? ==> 1 <= r.value.1 <= |e|
  {
    if e[0] != Percent then Some(([e[0]], 1))
    else match OctetAt(e, 0)
      case None => None
      case Some(b) =>
        if b < 0x80 then Some(([b], 3))
        else if b < 0xC2 then None
        else if b < 0xE0 then
          match ContinuationAt(e, 3)
          case None => None
          case Some(c1) => Some((Utf16((b - 0xC0) * 0x40 + c1), 6))
        else if b < 0xF0 then
          match (ContinuationAt(e, 3), ContinuationAt(e, 6))
          case (Some(c1), Some(c2)) =>
            var cp := (b - 0xE0) * 0x1000 + c1 * 0x40 + c2;
            if cp < 0x800 || (0xD800 <= cp < 0xE000) then None else Some((Utf16(cp), 9))
          case _ => None
        else if b < 0xF5 then
          match (ContinuationAt(e, 3), ContinuationAt(e, 6), ContinuationAt(e, 9))
          case (Some(c1), Some(c2), Some(c3)) =>
            var cp := (b - 0xF0) * 0x4_0000 + c1 * 0x1000 + c2 * 0x40 + c3;
            if cp < 0x1_0000 || cp >= 0x11_0000 then None else Some((Utf16(cp), 12))
          case _ => None
        else None
  }

  /** `decodeURIComponent(e)`, with `None` where JavaScript throws. */
  function Decode(e: JsString): Option<JsString>
    decreases |e|
  {
    if e == [] then Some([])
    else match DecodeFirst(e)
      case None => None
      case Some((units, n)) =>
        match Decode(e[n..])
        case None => None
        case Some(rest) => Some(units + rest)
  }

  lemma HexRoundTrip(d: int)
    requires 0 <= d < 16
    ensures HexValue(HexDigit(d)) == Some(d)
  {
  }

  lemma OctetRoundTrip(o: Octet, e: JsString, i: nat)
    requires i + 3 <= |e|
    requires e[i] == Percent && e[i + 1] == HexDigit(o / 16) && e[i + 2] == HexDigit(o % 16)
    ensures OctetAt(e, i) == Some(o)
  {
    HexRoundTrip(o / 16);
    HexRoundTrip(o % 16);
  }

  /** Block `k` of the percent-encoding is the encoding of octet `k`. */
  lemma {:induction false} PercentOctetsBlock(os: seq<Octet>, k: nat)
    requires k < |os|
    ensures PercentOctets(os)[3 * k..3 * k + 3] == PercentOctet(os[k])
    decreases k
  {
    if k > 0 {
      PercentOctetsBlock(os[1..], k - 1);
      assert PercentOctets(os)[3..] == PercentOctets(os[1..]);
    }
  }

  /** Each `%XY` of an encoded octet sequence reads back as that octet. */
  lemma {:induction false} PercentOctetsAt(os: seq<Octet>, rest: JsString, k: nat)
    requires k < |os|
    ensures OctetAt(PercentOctets(os) + rest, 3 * k) == Some(os[k])
  {
    var p := PercentOctets(os);
    var e := p + rest;
    PercentOctetsBlock(os, k);
    var block := p[3 * k..3 * k + 3];
    assert block == PercentOctet(os[k]);
    assert e[3 * k] == block[0] && e[3 * k + 1] == block[1] && e[3 * k + 2] == block[2];
    OctetRoundTrip(os[k], e, 3 * k);
  }

  lemma Utf8ThreeValue(cp: int)
    requires 0x800 <= cp < 0x1_0000
    ensures (cp / 0x1000) * 0x1000 + ((cp / 0x40) % 0x40) * 0x40 + cp % 0x40 == cp
  {
  }

  lemma Utf8FourValue(cp: int)
    requires 0x1_0000 <= cp < 0x11_0000
    ensures (cp / 0x4_0000) * 0x4_0000 + ((cp / 0x1000) % 0x40) * 0x1000 + ((cp / 0x40) % 0x40) * 0x40 + cp % 0x40 == cp
  {
    var q1, q2, q3 := cp / 0x40, cp / 0x1000, cp / 0x4_0000;
    assert q1 / 0x40 == q2 && q2 / 0x40 == q3;
    assert cp == q1 * 0x40 + cp % 0x40;
    assert q1 == q2 * 0x40 + q1 % 0x40;
    assert q2 == q3 * 0x40 + q2 % 0x40;
  }

  /** The first character of an encoding decodes to the code units of its scalar value. */
  lemma DecodeFirstScalar(cp: Scalar, rest: JsString)
    ensures DecodeFirst(EncodeScalar(cp) + rest) == Some((Utf16(cp), |EncodeScalar(cp)|))
  {
    if Unreserved(cp) {
    } else if cp < 0x80 {
      PercentOctetsAt(Utf8(cp), rest, 0);
    } else if cp < 0x800 {
      DecodeTwoOctets(cp, rest);
    } else if cp < 0x1_0000 {
      DecodeThreeOctets(cp, rest);
    } else {
      DecodeFourOctets(cp, rest);
    }
  }

  lemma DecodeTwoOctets(cp: Scalar, rest: JsString)
    requires 0x80 <= cp < 0x800
    ensures DecodeFirst(EncodeScalar(cp) + rest) == Some((Utf16(cp), 6))
  {
    var os := Utf8(cp);
    var e := EncodeScalar(cp) + rest;
    assert !Unreserved(cp) && e == PercentOctets(os) + rest;
    PercentOctetsAt(os, rest, 0);
    PercentOctetsAt(os, rest, 1);
    assert ContinuationAt(e, 3) == Some(os[1] - 0x80);
  }

  lemma DecodeThreeOctets(cp: Scalar, rest: JsString)
    requires 0x800 <= cp < 0x1_0000
    ensures DecodeFirst(EncodeScalar(cp) + rest) == Some((Utf16(cp), 9))
  {
    var os := Utf8(cp);
    var e := EncodeScalar(cp) + rest;
    assert !Unreserved(cp) && e == PercentOctets(os) + rest;
    PercentOctetsAt(os, rest, 0);
    PercentOctetsAt(os, rest, 1);
    PercentOctetsAt(os, rest, 2);
    assert ContinuationAt(e, 3) == Some(os[1] - 0x80);
    assert ContinuationAt(e, 6) == Some(os[2] - 0x80);
    Utf8ThreeValue(cp);
  }

  lemma DecodeFourOctets(cp: Scalar, rest: JsString)
    requires 0x1_0000 <= cp
    ensures DecodeFirst(EncodeScalar(cp) + rest) == Some((Utf16(cp), 12))
  {
    var os := Utf8(cp);
    var e := EncodeScalar(cp) + rest;
    assert !Unreserved(cp) && e == PercentOctets(os) + rest;
    PercentOctetsAt(os, rest, 0);
    PercentOctetsAt(os, rest, 1);
    PercentOctetsAt(os, rest, 2);
    PercentOctetsAt(os, rest, 3);
    assert ContinuationAt(e, 3) == Some(os[1] - 0x80);
    assert ContinuationAt(e, 6) == Some(os[2] - 0x80);
    assert ContinuationAt(e, 9) == Some(os[3] - 0x80);
    Utf8FourValue(cp);
  }

  /** Decoding inverts encoding on every well-formed string. */
  lemma {:induction false} DecodeEncode(s: JsString)
    requires WellFormed(s)
    ensures Decode(Encode(s)) == Some(s)
    decreases |s|
  {
    if s != [] {
      var cp: Scalar;
      var n: nat;
      if IsHigh(s[0]) {
        cp, n := Pair(s[0], s[1]), 2;
        Utf16Pair(s[0], s[1]);
      } else {
        cp, n := s[0], 1;
      }
      DecodeEncode(s[n..]);
      var e := EncodeScalar(cp) + Encode(s[n..]);
      DecodeFirstScalar(cp, Encode(s[n..]));
      assert e[|EncodeScalar(cp)|..] == Encode(s[n..]);
      assert Utf16(cp) == s[..n];
      assert s[..n] + s[n..] == s;
    }
  }

  /** Encoding is injective on well-formed strings: different prompts never share a deep link. */
  lemma EncodeInjective(s: JsString, t: JsString)
    requires WellFormed(s) && WellFormed(t)
    requires Encode(s) == Encode(t)
    ensures s == t
  {
    DecodeEncode(s);
    DecodeEncode(t);
  }
}
