/** Strict UTF-8 over code points, as RFC 3629 defines it, and the order of encoded strings. */
module Utf8 {
  import opened Results

  /** Code points and bytes are integers; a Python string may hold surrogates, which have no encoding. */
  type Text = seq<int>
  type Bytes = seq<int>

  predicate Scalar(c: int) { 0 <= c < 0xD800 || 0xE000 <= c <= 0x10FFFF }

  predicate Scalars(s: Text) { forall i | 0 <= i < |s| :: Scalar(s[i]) }

  function EncodePoint(c: int): (b: Bytes)
    requires Scalar(c)
    ensures 1 <= |b| <= 4
  {
    if c < 0x80 then [c]
    else if c < 0x800 then [0xC0 + c / 64, 0x80 + c % 64]
    else if c < 0x10000 then [0xE0 + c / 64 / 64, 0x80 + c / 64 % 64, 0x80 + c % 64]
    else [0xF0 + c / 64 / 64 / 64, 0x80 + c / 64 / 64 % 64, 0x80 + c / 64 % 64, 0x80 + c % 64]
  }

  function Encode(s: Text): Bytes
    requires Scalars(s)
  {
    if s == [] then [] else EncodePoint(s[0]) + Encode(s[1..])
  }

  predicate Continues(b: int) { 0x80 <= b < 0xC0 }

  /** The code point a byte string starts with; overlong forms and surrogates are refused. */
  function DecodePoint(b: Bytes): Option<int>
  {
    if |b| >= 1 && 0 <= b[0] < 0x80 then Some(b[0])
    else if |b| >= 2 && 0xC2 <= b[0] < 0xE0 && Continues(b[1]) then Some((b[0] - 0xC0) * 64 + b[1] - 0x80)
    else if |b| >= 3 && 0xE0 <= b[0] < 0xF0 && Continues(b[1]) && Continues(b[2]) then
      var c := (b[0] - 0xE0) * 4096 + (b[1] - 0x80) * 64 + b[2] - 0x80;
      if c >= 0x800 && Scalar(c) then Some(c) else None
    else if |b| >= 4 && 0xF0 <= b[0] < 0xF5 && Continues(b[1]) && Continues(b[2]) && Continues(b[3]) then
      var c := (b[0] - 0xF0) * 262144 + (b[1] - 0x80) * 4096 + (b[2] - 0x80) * 64 + b[3] - 0x80;
      if 0x10000 <= c <= 0x10FFFF then Some(c) else None
    else None
  }

  lemma Split64(h: int, l: int)
    requires 0 <= l < 64
    ensures (h * 64 + l) / 64 == h && (h * 64 + l) % 64 == l
  {
  }

  lemma TwoBytes(h: int, l: int)
    requires 2 <= h < 32 && 0 <= l < 64
    ensures Scalar(h * 64 + l) && EncodePoint(h * 64 + l) == [0xC0 + h, 0x80 + l]
  {
    Split64(h, l);
  }

  lemma ThreeBytes(h: int, m: int, l: int)
    requires 0 <= h < 16 && 0 <= m < 64 && 0 <= l < 64
    requires var c := (h * 64 + m) * 64 + l; c >= 0x800 && Scalar(c)
    ensures EncodePoint((h * 64 + m) * 64 + l) == [0xE0 + h, 0x80 + m, 0x80 + l]
  {
    Split64(h, m);
    Split64(h * 64 + m, l);
  }

  lemma FourBytes(g: int, h: int, m: int, l: int)
    requires 0 <= h < 64 && 0 <= m < 64 && 0 <= l < 64
    requires 0x10000 <= ((g * 64 + h) * 64 + m) * 64 + l <= 0x10FFFF
    ensures EncodePoint(((g * 64 + h) * 64 + m) * 64 + l) == [0xF0 + g, 0x80 + h, 0x80 + m, 0x80 + l]
  {
    Split64(g, h);
    Split64(g * 64 + h, m);
    Split64((g * 64 + h) * 64 + m, l);
  }

  lemma DecodedPoint(b: Bytes)
    requires DecodePoint(b).Some?
    ensures Scalar(DecodePoint(b).value)
    ensures EncodePoint(DecodePoint(b).value) <= b
  {
    if b[0] >= 0x80 {
      hide EncodePoint;
      if b[0] < 0xE0 {
        TwoBytes(b[0] - 0xC0, b[1] - 0x80);
      } else if b[0] < 0xF0 {
        ThreeBytes(b[0] - 0xE0, b[1] - 0x80, b[2] - 0x80);
      } else {
        FourBytes(b[0] - 0xF0, b[1] - 0x80, b[2] - 0x80, b[3] - 0x80);
      }
    }
  }

  lemma Digits64(c: int)
    requires c >= 0
    ensures c == c / 64 * 64 + c % 64 && 0 <= c % 64 < 64 && c / 64 >= 0
  {
  }

  lemma EncodedShort(c: int, rest: Bytes)
    requires 0 <= c < 0x800
    ensures DecodePoint(EncodePoint(c) + rest) == Some(c)
  {
    Digits64(c);
    var b := EncodePoint(c) + rest;
    assert c >= 0x80 ==> b[0] == 0xC0 + c / 64 && b[1] == 0x80 + c % 64;
  }

  lemma EncodedThree(c: int, rest: Bytes)
    requires Scalar(c) && 0x800 <= c < 0x10000
    ensures DecodePoint(EncodePoint(c) + rest) == Some(c)
  {
    Digits64(c);
    Digits64(c / 64);
    var b := EncodePoint(c) + rest;
    assert b[0] == 0xE0 + c / 64 / 64 && b[1] == 0x80 + c / 64 % 64 && b[2] == 0x80 + c % 64;
  }

  lemma EncodedFour(c: int, rest: Bytes)
    requires 0x10000 <= c <= 0x10FFFF
    ensures DecodePoint(EncodePoint(c) + rest) == Some(c)
  {
    Digits64(c);
    Digits64(c / 64);
    Digits64(c / 64 / 64);
    var b := EncodePoint(c) + rest;
    assert b[0] == 0xF0 + c / 64 / 64 / 64 && b[1] == 0x80 + c / 64 / 64 % 64;
    assert b[2] == 0x80 + c / 64 % 64 && b[3] == 0x80 + c % 64;
  }

  lemma EncodedPoint(c: int, rest: Bytes)
    requires Scalar(c)
    ensures DecodePoint(EncodePoint(c) + rest) == Some(c)
  {
    hide EncodePoint, DecodePoint;
    if c < 0x800 {
      EncodedShort(c, rest);
    } else if c < 0x10000 {
      EncodedThree(c, rest);
    } else {
      EncodedFour(c, rest);
    }
  }

  function Decode(b: Bytes): Option<Text>
  {
    if b == [] then Some([])
    else
      match DecodePoint(b)
      case None => None
      case Some(c) =>
        DecodedPoint(b);
        match Decode(b[|EncodePoint(c)|..])
        case None => None
        case Some(s) => Some([c] + s)
  }

  /** Decoding an encoded string gives it back. */
  lemma {:induction false} DecodeEncoded(s: Text)
    requires Scalars(s)
    ensures Decode(Encode(s)) == Some(s)
  {
    hide EncodePoint, DecodePoint;
    if s != [] {
      var rest := Encode(s[1..]);
      EncodedPoint(s[0], rest);
      assert [s[0]] + s[1..] == s;
      assert (EncodePoint(s[0]) + rest)[|EncodePoint(s[0])|..] == rest;
      DecodeEncoded(s[1..]);
    }
  }

  /** Every byte string that decodes is the encoding of what it decodes to. */
  lemma {:induction false} EncodeDecoded(b: Bytes)
    requires Decode(b).Some?
    ensures Scalars(Decode(b).value) && Encode(Decode(b).value) == b
    decreases |b|
  {
    hide EncodePoint, DecodePoint;
    if b != [] {
      DecodedPoint(b);
      var c := DecodePoint(b).value;
      EncodeDecoded(b[|EncodePoint(c)|..]);
      var s := Decode(b[|EncodePoint(c)|..]).value;
      assert ([c] + s)[1..] == s;
      assert b == EncodePoint(c) + b[|EncodePoint(c)|..];
    }
  }

  lemma EncodeInjective(s: Text, t: Text)
    requires Scalars(s) && Scalars(t) && Encode(s) == Encode(t)
    ensures s == t
  {
    DecodeEncoded(s);
    DecodeEncoded(t);
  }

  /** Lexicographic order, a proper prefix first. */
  predicate Less(a: seq<int>, b: seq<int>)
  {
    b != [] && (a == [] || a[0] < b[0] || (a[0] == b[0] && Less(a[1..], b[1..])))
  }

  lemma {:induction false} LessTotal(a: seq<int>, b: seq<int>)
    ensures a == b || Less(a, b) || Less(b, a)
    ensures !(Less(a, b) && Less(b, a)) && !Less(a, a)
  {
    if a != [] && b != [] {
      LessTotal(a[1..], b[1..]);
      LessTotal(a[1..], a[1..]);
      assert a == [a[0]] + a[1..] && b == [b[0]] + b[1..];
    } else if a != [] {
      LessTotal(a[1..], a[1..]);
    }
  }

  lemma {:induction false} LessTransitive(a: seq<int>, b: seq<int>, c: seq<int>)
    requires Less(a, b) && Less(b, c)
    ensures Less(a, c)
  {
    if a != [] && a[0] == b[0] == c[0] {
      LessTransitive(a[1..], b[1..], c[1..]);
    }
  }

  lemma {:induction false} LessSamePrefix(p: seq<int>, a: seq<int>, b: seq<int>)
    ensures Less(p + a, p + b) <==> Less(a, b)
  {
    if p == [] {
      assert p + a == a && p + b == b;
    } else {
      assert (p + a)[1..] == p[1..] + a && (p + b)[1..] == p[1..] + b;
      LessSamePrefix(p[1..], a, b);
    }
  }

  /** The first byte that differs decides, however the strings go on. */
  lemma {:induction false} LessAt(a: seq<int>, b: seq<int>, i: nat)
    requires i < |a| && i < |b| && a[..i] == b[..i] && a[i] < b[i]
    ensures Less(a, b)
  {
    assert a == a[..i] + a[i..] && b == a[..i] + b[i..];
    LessSamePrefix(a[..i], a[i..], b[i..]);
  }

  /** The base-64 digits of two numbers differ first where the larger one is larger. */
  lemma HighDigits(a: int, b: int)
    requires 0 <= a < b
    ensures a / 64 < b / 64 || (a / 64 == b / 64 && a % 64 < b % 64)
  {
  }

  function Width(c: int): nat { if c < 0x80 then 1 else if c < 0x800 then 2 else if c < 0x10000 then 3 else 4 }

  lemma LeadByte(c: int)
    requires Scalar(c)
    ensures var w, lead := Width(c), EncodePoint(c)[0];
            if w == 1 then lead < 0x80 else if w == 2 then 0xC0 <= lead < 0xE0
            else if w == 3 then 0xE0 <= lead < 0xF0 else 0xF0 <= lead
  {
  }

  lemma ThreeDiffer(a: int, b: int) returns (i: nat)
    requires Scalar(a) && Scalar(b) && 0x800 <= a < b < 0x10000
    ensures var x, y := EncodePoint(a), EncodePoint(b);
            i < |x| && i < |y| && x[..i] == y[..i] && x[i] < y[i]
  {
    HighDigits(a, b);
    if a / 64 < b / 64 { HighDigits(a / 64, b / 64); }
    i := if a / 64 / 64 < b / 64 / 64 then 0 else if a / 64 < b / 64 then 1 else 2;
  }

  lemma FourDiffer(a: int, b: int) returns (i: nat)
    requires 0x10000 <= a < b <= 0x10FFFF
    ensures var x, y := EncodePoint(a), EncodePoint(b);
            i < |x| && i < |y| && x[..i] == y[..i] && x[i] < y[i]
  {
    HighDigits(a, b);
    if a / 64 < b / 64 { HighDigits(a / 64, b / 64); }
    if a / 64 / 64 < b / 64 / 64 { HighDigits(a / 64 / 64, b / 64 / 64); }
    i := if a / 64 / 64 / 64 < b / 64 / 64 / 64 then 0 else if a / 64 / 64 < b / 64 / 64 then 1
         else if a / 64 < b / 64 then 2 else 3;
  }

  lemma ShortDiffer(a: int, b: int) returns (i: nat)
    requires 0 <= a < b < 0x800 && Width(a) == Width(b)
    ensures var x, y := EncodePoint(a), EncodePoint(b);
            i < |x| && i < |y| && x[..i] == y[..i] && x[i] < y[i]
  {
    HighDigits(a, b);
    i := if b < 0x80 || a / 64 < b / 64 then 0 else 1;
  }

  lemma PointsDiffer(a: int, b: int) returns (i: nat)
    requires Scalar(a) && Scalar(b) && a < b
    ensures var x, y := EncodePoint(a), EncodePoint(b);
            i < |x| && i < |y| && x[..i] == y[..i] && x[i] < y[i]
  {
    hide EncodePoint;
    if Width(a) < Width(b) {
      LeadByte(a);
      LeadByte(b);
      i := 0;
    } else if b < 0x800 {
      i := ShortDiffer(a, b);
    } else if b < 0x10000 {
      i := ThreeDiffer(a, b);
    } else {
      i := FourDiffer(a, b);
    }
  }

  /** Sorting by UTF-8 bytes is sorting by code points. */
  lemma {:induction false} EncodeKeepsOrder(s: Text, t: Text)
    requires Scalars(s) && Scalars(t)
    ensures Less(Encode(s), Encode(t)) <==> Less(s, t)
  {
    if s != [] && t != [] {
      if s[0] == t[0] {
        EncodeKeepsOrder(s[1..], t[1..]);
        LessSamePrefix(EncodePoint(s[0]), Encode(s[1..]), Encode(t[1..]));
      } else if s[0] < t[0] {
        PointOrder(s, t);
      } else {
        PointOrder(t, s);
        LessTotal(Encode(s), Encode(t));
      }
    }
  }

  lemma PointOrder(s: Text, t: Text)
    requires Scalars(s) && Scalars(t) && s != [] && t != [] && s[0] < t[0]
    ensures Less(Encode(s), Encode(t))
  {
    var i := PointsDiffer(s[0], t[0]);
    assert Encode(s)[..i] == EncodePoint(s[0])[..i] && Encode(t)[..i] == EncodePoint(t[0])[..i];
    LessAt(Encode(s), Encode(t), i);
  }
}
