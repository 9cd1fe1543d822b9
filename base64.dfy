/**
  The applied-configuration fingerprint: the command line converted to bytes (UTF-8,
  as Go's `[]byte(string)` holds them) and encoded with the standard base64 alphabet
  and `=` padding of section 4 of RFC 4648. Both encodings come with decoders and
  round-trip lemmas, from which the fingerprint's injectivity follows.
 */
module Base64 {
  import opened Wrappers

  type byte = x: int | 0 <= x < 256

  // ---------------------------------------------------------------- UTF-8

  /** Whether `n` is a Unicode scalar value, i.e. the code of some `char`. */
  predicate IsScalar(n: int)
  {
    0 <= n < 0xD800 || 0xE000 <= n < 0x11_0000
  }

  function Cont(n: int): byte
  {
    0x80 + n % 64
  }

  /** The UTF-8 bytes of one character. */
  function EncodeChar(c: char): (b: seq<byte>)
    ensures 1 <= |b| <= 4
  {
    var n := c as int;
    if n < 0x80 then [n]
    else if n < 0x800 then [0xC0 + n / 64, Cont(n)]
    else if n < 0x1_0000 then [0xE0 + n / 4096, Cont(n / 64), Cont(n)]
    else [0xF0 + n / 262144, Cont(n / 4096), Cont(n / 64), Cont(n)]
  }

  /** The UTF-8 encoding of a string. */
  function Utf8(s: string): (b: seq<byte>)
    ensures |b| >= |s|
    decreases |s|
  {
    if s == [] then [] else EncodeChar(s[0]) + Utf8(s[1..])
  }

  predicate IsCont(x: byte)
  {
    0x80 <= x < 0xC0
  }

  /** The code point carried by a two-, three- or four-byte sequence with lead byte `x0`. */
  function Point2(x0: int, x1: int): int { (x0 - 0xC0) * 64 + (x1 - 0x80) }
  function Point3(x0: int, x1: int, x2: int): int { (x0 - 0xE0) * 4096 + (x1 - 0x80) * 64 + (x2 - 0x80) }
  function Point4(x0: int, x1: int, x2: int, x3: int): int
  {
    (x0 - 0xF0) * 262144 + (x1 - 0x80) * 4096 + (x2 - 0x80) * 64 + (x3 - 0x80)
  }

  /**
    Decodes the character at the front of `b`: the character and the number of
    bytes it took, or None when the front is not a well-formed sequence.
   */
  function DecodeChar(b: seq<byte>): (r: Option<(char, nat)>)
    ensures r.Some? ==> 1 <= r.value.1 <= |b|
  {
    if b == [] then None
    else if b[0] < 0x80 then Some((b[0] as char, 1))
    else if b[0] < 0xC0 then None
    else if b[0] < 0xE0 then
      if |b| < 2 || !IsCont(b[1]) then None
      else Some((Point2(b[0], b[1]) as char, 2))
    else if b[0] < 0xF0 then
      if |b| < 3 || !IsCont(b[1]) || !IsCont(b[2]) then None
      else
        var n := Point3(b[0], b[1], b[2]);
        if IsScalar(n) then Some((n as char, 3)) else None
    else if b[0] < 0xF8 then
      if |b| < 4 || !IsCont(b[1]) || !IsCont(b[2]) || !IsCont(b[3]) then None
      else
        var n := Point4(b[0], b[1], b[2], b[3]);
        if IsScalar(n) then Some((n as char, 4)) else None
    else None
  }

  /** Decodes a whole byte string as UTF-8, or None if it is not well formed. */
  function DecodeUtf8(b: seq<byte>): Option<string>
    decreases |b|
  {
    if b == [] then Some("")
    else match DecodeChar(b)
      case None => None
      case Some((c, k)) =>
        match DecodeUtf8(b[k..])
        case None => None
        case Some(rest) => Some([c] + rest)
  }

  lemma Point2Of(n: int)
    requires 0x80 <= n < 0x800
    ensures Point2(0xC0 + n / 64, Cont(n)) == n
  {
  }

  lemma Point3Of(n: int)
    requires 0x800 <= n < 0x1_0000
    ensures 0xE0 <= 0xE0 + n / 4096 < 0xF0
    ensures Point3(0xE0 + n / 4096, Cont(n / 64), Cont(n)) == n
  {
    assert n == (n / 64) * 64 + n % 64;
    assert n / 64 == (n / 4096) * 64 + n / 64 % 64;
  }

  lemma Point4Of(n: int)
    requires 0x1_0000 <= n < 0x11_0000
    ensures 0xF0 <= 0xF0 + n / 262144 < 0xF8
    ensures Point4(0xF0 + n / 262144, Cont(n / 4096), Cont(n / 64), Cont(n)) == n
  {
    assert n == (n / 64) * 64 + n % 64;
    assert n / 64 == (n / 4096) * 64 + n / 64 % 64;
    assert n / 4096 == (n / 262144) * 64 + n / 4096 % 64;
  }

  /** The bytes of one character decode back to that character, whatever follows them. */
  lemma DecodeEncodeChar(c: char, rest: seq<byte>)
    ensures DecodeChar(EncodeChar(c) + rest) == Some((c, |EncodeChar(c)|))
  {
    var n := c as int;
    var b := EncodeChar(c) + rest;
    if n < 0x80 {
    } else if n < 0x800 {
      Point2Of(n);
      assert b[0] == 0xC0 + n / 64 && b[1] == Cont(n);
    } else if n < 0x1_0000 {
      Point3Of(n);
      assert b[0] == 0xE0 + n / 4096 && b[1] == Cont(n / 64) && b[2] == Cont(n);
    } else {
      Point4Of(n);
      assert b[0] == 0xF0 + n / 262144 && b[1] == Cont(n / 4096);
      assert b[2] == Cont(n / 64) && b[3] == Cont(n);
    }
  }

  /** UTF-8 decoding inverts UTF-8 encoding. */
  lemma {:induction false} DecodeUtf8Encode(s: string)
    ensures DecodeUtf8(Utf8(s)) == Some(s)
    decreases |s|
  {
    if s != [] {
      var e := EncodeChar(s[0]);
      DecodeEncodeChar(s[0], Utf8(s[1..]));
      assert (e + Utf8(s[1..]))[|e|..] == Utf8(s[1..]);
      DecodeUtf8Encode(s[1..]);
      assert [s[0]] + s[1..] == s;
    }
  }

  // --------------------------------------------------------------- base64

  /** The base64 alphabet of RFC 4648 section 4 (Table 1). */
  function Symbol(v: int): (c: char)
    requires 0 <= v < 64
  {
    if v < 26 then ('A' as int + v) as char
    else if v < 52 then ('a' as int + v - 26) as char
    else if v < 62 then ('0' as int + v - 52) as char
    else if v == 62 then '+'
    else '/'
  }

  /** The value of an alphabet symbol, or -1 for any other character. */
  function Value(c: char): (v: int)
    ensures -1 <= v < 64
  {
    if 'A' <= c <= 'Z' then c as int - 'A' as int
    else if 'a' <= c <= 'z' then c as int - 'a' as int + 26
    else if '0' <= c <= '9' then c as int - '0' as int + 52
    else if c == '+' then 62
    else if c == '/' then 63
    else -1
  }

  /** The characters an encoding may contain: the alphabet and the pad character. */
  predicate IsEncodingChar(c: char)
  {
    Value(c) >= 0 || c == '='
  }

  lemma ValueSymbol(v: int)
    requires 0 <= v < 64
    ensures Value(Symbol(v)) == v
  {
  }

  lemma SymbolValue(c: char)
    requires Value(c) >= 0
    ensures Symbol(Value(c)) == c
  {
  }

  /** Three bytes as four symbols. */
  function Quad(b0: byte, b1: byte, b2: byte): (s: string)
    ensures |s| == 4
    ensures forall i :: 0 <= i < 4 ==> IsEncodingChar(s[i])
  {
    [Symbol(b0 / 4), Symbol(b0 % 4 * 16 + b1 / 16), Symbol(b1 % 16 * 4 + b2 / 64), Symbol(b2 % 64)]
  }

  /** Base64 with padding: every three bytes become four symbols; a final one or two bytes become a padded quadruple. */
  function Encode(b: seq<byte>): (s: string)
    ensures |s| == (|b| + 2) / 3 * 4
    ensures forall i :: 0 <= i < |s| ==> IsEncodingChar(s[i])
    decreases |b|
  {
    if |b| == 0 then ""
    else if |b| == 1 then [Symbol(b[0] / 4), Symbol(b[0] % 4 * 16), '=', '=']
    else if |b| == 2 then [Symbol(b[0] / 4), Symbol(b[0] % 4 * 16 + b[1] / 16), Symbol(b[1] % 16 * 4), '=']
    else
      var rest := Encode(b[3..]);
      assert (|b| + 2) / 3 * 4 == (|b| - 3 + 2) / 3 * 4 + 4;
      Quad(b[0], b[1], b[2]) + rest
  }

  function DecodeQuad(a: char, b: char, c: char, d: char): Option<seq<byte>>
  {
    var va, vb, vc, vd := Value(a), Value(b), Value(c), Value(d);
    if va < 0 || vb < 0 || vc < 0 || vd < 0 then None
    else Some([va * 4 + vb / 16, vb % 16 * 16 + vc / 4, vc % 4 * 64 + vd])
  }

  /** The last quadruple, which may carry one or two pad characters; the bits the padding drops must be zero. */
  function DecodeLast(a: char, b: char, c: char, d: char): Option<seq<byte>>
  {
    var va, vb, vc := Value(a), Value(b), Value(c);
    if c == '=' && d == '=' then
      if va < 0 || vb < 0 || vb % 16 != 0 then None else Some([va * 4 + vb / 16])
    else if d == '=' then
      if va < 0 || vb < 0 || vc < 0 || vc % 4 != 0 then None
      else Some([va * 4 + vb / 16, vb % 16 * 16 + vc / 4])
    else DecodeQuad(a, b, c, d)
  }

  /** Strict base64 decoding: None for anything that is not a canonical encoding. */
  function Decode(s: string): Option<seq<byte>>
    decreases |s|
  {
    if |s| == 0 then Some([])
    else if |s| < 4 then None
    else if |s| == 4 then DecodeLast(s[0], s[1], s[2], s[3])
    else match DecodeQuad(s[0], s[1], s[2], s[3])
      case None => None
      case Some(g) =>
        match Decode(s[4..])
        case None => None
        case Some(r) => Some(g + r)
  }

  /** Splitting `hi * k + lo` back into its digits, for the digit widths the encoding uses. */
  lemma Digits(hi: int, lo: int, k: int)
    requires k == 4 || k == 16 || k == 64
    requires 0 <= lo < k
    ensures (hi * k + lo) / k == hi && (hi * k + lo) % k == lo
  {
    if k == 4 {
      assert (hi * 4 + lo) / 4 == hi;
    } else if k == 16 {
      assert (hi * 16 + lo) / 16 == hi;
    } else {
      assert (hi * 64 + lo) / 64 == hi;
    }
  }

  lemma DecodeQuadOf(b0: byte, b1: byte, b2: byte)
    ensures var q := Quad(b0, b1, b2); DecodeQuad(q[0], q[1], q[2], q[3]) == Some([b0, b1, b2])
  {
    var va, vb, vc, vd := b0 / 4, b0 % 4 * 16 + b1 / 16, b1 % 16 * 4 + b2 / 64, b2 % 64;
    ValueSymbol(va);
    ValueSymbol(vb);
    ValueSymbol(vc);
    ValueSymbol(vd);
    Digits(b0 % 4, b1 / 16, 16);
    Digits(b1 % 16, b2 / 64, 4);
    assert va * 4 + vb / 16 == b0;
    assert vb % 16 * 16 + vc / 4 == b1;
    assert vc % 4 * 64 + vd == b2;
  }

  lemma DecodeLastOfOne(b0: byte)
    ensures DecodeLast(Symbol(b0 / 4), Symbol(b0 % 4 * 16), '=', '=') == Some([b0])
  {
    ValueSymbol(b0 / 4);
    ValueSymbol(b0 % 4 * 16);
    Digits(b0 % 4, 0, 16);
  }

  lemma DecodeLastOfTwo(b0: byte, b1: byte)
    ensures DecodeLast(Symbol(b0 / 4), Symbol(b0 % 4 * 16 + b1 / 16), Symbol(b1 % 16 * 4), '=') == Some([b0, b1])
  {
    var va, vb, vc := b0 / 4, b0 % 4 * 16 + b1 / 16, b1 % 16 * 4;
    ValueSymbol(va);
    ValueSymbol(vb);
    ValueSymbol(vc);
    assert Symbol(vc) != '=';
    Digits(b0 % 4, b1 / 16, 16);
    Digits(b1 % 16, 0, 4);
    assert va * 4 + vb / 16 == b0;
    assert vb % 16 * 16 + vc / 4 == b1;
  }

  lemma DecodeQuadAlone(b0: byte, b1: byte, b2: byte)
    ensures Decode(Quad(b0, b1, b2)) == Some([b0, b1, b2])
  {
    var q := Quad(b0, b1, b2);
    DecodeQuadOf(b0, b1, b2);
    ValueSymbol(b1 % 16 * 4 + b2 / 64);
    ValueSymbol(b2 % 64);
    assert q[2] != '=' && q[3] != '=';
  }

  lemma DecodeQuadThen(b0: byte, b1: byte, b2: byte, rest: string, r: seq<byte>)
    requires rest != [] && Decode(rest) == Some(r)
    ensures Decode(Quad(b0, b1, b2) + rest) == Some([b0, b1, b2] + r)
  {
    var q := Quad(b0, b1, b2);
    var s := q + rest;
    DecodeQuadOf(b0, b1, b2);
    assert s[4..] == rest;
    assert [s[0], s[1], s[2], s[3]] == q;
  }

  lemma DecodeEncodeOne(b: seq<byte>)
    requires |b| == 1
    ensures Decode(Encode(b)) == Some(b)
  {
    DecodeLastOfOne(b[0]);
    var s := Encode(b);
    assert s == [Symbol(b[0] / 4), Symbol(b[0] % 4 * 16), '=', '='];
    assert Decode(s) == DecodeLast(s[0], s[1], s[2], s[3]);
    assert b == [b[0]];
  }

  lemma DecodeEncodeTwo(b: seq<byte>)
    requires |b| == 2
    ensures Decode(Encode(b)) == Some(b)
  {
    DecodeLastOfTwo(b[0], b[1]);
    var s := Encode(b);
    assert s == [Symbol(b[0] / 4), Symbol(b[0] % 4 * 16 + b[1] / 16), Symbol(b[1] % 16 * 4), '='];
    assert Decode(s) == DecodeLast(s[0], s[1], s[2], s[3]);
    assert b == [b[0], b[1]];
  }

  lemma DecodeEncodeThree(b: seq<byte>)
    requires |b| == 3
    ensures Decode(Encode(b)) == Some(b)
  {
    DecodeQuadAlone(b[0], b[1], b[2]);
    assert b == [b[0], b[1], b[2]];
    assert Encode(b) == Quad(b[0], b[1], b[2]) + Encode(b[3..]);
  }

  /** A sequence of at least three bytes is its first group followed by the rest. */
  lemma FirstThree(b: seq<byte>)
    requires |b| >= 3
    ensures b == [b[0], b[1], b[2]] + b[3..]
  {
  }

  lemma DecodeEncodeLonger(b: seq<byte>)
    requires |b| > 3 && Decode(Encode(b[3..])) == Some(b[3..])
    ensures Decode(Encode(b)) == Some(b)
  {
    FirstThree(b);
    assert Encode(b) == Quad(b[0], b[1], b[2]) + Encode(b[3..]);
    DecodeQuadThen(b[0], b[1], b[2], Encode(b[3..]), b[3..]);
  }

  /** Decoding inverts encoding. */
  lemma {:induction false} DecodeEncode(b: seq<byte>)
    ensures Decode(Encode(b)) == Some(b)
    decreases |b|
  {
    if |b| == 1 {
      DecodeEncodeOne(b);
    } else if |b| == 2 {
      DecodeEncodeTwo(b);
    } else if |b| == 3 {
      DecodeEncodeThree(b);
    } else if |b| > 3 {
      DecodeEncode(b[3..]);
      DecodeEncodeLonger(b);
    }
  }

  lemma EncodeOfQuad(a: char, b: char, c: char, d: char, g: seq<byte>)
    requires DecodeQuad(a, b, c, d) == Some(g)
    ensures |g| == 3 && Quad(g[0], g[1], g[2]) == [a, b, c, d]
  {
    SymbolValue(a);
    SymbolValue(b);
    SymbolValue(c);
    SymbolValue(d);
    var va, vb, vc, vd := Value(a), Value(b), Value(c), Value(d);
    Digits(va, vb / 16, 4);
    Digits(vb % 16, vc / 4, 16);
    Digits(vc % 4, vd, 64);
    assert g[0] / 4 == va && g[0] % 4 == vb / 16;
    assert g[1] / 16 == vb % 16 && g[1] % 16 == vc / 4;
    assert g[2] / 64 == vc % 4 && g[2] % 64 == vd;
  }

  lemma EncodeOfLastOne(a: char, b: char, g: seq<byte>)
    requires DecodeLast(a, b, '=', '=') == Some(g)
    ensures |g| == 1 && Encode(g) == [a, b, '=', '=']
  {
    var va, vb := Value(a), Value(b);
    SymbolValue(a);
    SymbolValue(b);
    Digits(va, vb / 16, 4);
    assert g[0] / 4 == va && g[0] % 4 * 16 == vb;
  }

  lemma EncodeOfLastTwo(a: char, b: char, c: char, g: seq<byte>)
    requires c != '=' && DecodeLast(a, b, c, '=') == Some(g)
    ensures |g| == 2 && Encode(g) == [a, b, c, '=']
  {
    var va, vb, vc := Value(a), Value(b), Value(c);
    SymbolValue(a);
    SymbolValue(b);
    SymbolValue(c);
    Digits(va, vb / 16, 4);
    Digits(vb % 16, vc / 4, 16);
    assert g[0] / 4 == va && g[0] % 4 * 16 + g[1] / 16 == vb && g[1] % 16 * 4 == vc;
  }

  lemma EncodeOfLast(a: char, b: char, c: char, d: char, g: seq<byte>)
    requires DecodeLast(a, b, c, d) == Some(g)
    ensures 1 <= |g| <= 3 && Encode(g) == [a, b, c, d]
  {
    if c == '=' && d == '=' {
      EncodeOfLastOne(a, b, g);
    } else if d == '=' {
      EncodeOfLastTwo(a, b, c, g);
    } else {
      EncodeOfQuad(a, b, c, d, g);
      assert Encode(g) == Quad(g[0], g[1], g[2]) + Encode(g[3..]);
    }
  }

  lemma DecodeNonEmpty(s: string, r: seq<byte>)
    requires s != [] && Decode(s) == Some(r)
    ensures r != []
  {
    if |s| == 4 {
      assert Decode(s) == DecodeLast(s[0], s[1], s[2], s[3]);
    }
  }

  lemma EncodeQuadThen(s: string, g: seq<byte>, r: seq<byte>)
    requires |s| > 4 && DecodeQuad(s[0], s[1], s[2], s[3]) == Some(g)
    requires r != [] && Encode(r) == s[4..]
    ensures Encode(g + r) == s
  {
    EncodeOfQuad(s[0], s[1], s[2], s[3], g);
    var b := g + r;
    assert b[0] == g[0] && b[1] == g[1] && b[2] == g[2] && b[3..] == r;
    assert Encode(b) == Quad(b[0], b[1], b[2]) + Encode(b[3..]);
    assert s == [s[0], s[1], s[2], s[3]] + s[4..];
  }

  /** Encoding inverts decoding: a string that decodes is the canonical encoding of what it decodes to. */
  lemma {:induction false} EncodeDecode(s: string, b: seq<byte>)
    requires Decode(s) == Some(b)
    ensures Encode(b) == s
    decreases |s|
  {
    if |s| == 4 {
      EncodeOfLast(s[0], s[1], s[2], s[3], b);
      assert s == [s[0], s[1], s[2], s[3]];
    } else if |s| > 4 {
      var g := DecodeQuad(s[0], s[1], s[2], s[3]).value;
      var r := Decode(s[4..]).value;
      assert b == g + r;
      EncodeDecode(s[4..], r);
      DecodeNonEmpty(s[4..], r);
      EncodeQuadThen(s, g, r);
    }
  }

  // ---------------------------------------------------------- fingerprint

  /** The label value stored on a container launched for command line `cmd`: empty only for the empty command, and free of newlines. */
  function Fingerprint(cmd: string): (f: string)
    ensures f == [] <==> cmd == []
    ensures '\n' !in f
  {
    var f := Encode(Utf8(cmd));
    assert forall i :: 0 <= i < |f| ==> IsEncodingChar(f[i]);
    f
  }

  /** Different command lines never share a fingerprint, so label equality is command equality. */
  lemma FingerprintInjective(c1: string, c2: string)
    requires Fingerprint(c1) == Fingerprint(c2)
    ensures c1 == c2
  {
    DecodeEncode(Utf8(c1));
    DecodeEncode(Utf8(c2));
    DecodeUtf8Encode(c1);
    DecodeUtf8Encode(c2);
  }

  // ------------------------------------------------- RFC 4648 test vectors

  /** Three bytes encode as one unpadded quadruple. */
  lemma EncodeThree(b0: byte, b1: byte, b2: byte)
    ensures Encode([b0, b1, b2]) == Quad(b0, b1, b2)
  {
    assert [b0, b1, b2][3..] == [];
  }

  lemma EncodeFoo()
    ensures Encode([102, 111, 111]) == "Zm9v"
  {
    EncodeThree(102, 111, 111);
    assert Quad(102, 111, 111) == [Symbol(25), Symbol(38), Symbol(61), Symbol(47)];
    assert Symbol(25) == 'Z' && Symbol(38) == 'm' && Symbol(61) == '9' && Symbol(47) == 'v';
  }

  /** Bytes that start with "foo" encode as "Zm9v" followed by the encoding of the rest. */
  lemma EncodeAfterFoo(b: seq<byte>)
    requires |b| > 3 && b[..3] == [102, 111, 111]
    ensures Encode(b) == "Zm9v" + Encode(b[3..])
  {
    EncodeFoo();
    assert b[0] == 102 && b[1] == 111 && b[2] == 111;
  }

  lemma EncodeB()
    ensures Encode([98]) == "Yg=="
  {
    assert Symbol(24) == 'Y' && Symbol(32) == 'g';
  }

  lemma EncodeBa()
    ensures Encode([98, 97]) == "YmE="
  {
    assert Symbol(24) == 'Y' && Symbol(38) == 'm' && Symbol(4) == 'E';
  }

  lemma EncodeBar()
    ensures Encode([98, 97, 114]) == "YmFy"
  {
    EncodeThree(98, 97, 114);
    assert Quad(98, 97, 114) == [Symbol(24), Symbol(38), Symbol(5), Symbol(50)];
    assert Symbol(24) == 'Y' && Symbol(38) == 'm' && Symbol(5) == 'F' && Symbol(50) == 'y';
  }

  lemma VectorF()
    ensures Fingerprint("f") == "Zg=="
  {
    assert Symbol(25) == 'Z' && Symbol(32) == 'g';
    assert Utf8("f") == [102];
  }

  lemma VectorFo()
    ensures Fingerprint("fo") == "Zm8="
  {
    assert Symbol(25) == 'Z' && Symbol(38) == 'm' && Symbol(60) == '8';
    assert Utf8("fo") == [102, 111];
  }

  lemma VectorFoo()
    ensures Fingerprint("foo") == "Zm9v"
  {
    assert Utf8("foo") == [102, 111, 111];
    EncodeFoo();
  }

  lemma VectorFoob()
    ensures Fingerprint("foob") == "Zm9vYg=="
  {
    var b: seq<byte> := [102, 111, 111, 98];
    assert Utf8("foob") == b;
    EncodeAfterFoo(b);
    assert b[3..] == [98];
    EncodeB();
  }

  lemma VectorFooba()
    ensures Fingerprint("fooba") == "Zm9vYmE="
  {
    var b: seq<byte> := [102, 111, 111, 98, 97];
    assert Utf8("fooba") == b;
    EncodeAfterFoo(b);
    assert b[3..] == [98, 97];
    EncodeBa();
  }

  lemma VectorFoobar()
    ensures Fingerprint("foobar") == "Zm9vYmFy"
  {
    var b: seq<byte> := [102, 111, 111, 98, 97, 114];
    assert Utf8("foobar") == b;
    EncodeAfterFoo(b);
    assert b[3..] == [98, 97, 114];
    EncodeBar();
  }

  /** The test vectors of section 10 of RFC 4648, as fingerprints of ASCII command lines. */
  lemma Rfc4648Vectors()
    ensures Fingerprint("") == ""
    ensures Fingerprint("f") == "Zg=="
    ensures Fingerprint("fo") == "Zm8="
    ensures Fingerprint("foo") == "Zm9v"
    ensures Fingerprint("foob") == "Zm9vYg=="
    ensures Fingerprint("fooba") == "Zm9vYmE="
    ensures Fingerprint("foobar") == "Zm9vYmFy"
  {
    VectorF();
    VectorFo();
    VectorFoo();
    VectorFoob();
    VectorFooba();
    VectorFoobar();
  }
}
