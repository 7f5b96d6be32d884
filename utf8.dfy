/** UTF-8, as Node's `Buffer.from(string)` encodes a string (RFC 3629). A Dafny string
    is a sequence of Unicode scalar values, so every string has an encoding; the strict
    decoder below rejects overlong forms, surrogates and values past U+10FFFF, and is
    proved to be the exact inverse of the encoder. */
module Utf8 {
  import opened Wrappers
  import opened Bytes

  predicate IsContinuation(b: byte) {
    0x80 <= b < 0xC0
  }

  /** The continuation byte that carries the low six bits of `n`. */
  function Cont(n: nat): (b: byte)
    ensures IsContinuation(b)
  {
    0x80 + n % 64
  }

  /** Splitting off and putting back six bits. */
  lemma SixBits(h: nat, l: nat)
    requires l < 64
    ensures (h * 64 + l) / 64 == h && (h * 64 + l) % 64 == l
  {
  }

  lemma SplitSix(n: nat)
    ensures n == (n / 64) * 64 + n % 64
  {
  }

  /** The one to four bytes of one scalar value (RFC 3629, section 3). */
  function EncodeChar(c: char): (r: Bytes)
    ensures 1 <= |r| <= 4
  {
    var n := c as int;
    if n < 0x80 then [n]
    else if n < 0x800 then [0xC0 + n / 64, Cont(n)]
    else if n < 0x10000 then [0xE0 + n / 64 / 64, Cont(n / 64), Cont(n)]
    else [0xF0 + n / 64 / 64 / 64, Cont(n / 64 / 64), Cont(n / 64), Cont(n)]
  }

  /** Decodes the scalar value at the start of `b` and says how many bytes it took. */
  function DecodeChar(b: Bytes): (r: Option<(char, nat)>)
    ensures r.Some? ==> 1 <= r.value.1 <= |b| && r.value.1 <= 4
  {
    if |b| == 0 then None
    else if b[0] < 0x80 then Some((b[0] as char, 1))
    else if 0xC2 <= b[0] < 0xE0 then
      if |b| >= 2 && IsContinuation(b[1])
      then Some((((b[0] as int - 0xC0) * 64 + (b[1] as int - 0x80)) as char, 2))
      else None
    else if 0xE0 <= b[0] < 0xF0 then
      if |b| >= 3 && IsContinuation(b[1]) && IsContinuation(b[2]) then
        var n := ((b[0] as int - 0xE0) * 64 + (b[1] as int - 0x80)) * 64 + (b[2] as int - 0x80);
        if 0x800 <= n && !(0xD800 <= n < 0xE000) then Some((n as char, 3)) else None
      else None
    else if 0xF0 <= b[0] < 0xF5 then
      if |b| >= 4 && IsContinuation(b[1]) && IsContinuation(b[2]) && IsContinuation(b[3]) then
        var n := (((b[0] as int - 0xF0) * 64 + (b[1] as int - 0x80)) * 64 + (b[2] as int - 0x80)) * 64 + (b[3] as int - 0x80);
        if 0x10000 <= n < 0x110000 then Some((n as char, 4)) else None
      else None
    else None
  }

  function Encode(s: string): (r: Bytes)
    decreases |s|
  {
    if |s| == 0 then [] else EncodeChar(s[0]) + Encode(s[1..])
  }

  function Decode(b: Bytes): Option<string>
    decreases |b|
  {
    if |b| == 0 then Some("")
    else
      match DecodeChar(b)
      case None => None
      case Some((c, k)) =>
        match Decode(b[k..])
        case None => None
        case Some(rest) => Some([c] + rest)
  }

  // ---------------------------------------------------------------------------
  // One scalar value

  lemma DecodeEncodeChar2(n: nat, c: char, rest: Bytes)
    requires n == c as int && 0x80 <= n < 0x800
    ensures DecodeChar(EncodeChar(c) + rest) == Some((c, 2))
  {
    var b := EncodeChar(c) + rest;
    SplitSix(n);
    assert b[0] == 0xC0 + n / 64 && b[1] == Cont(n);
    assert (b[0] as int - 0xC0) * 64 + (b[1] as int - 0x80) == n;
  }

  lemma DecodeEncodeChar3(n: nat, c: char, rest: Bytes)
    requires n == c as int && 0x800 <= n < 0x10000
    ensures DecodeChar(EncodeChar(c) + rest) == Some((c, 3))
  {
    var b := EncodeChar(c) + rest;
    var q := n / 64;
    SplitSix(n);
    SplitSix(q);
    assert b[0] == 0xE0 + q / 64 && b[1] == Cont(q) && b[2] == Cont(n);
    assert ((b[0] as int - 0xE0) * 64 + (b[1] as int - 0x80)) * 64 + (b[2] as int - 0x80) == n;
  }

  lemma DecodeEncodeChar4(n: nat, c: char, rest: Bytes)
    requires n == c as int && 0x10000 <= n
    ensures DecodeChar(EncodeChar(c) + rest) == Some((c, 4))
  {
    var b := EncodeChar(c) + rest;
    var q := n / 64;
    var p := q / 64;
    SplitSix(n);
    SplitSix(q);
    SplitSix(p);
    assert b[0] == 0xF0 + p / 64 && b[1] == Cont(p) && b[2] == Cont(q) && b[3] == Cont(n);
    assert (((b[0] as int - 0xF0) * 64 + (b[1] as int - 0x80)) * 64 + (b[2] as int - 0x80)) * 64 + (b[3] as int - 0x80) == n;
  }

  /** The bytes of one scalar value decode to it, whatever follows them. */
  lemma DecodeEncodeChar(c: char, rest: Bytes)
    ensures DecodeChar(EncodeChar(c) + rest) == Some((c, |EncodeChar(c)|))
  {
    var n := c as int;
    if n < 0x80 {
    } else if n < 0x800 {
      DecodeEncodeChar2(n, c, rest);
    } else if n < 0x10000 {
      DecodeEncodeChar3(n, c, rest);
    } else {
      DecodeEncodeChar4(n, c, rest);
    }
  }

  lemma EncodeDecodeChar2(b: Bytes)
    requires |b| >= 2 && 0xC2 <= b[0] < 0xE0 && IsContinuation(b[1])
    ensures DecodeChar(b).Some? && EncodeChar(DecodeChar(b).value.0) == b[..2]
  {
    var h, l := b[0] as int - 0xC0, b[1] as int - 0x80;
    var n := h * 64 + l;
    SixBits(h, l);
    assert EncodeChar(n as char) == [0xC0 + h, 0x80 + l];
  }

  lemma EncodeDecodeChar3(b: Bytes)
    requires |b| >= 3 && DecodeChar(b).Some? && 0xE0 <= b[0] < 0xF0
    ensures EncodeChar(DecodeChar(b).value.0) == b[..3]
  {
    var h, m, l := b[0] as int - 0xE0, b[1] as int - 0x80, b[2] as int - 0x80;
    var q := h * 64 + m;
    var n := q * 64 + l;
    SixBits(q, l);
    SixBits(h, m);
    assert DecodeChar(b).value.0 == n as char;
    assert EncodeChar(n as char) == [0xE0 + h, 0x80 + m, 0x80 + l];
  }

  lemma EncodeDecodeChar4(b: Bytes)
    requires |b| >= 4 && DecodeChar(b).Some? && 0xF0 <= b[0]
    ensures EncodeChar(DecodeChar(b).value.0) == b[..4]
  {
    var h, m, k, l := b[0] as int - 0xF0, b[1] as int - 0x80, b[2] as int - 0x80, b[3] as int - 0x80;
    var p := h * 64 + m;
    var q := p * 64 + k;
    var n := q * 64 + l;
    SixBits(q, l);
    SixBits(p, k);
    SixBits(h, m);
    assert DecodeChar(b).value.0 == n as char;
    assert EncodeChar(n as char) == [0xF0 + h, 0x80 + m, 0x80 + k, 0x80 + l];
  }

  /** What the decoder takes off the front is exactly the encoding of what it returns. */
  lemma EncodeDecodeChar(b: Bytes)
    requires DecodeChar(b).Some?
    ensures EncodeChar(DecodeChar(b).value.0) == b[..DecodeChar(b).value.1]
  {
    if b[0] < 0x80 {
    } else if b[0] < 0xE0 {
      EncodeDecodeChar2(b);
    } else if b[0] < 0xF0 {
      EncodeDecodeChar3(b);
    } else {
      EncodeDecodeChar4(b);
    }
  }

  // ---------------------------------------------------------------------------
  // Strings

  lemma {:induction false} DecodeEncode(s: string)
    ensures Decode(Encode(s)) == Some(s)
    decreases |s|
  {
    if |s| > 0 {
      var e := EncodeChar(s[0]);
      var rest := Encode(s[1..]);
      DecodeEncodeChar(s[0], rest);
      assert (e + rest)[|e|..] == rest;
      DecodeEncode(s[1..]);
      assert s == [s[0]] + s[1..];
    }
  }

  lemma {:induction false} EncodeDecode(b: Bytes, s: string)
    requires Decode(b) == Some(s)
    ensures Encode(s) == b
    decreases |b|
  {
    if |b| > 0 {
      var (c, k) := DecodeChar(b).value;
      var rest := Decode(b[k..]).value;
      EncodeDecodeChar(b);
      EncodeDecode(b[k..], rest);
      EncodeCons(s, c, rest, b, k);
    }
  }

  lemma EncodeCons(s: string, c: char, rest: string, b: Bytes, k: nat)
    requires 0 < k <= |b| && s == [c] + rest
    requires EncodeChar(c) == b[..k] && Encode(rest) == b[k..]
    ensures Encode(s) == b
  {
    assert s[0] == c && s[1..] == rest;
    assert b == b[..k] + b[k..];
  }

  /** UTF-8 is a bijection between strings and the byte strings the decoder accepts. */
  lemma Inverse(b: Bytes, s: string)
    ensures Decode(b) == Some(s) <==> Encode(s) == b
  {
    if Decode(b) == Some(s) {
      EncodeDecode(b, s);
    }
    if Encode(s) == b {
      DecodeEncode(s);
    }
  }
}
