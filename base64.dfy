/** The base64 encodings of RFC 4648: section 4 (standard alphabet, `=` padding, what
    Node's `buffer.toString('base64')` produces) and section 5 (URL- and filename-safe
    alphabet; Node's `buffer.toString('base64url')` leaves the padding out).

    The encoding is taken in two layers: bytes to 6-bit values (three bytes to four
    values, a final one or two bytes to two or three values with zero fill bits), and
    6-bit values to the symbols of an alphabet. Each layer has a strict decoder, and each
    decoder is proved to be the exact inverse of its encoder. */
module Base64 {
  import opened Wrappers
  import opened Bytes

  type sextet = x: int | 0 <= x < 64

  datatype Alphabet = Standard | UrlSafe

  /** The two symbols past the letters and digits: `+ /` (section 4), `- _` (section 5). */
  function Symbol62(alpha: Alphabet): char {
    if alpha == Standard then '+' else '-'
  }

  function Symbol63(alpha: Alphabet): char {
    if alpha == Standard then '/' else '_'
  }

  predicate IsSymbol(alpha: Alphabet, c: char) {
    ('A' <= c <= 'Z') || ('a' <= c <= 'z') || ('0' <= c <= '9')
    || c == Symbol62(alpha) || c == Symbol63(alpha)
  }

  /** Table 1 (section 4) and Table 2 (section 5) of RFC 4648. */
  function Symbol(alpha: Alphabet, v: sextet): (c: char)
    ensures IsSymbol(alpha, c)
  {
    if v < 26 then ('A' as int + v) as char
    else if v < 52 then ('a' as int + (v - 26)) as char
    else if v < 62 then ('0' as int + (v - 52)) as char
    else if v == 62 then Symbol62(alpha)
    else Symbol63(alpha)
  }

  /** The value a symbol stands for; `None` for every other character (`=` included). */
  function Index(alpha: Alphabet, c: char): (r: Option<sextet>)
    ensures r.Some? <==> IsSymbol(alpha, c)
  {
    if 'A' <= c <= 'Z' then Some(c as int - 'A' as int)
    else if 'a' <= c <= 'z' then Some(c as int - 'a' as int + 26)
    else if '0' <= c <= '9' then Some(c as int - '0' as int + 52)
    else if c == Symbol62(alpha) then Some(62)
    else if c == Symbol63(alpha) then Some(63)
    else None
  }

  lemma IndexSymbol(alpha: Alphabet, v: sextet)
    ensures Index(alpha, Symbol(alpha, v)) == Some(v)
  {
  }

  lemma SymbolIndex(alpha: Alphabet, c: char)
    requires IsSymbol(alpha, c)
    ensures Symbol(alpha, Index(alpha, c).value) == c
  {
  }

  // ---------------------------------------------------------------------------
  // Layer 1: bytes and 6-bit groups

  // The bit arithmetic of RFC 4648, section 4: three bytes b0 b1 b2 are the four
  // 6-bit values v0 v1 v2 v3 read off their 24 bits from the most significant end.

  function V0(b0: byte): sextet { b0 / 4 }
  function V1(b0: byte, b1: byte): sextet { (b0 % 4) * 16 + b1 / 16 }
  function V2(b1: byte, b2: byte): sextet { (b1 % 16) * 4 + b2 / 64 }
  function V3(b2: byte): sextet { b2 % 64 }

  function B0(v0: sextet, v1: sextet): byte { v0 * 4 + v1 / 16 }
  function B1(v1: sextet, v2: sextet): byte { (v1 % 16) * 16 + v2 / 4 }
  function B2(v2: sextet, v3: sextet): byte { (v2 % 4) * 64 + v3 }

  /** Each byte comes back from the values its bits went into. */
  lemma Byte0RoundTrip(b0: byte, b1: byte)
    ensures B0(V0(b0), V1(b0, b1)) == b0
  {
  }

  lemma Byte1RoundTrip(b0: byte, b1: byte, b2: byte)
    ensures B1(V1(b0, b1), V2(b1, b2)) == b1
  {
    var hi, lo := b1 / 16, b1 % 16;
    var k, t := b0 % 4, b2 / 64;
    assert V1(b0, b1) == k * 16 + hi && 0 <= hi < 16;
    assert V1(b0, b1) % 16 == hi;
    assert V2(b1, b2) == lo * 4 + t && 0 <= t < 4;
    assert V2(b1, b2) / 4 == lo;
    assert hi * 16 + lo == b1;
  }

  lemma Byte2RoundTrip(b1: byte, b2: byte)
    ensures B2(V2(b1, b2), V3(b2)) == b2
  {
  }

  /** Four values come back from the three bytes they make. */
  lemma ValuesRoundTrip(v0: sextet, v1: sextet, v2: sextet, v3: sextet)
    ensures V0(B0(v0, v1)) == v0
    ensures V1(B0(v0, v1), B1(v1, v2)) == v1
    ensures V2(B1(v1, v2), B2(v2, v3)) == v2
    ensures V3(B2(v2, v3)) == v3
  {
  }

  /** Splits bytes into 6-bit values, 24 bits at a time; a final quantum of one or two
      bytes gives two or three values whose unused low bits are zero (section 4). */
  function ToSextets(b: Bytes): (v: seq<sextet>)
    decreases |b|
  {
    if |b| == 0 then []
    else if |b| == 1 then [V0(b[0]), V1(b[0], 0)]
    else if |b| == 2 then [V0(b[0]), V1(b[0], b[1]), V2(b[1], 0)]
    else [V0(b[0]), V1(b[0], b[1]), V2(b[1], b[2]), V3(b[2])] + ToSextets(b[3..])
  }

  /** Joins 6-bit values back into bytes. A group of one value, or a final group whose
      fill bits are not zero, is rejected, so that every byte string has one spelling. */
  function FromSextets(v: seq<sextet>): (r: Option<Bytes>)
    decreases |v|
  {
    if |v| == 0 then Some([])
    else if |v| == 1 then None
    else if |v| == 2 then
      if v[1] % 16 == 0 then Some([B0(v[0], v[1])]) else None
    else if |v| == 3 then
      if v[2] % 4 == 0 then Some([B0(v[0], v[1]), B1(v[1], v[2])]) else None
    else
      match FromSextets(v[4..])
      case None => None
      case Some(rest) => Some([B0(v[0], v[1]), B1(v[1], v[2]), B2(v[2], v[3])] + rest)
  }

  /** The number of 6-bit values for `n` bytes: four per full group of three, two or
      three for a final partial group. */
  function SextetCount(n: nat): nat {
    4 * (n / 3) + (if n % 3 == 0 then 0 else n % 3 + 1)
  }

  lemma {:induction false} ToSextetsLength(b: Bytes)
    ensures |ToSextets(b)| == SextetCount(|b|)
    decreases |b|
  {
    if |b| >= 3 {
      ToSextetsLength(b[3..]);
    }
  }

  /** The final one- and two-byte quanta come back from their values. */
  lemma TailRoundTrip1(b0: byte)
    ensures FromSextets([V0(b0), V1(b0, 0)]) == Some([b0])
  {
    Byte0RoundTrip(b0, 0);
    FillBits1(b0);
    FromTwo([V0(b0), V1(b0, 0)]);
  }

  lemma FromTwo(v: seq<sextet>)
    requires |v| == 2 && v[1] % 16 == 0
    ensures FromSextets(v) == Some([B0(v[0], v[1])])
  {
  }

  lemma FromThree(v: seq<sextet>)
    requires |v| == 3 && v[2] % 4 == 0
    ensures FromSextets(v) == Some([B0(v[0], v[1]), B1(v[1], v[2])])
  {
  }

  lemma FillBits1(b0: byte)
    ensures V1(b0, 0) % 16 == 0
  {
    var r := b0 % 4;
    assert V1(b0, 0) == r * 16;
    assert r == 0 || r == 1 || r == 2 || r == 3;
  }

  lemma FillBits2(b1: byte)
    ensures V2(b1, 0) % 4 == 0
  {
    var r := b1 % 16;
    assert V2(b1, 0) == r * 4;
    assert r * 4 == (r / 2) * 8 + (r % 2) * 4;
  }

  lemma TailRoundTrip2(b0: byte, b1: byte)
    ensures FromSextets([V0(b0), V1(b0, b1), V2(b1, 0)]) == Some([b0, b1])
  {
    Byte0RoundTrip(b0, b1);
    Byte1RoundTrip(b0, b1, 0);
    FillBits2(b1);
    FromThree([V0(b0), V1(b0, b1), V2(b1, 0)]);
  }

  lemma {:induction false} FromToSextets(b: Bytes)
    ensures FromSextets(ToSextets(b)) == Some(b)
    decreases |b|
  {
    if |b| >= 3 {
      var v := ToSextets(b);
      var t := ToSextets(b[3..]);
      FromToSextets(b[3..]);
      assert v == [V0(b[0]), V1(b[0], b[1]), V2(b[1], b[2]), V3(b[2])] + t;
      assert v[4..] == t;
      Byte0RoundTrip(b[0], b[1]);
      Byte1RoundTrip(b[0], b[1], b[2]);
      Byte2RoundTrip(b[1], b[2]);
      assert b == [b[0], b[1], b[2]] + b[3..];
    } else if |b| == 2 {
      TailRoundTrip2(b[0], b[1]);
      assert b == [b[0], b[1]];
    } else if |b| == 1 {
      TailRoundTrip1(b[0]);
      assert b == [b[0]];
    }
  }

  lemma {:induction false} ToFromSextets(v: seq<sextet>, b: Bytes)
    requires FromSextets(v) == Some(b)
    ensures ToSextets(b) == v
    decreases |v|
  {
    if |v| >= 4 {
      var rest := FromSextets(v[4..]).value;
      ToFromSextets(v[4..], rest);
      ValuesRoundTrip(v[0], v[1], v[2], v[3]);
      assert b[3..] == rest;
      assert v == v[..4] + v[4..];
    } else if |v| == 3 {
      ValuesRoundTrip(v[0], v[1], v[2], 0);
    } else if |v| == 2 {
      ValuesRoundTrip(v[0], v[1], 0, 0);
    }
  }

  /** The byte layer is a bijection between byte strings and well-formed value strings. */
  lemma SextetsInverse(v: seq<sextet>, b: Bytes)
    ensures FromSextets(v) == Some(b) <==> ToSextets(b) == v
  {
    if FromSextets(v) == Some(b) {
      ToFromSextets(v, b);
    }
    if ToSextets(b) == v {
      FromToSextets(b);
    }
  }

  // ---------------------------------------------------------------------------
  // Layer 2: 6-bit values and alphabet symbols

  function Spell(alpha: Alphabet, v: seq<sextet>): (s: string)
    ensures |s| == |v|
    ensures forall i :: 0 <= i < |s| ==> s[i] == Symbol(alpha, v[i])
  {
    seq(|v|, i requires 0 <= i < |v| => Symbol(alpha, v[i]))
  }

  /** Reads every character as a symbol; `None` as soon as one is not a symbol. */
  function Read(alpha: Alphabet, s: string): (r: Option<seq<sextet>>)
    ensures r.Some? <==> forall i :: 0 <= i < |s| ==> IsSymbol(alpha, s[i])
    ensures r.Some? ==> |r.value| == |s| && forall i :: 0 <= i < |s| ==> Index(alpha, s[i]) == Some(r.value[i])
  {
    if forall i :: 0 <= i < |s| ==> IsSymbol(alpha, s[i])
    then Some(seq(|s|, i requires 0 <= i < |s| => Index(alpha, s[i]).value))
    else None
  }

  lemma ReadSpell(alpha: Alphabet, v: seq<sextet>)
    ensures Read(alpha, Spell(alpha, v)) == Some(v)
  {
    var s := Spell(alpha, v);
    forall i | 0 <= i < |s| ensures Index(alpha, s[i]) == Some(v[i]) {
      IndexSymbol(alpha, v[i]);
    }
    var r := Read(alpha, s).value;
    assert forall i :: 0 <= i < |s| ==> r[i] == v[i];
    assert r == v;
  }

  lemma SpellRead(alpha: Alphabet, s: string, v: seq<sextet>)
    requires Read(alpha, s) == Some(v)
    ensures Spell(alpha, v) == s
  {
    forall i | 0 <= i < |s| ensures Spell(alpha, v)[i] == s[i] {
      SymbolIndex(alpha, s[i]);
    }
  }

  // ---------------------------------------------------------------------------
  // The encodings

  /** The symbols for `b` with no padding. */
  function EncodeUnpadded(alpha: Alphabet, b: Bytes): (s: string)
    ensures |s| == SextetCount(|b|)
    ensures forall i :: 0 <= i < |s| ==> IsSymbol(alpha, s[i])
  {
    ToSextetsLength(b);
    Spell(alpha, ToSextets(b))
  }

  function DecodeUnpadded(alpha: Alphabet, s: string): Option<Bytes> {
    match Read(alpha, s)
    case None => None
    case Some(v) => FromSextets(v)
  }

  lemma UnpaddedInverse(alpha: Alphabet, s: string, b: Bytes)
    ensures DecodeUnpadded(alpha, s) == Some(b) <==> EncodeUnpadded(alpha, b) == s
  {
    if DecodeUnpadded(alpha, s) == Some(b) {
      var v := Read(alpha, s).value;
      SpellRead(alpha, s, v);
      SextetsInverse(v, b);
    }
    if EncodeUnpadded(alpha, b) == s {
      ReadSpell(alpha, ToSextets(b));
      SextetsInverse(ToSextets(b), b);
    }
  }

  /** Section 3.2: the final quantum is filled out to four characters with `=`. */
  function Padding(n: nat): string {
    if n % 3 == 1 then "==" else if n % 3 == 2 then "=" else ""
  }

  /** `buffer.toString('base64')`: section 4, with padding. */
  function Encode(b: Bytes): (s: string)
  {
    EncodeUnpadded(Standard, b) + Padding(|b|)
  }

  /** The strict section 4 decoder: length a multiple of four, at most two `=` at the end,
      and otherwise only symbols of the standard alphabet. */
  function Decode(s: string): Option<Bytes> {
    if |s| % 4 != 0 then None
    else if |s| >= 2 && s[|s| - 2] == '=' && s[|s| - 1] == '=' then DecodeUnpadded(Standard, s[..|s| - 2])
    else if |s| >= 1 && s[|s| - 1] == '=' then DecodeUnpadded(Standard, s[..|s| - 1])
    else DecodeUnpadded(Standard, s)
  }

  /** `buffer.toString('base64url')`: section 5 alphabet, padding left out. */
  function EncodeUrl(b: Bytes): (s: string)
  {
    EncodeUnpadded(UrlSafe, b)
  }

  function DecodeUrl(s: string): Option<Bytes> {
    DecodeUnpadded(UrlSafe, s)
  }

  /** The characters of a base64url text: `A-Z a-z 0-9 - _` and nothing else. */
  predicate IsUrlSafeText(s: string) {
    forall i :: 0 <= i < |s| ==> ('A' <= s[i] <= 'Z') || ('a' <= s[i] <= 'z') || ('0' <= s[i] <= '9') || s[i] == '-' || s[i] == '_'
  }

  lemma EncodeUrlAlphabet(b: Bytes)
    ensures IsUrlSafeText(EncodeUrl(b))
    ensures |EncodeUrl(b)| == SextetCount(|b|)
  {
  }

  lemma UrlInverse(s: string, b: Bytes)
    ensures DecodeUrl(s) == Some(b) <==> EncodeUrl(b) == s
  {
    UnpaddedInverse(UrlSafe, s, b);
  }

  /** The padded output always has a length that is a multiple of four. */
  lemma EncodeLength(b: Bytes)
    ensures |Encode(b)| == 4 * ((|b| + 2) / 3)
  {
  }

  /** Padding is recognised and stripped again: a final quantum of two or three symbols
      followed by its `=` padding decodes as the symbols alone. */
  lemma DecodePadded(u: string, p: string)
    requires forall i :: 0 <= i < |u| ==> IsSymbol(Standard, u[i])
    requires (|u| % 4 == 2 && p == "==") || (|u| % 4 == 3 && p == "=") || (|u| % 4 == 0 && p == "")
    ensures Decode(u + p) == DecodeUnpadded(Standard, u)
  {
    var s := u + p;
    if p == "==" {
      assert s[..|s| - 2] == u;
    } else if p == "=" {
      assert s[..|s| - 1] == u;
      assert s[|s| - 2] == u[|u| - 1];
    } else {
      assert s == u;
      if |u| > 0 {
        assert IsSymbol(Standard, u[|u| - 1]);
      }
    }
  }

  /** A final quantum of one, two or no bytes leaves two, three or no symbols past the
      last full group of four. */
  lemma SextetCountMod(n: nat)
    ensures SextetCount(n) % 4 == (if n % 3 == 0 then 0 else n % 3 + 1)
  {
    var q := n / 3;
    var r := if n % 3 == 0 then 0 else n % 3 + 1;
    assert SextetCount(n) == 4 * q + r;
    assert 0 <= r < 4;
  }

  lemma DecodeEncode(b: Bytes)
    ensures Decode(Encode(b)) == Some(b)
  {
    var u := EncodeUnpadded(Standard, b);
    UnpaddedInverse(Standard, u, b);
    SextetCountMod(|b|);
    assert Encode(b) == u + Padding(|b|);
    DecodePadded(u, Padding(|b|));
  }

  lemma LessPadding(n: nat, k: nat)
    requires n % 4 == 0 && 1 <= k <= 2 && k <= n
    ensures (n - k) % 4 == 4 - k
  {
  }

  /** What the strict decoder accepts is padded exactly as the encoder pads: the part
      before the `=` signs is the unpadded encoding, and its length fixes the padding. */
  lemma EncodeDecode(s: string, b: Bytes)
    requires Decode(s) == Some(b)
    ensures Encode(b) == s
  {
    var n := |s|;
    assert n % 4 == 0;
    if n >= 2 && s[n - 2] == '=' && s[n - 1] == '=' {
      EncodeDecodePadded(s[..n - 2], "==", b);
      assert s == s[..n - 2] + "==";
    } else if n >= 1 && s[n - 1] == '=' {
      EncodeDecodePadded(s[..n - 1], "=", b);
      assert s == s[..n - 1] + "=";
    } else {
      EncodeDecodePadded(s, "", b);
      assert s == s + "";
    }
  }

  lemma EncodeDecodePadded(u: string, p: string, b: Bytes)
    requires DecodeUnpadded(Standard, u) == Some(b)
    requires (|u| + |p|) % 4 == 0 && |p| <= 2
    requires p == "==" || p == "=" || p == ""
    ensures Encode(b) == u + p
  {
    UnpaddedInverse(Standard, u, b);
    SextetCountMod(|b|);
    assert |u| == SextetCount(|b|);
    if |p| > 0 {
      LessPadding(|u| + |p|, |p|);
    }
    assert Padding(|b|) == p;
    assert Encode(b) == EncodeUnpadded(Standard, b) + Padding(|b|);
  }

  /** Section 4 decoding is the exact inverse of section 4 encoding. */
  lemma StandardInverse(s: string, b: Bytes)
    ensures Decode(s) == Some(b) <==> Encode(b) == s
  {
    if Decode(s) == Some(b) {
      EncodeDecode(s, b);
    }
    if Encode(b) == s {
      DecodeEncode(b);
    }
  }
}
