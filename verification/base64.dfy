/**
 The base 64 encoding of section 4 of RFC 4648 (alphabet `A-Z a-z 0-9 + /`,
 `=` padding), written as a specification-level encoder and decoder, and the
 calling convention of the library routine the mail client uses to encode into
 a fixed-size buffer.
 */
module Base64 {
  import opened Wrappers
  import opened Bytes

  const PAD: byte := 61  // '='

  /** Table 1 of RFC 4648: the symbol for a 6-bit value. */
  function Symbol(v: nat): (c: byte)
    requires v < 64
    ensures c != PAD && c != LF && c != CR && c != 0
  {
    if v < 26 then 65 + v as byte          // 'A'..'Z'
    else if v < 52 then 97 + (v - 26) as byte   // 'a'..'z'
    else if v < 62 then 48 + (v - 52) as byte   // '0'..'9'
    else if v == 62 then 43                      // '+'
    else 47                                      // '/'
  }

  /** The 6-bit value a symbol stands for, if it is one. */
  function SymbolValue(c: byte): (r: Option<nat>)
    ensures r.Some? ==> r.value < 64 && Symbol(r.value) == c
  {
    if 65 <= c <= 90 then Some((c - 65) as nat)
    else if 97 <= c <= 122 then Some((c - 97) as nat + 26)
    else if 48 <= c <= 57 then Some((c - 48) as nat + 52)
    else if c == 43 then Some(62)
    else if c == 47 then Some(63)
    else None
  }

  lemma SymbolRoundTrip(v: nat)
    requires v < 64
    ensures SymbolValue(Symbol(v)) == Some(v)
  {
  }

  /** Three bytes become four symbols (section 4 of RFC 4648, most significant bits first). */
  function EncodeGroup(a: byte, b: byte, c: byte): seq<byte> {
    [Symbol(a as nat / 4),
     Symbol((a as nat % 4) * 16 + b as nat / 16),
     Symbol((b as nat % 16) * 4 + c as nat / 64),
     Symbol(c as nat % 64)]
  }

  /** The encoding of `s`; a final group of one or two bytes is padded with `=`. */
  function Encode(s: seq<byte>): seq<byte>
    decreases |s|
  {
    if |s| == 0 then []
    else if |s| == 1 then
      [Symbol(s[0] as nat / 4), Symbol((s[0] as nat % 4) * 16), PAD, PAD]
    else if |s| == 2 then
      [Symbol(s[0] as nat / 4), Symbol((s[0] as nat % 4) * 16 + s[1] as nat / 16),
       Symbol((s[1] as nat % 16) * 4), PAD]
    else EncodeGroup(s[0], s[1], s[2]) + Encode(s[3..])
  }

  /** Every started group of three bytes gives four symbols. */
  lemma {:induction false} EncodeLength(s: seq<byte>)
    ensures |Encode(s)| == 4 * ((|s| + 2) / 3)
    decreases |s|
  {
    if |s| >= 3 {
      EncodeLength(s[3..]);
      EncodeCons(s);
      assert (|s| - 3 + 2) / 3 + 1 == (|s| + 2) / 3;
    }
  }

  /** Four symbols without padding back to three bytes. */
  function DecodeGroup(w: byte, x: byte, y: byte, z: byte): Option<seq<byte>> {
    match (SymbolValue(w), SymbolValue(x), SymbolValue(y), SymbolValue(z))
    case (Some(v0), Some(v1), Some(v2), Some(v3)) =>
      Some([(v0 * 4 + v1 / 16) as byte, ((v1 % 16) * 16 + v2 / 4) as byte, ((v2 % 4) * 64 + v3) as byte])
    case _ => None
  }

  /** The last group of an encoding, which may end in one or two `=`. */
  function DecodeLast(w: byte, x: byte, y: byte, z: byte): Option<seq<byte>> {
    if z != PAD then DecodeGroup(w, x, y, z)
    else match (SymbolValue(w), SymbolValue(x))
      case (Some(v0), Some(v1)) =>
        if y == PAD then Some([(v0 * 4 + v1 / 16) as byte])
        else if SymbolValue(y).Some? then
          Some([(v0 * 4 + v1 / 16) as byte, ((v1 % 16) * 16 + SymbolValue(y).value / 4) as byte])
        else None
      case _ => None
  }

  /** Decoding; `None` for text that is not a well-formed encoding. Padding bits
      that an encoder would have left zero are not checked. */
  function Decode(t: seq<byte>): Option<seq<byte>>
    decreases |t|
  {
    if |t| == 0 then Some([])
    else if |t| < 4 then None
    else if |t| == 4 then DecodeLast(t[0], t[1], t[2], t[3])
    else match (DecodeGroup(t[0], t[1], t[2], t[3]), Decode(t[4..]))
      case (Some(g), Some(rest)) => Some(g + rest)
      case _ => None
  }

  /** Six-bit values glued from a high and a low part come apart again. */
  lemma JoinBy16(hi: nat, lo: nat)
    requires lo < 16
    ensures (hi * 16 + lo) / 16 == hi && (hi * 16 + lo) % 16 == lo
  {
  }

  lemma JoinBy4(hi: nat, lo: nat)
    requires lo < 4
    ensures (hi * 4 + lo) / 4 == hi && (hi * 4 + lo) % 4 == lo
  {
  }

  /** Three bytes cut into four 6-bit values and joined back. */
  lemma Regroup(an: nat, bn: nat, cn: nat)
    requires an < 256 && bn < 256 && cn < 256
    ensures var v0, v1, v2, v3 := an / 4, (an % 4) * 16 + bn / 16, (bn % 16) * 4 + cn / 64, cn % 64;
      && v0 * 4 + v1 / 16 == an
      && (v1 % 16) * 16 + v2 / 4 == bn
      && (v2 % 4) * 64 + v3 == cn
  {
    JoinBy16(an % 4, bn / 16);
    JoinBy4(bn % 16, cn / 64);
  }

  lemma GroupRoundTrip(a: byte, b: byte, c: byte)
    ensures DecodeGroup(EncodeGroup(a, b, c)[0], EncodeGroup(a, b, c)[1],
                        EncodeGroup(a, b, c)[2], EncodeGroup(a, b, c)[3]) == Some([a, b, c])
  {
    var an, bn, cn := a as nat, b as nat, c as nat;
    var v0, v1, v2, v3 := an / 4, (an % 4) * 16 + bn / 16, (bn % 16) * 4 + cn / 64, cn % 64;
    var g := EncodeGroup(a, b, c);
    assert g == [Symbol(v0), Symbol(v1), Symbol(v2), Symbol(v3)];
    SymbolRoundTrip(v0);
    SymbolRoundTrip(v1);
    SymbolRoundTrip(v2);
    SymbolRoundTrip(v3);
    Regroup(an, bn, cn);
    assert DecodeGroup(g[0], g[1], g[2], g[3]) == Some([(v0 * 4 + v1 / 16) as byte, ((v1 % 16) * 16 + v2 / 4) as byte, ((v2 % 4) * 64 + v3) as byte]);
  }

  lemma OneByteRoundTrip(a: byte)
    ensures Decode(Encode([a])) == Some([a])
  {
    var an := a as nat;
    SymbolRoundTrip(an / 4);
    SymbolRoundTrip((an % 4) * 16);
    assert ((an % 4) * 16) / 16 == an % 4;
    assert (an / 4 * 4 + an % 4) as byte == a;
  }

  lemma TwoByteRoundTrip(a: byte, b: byte)
    ensures Decode(Encode([a, b])) == Some([a, b])
  {
    var an, bn := a as nat, b as nat;
    SymbolRoundTrip(an / 4);
    SymbolRoundTrip((an % 4) * 16 + bn / 16);
    SymbolRoundTrip((bn % 16) * 4);
    assert ((an % 4) * 16 + bn / 16) / 16 == an % 4;
    assert ((an % 4) * 16 + bn / 16) % 16 == bn / 16;
    assert ((bn % 16) * 4) / 4 == bn % 16;
    assert (an / 4 * 4 + an % 4) as byte == a;
    assert ((bn / 16) * 16 + bn % 16) as byte == b;
  }

  /** Decoding a group followed by more text decodes the group, then the rest. */
  lemma DecodeGroupThen(a: byte, b: byte, c: byte, rest: seq<byte>)
    ensures Decode(EncodeGroup(a, b, c) + rest) ==
      match Decode(rest)
      case Some(r) => Some([a, b, c] + r)
      case None => None
  {
    var g := EncodeGroup(a, b, c);
    var t := g + rest;
    GroupRoundTrip(a, b, c);
    assert t[0] == g[0] && t[1] == g[1] && t[2] == g[2] && t[3] == g[3];
    if |rest| == 0 {
      assert t == g;
      assert g[3] != PAD;
      assert Decode(t) == DecodeGroup(g[0], g[1], g[2], g[3]);
      assert [a, b, c] + rest == [a, b, c];
    } else {
      assert t[4..] == rest;
    }
  }

  /** Decoding undoes encoding, for every byte string. */
  lemma {:induction false} RoundTrip(s: seq<byte>)
    ensures Decode(Encode(s)) == Some(s)
    decreases |s|
  {
    if |s| >= 3 {
      var tail := s[3..];
      RoundTrip(tail);
      GroupThenRest(s[0], s[1], s[2], tail);
      assert Encode(s) == EncodeGroup(s[0], s[1], s[2]) + Encode(tail);
      assert [s[0], s[1], s[2]] + tail == s;
    } else if |s| > 0 {
      ShortRoundTrip(s);
    }
  }

  lemma ShortRoundTrip(s: seq<byte>)
    requires 1 <= |s| <= 2
    ensures Decode(Encode(s)) == Some(s)
  {
    if |s| == 1 {
      assert s == [s[0]];
      OneByteRoundTrip(s[0]);
    } else {
      assert s == [s[0], s[1]];
      TwoByteRoundTrip(s[0], s[1]);
    }
  }

  /** A leading group round-trips in front of a remainder that does. */
  lemma GroupThenRest(a: byte, b: byte, c: byte, tail: seq<byte>)
    requires Decode(Encode(tail)) == Some(tail)
    ensures Decode(EncodeGroup(a, b, c) + Encode(tail)) == Some([a, b, c] + tail)
  {
    DecodeGroupThen(a, b, c, Encode(tail));
  }

  /** Three or more bytes encode as their first group, then the rest. */
  lemma EncodeCons(s: seq<byte>)
    requires |s| >= 3
    ensures Encode(s) == EncodeGroup(s[0], s[1], s[2]) + Encode(s[3..])
  {
  }

  /** Whole groups encode independently of what follows them. */
  lemma {:induction false} EncodeAppend(a: seq<byte>, b: seq<byte>)
    requires |a| % 3 == 0
    ensures Encode(a + b) == Encode(a) + Encode(b)
    decreases |a|
  {
    if |a| == 0 {
      assert a + b == b;
    } else {
      var ab := a + b;
      assert ab[0] == a[0] && ab[1] == a[1] && ab[2] == a[2];
      assert ab[3..] == a[3..] + b;
      EncodeAppend(a[3..], b);
      EncodeCons(ab);
      EncodeCons(a);
    }
  }

  /** A full group holds four alphabet symbols and no pad. */
  lemma GroupAlphabet(a: byte, b: byte, c: byte)
    ensures forall i | 0 <= i < 4 :: EncodeGroup(a, b, c)[i] != PAD && SymbolValue(EncodeGroup(a, b, c)[i]).Some?
  {
    SymbolRoundTrip(a as nat / 4);
    SymbolRoundTrip((a as nat % 4) * 16 + b as nat / 16);
    SymbolRoundTrip((b as nat % 16) * 4 + c as nat / 64);
    SymbolRoundTrip(c as nat % 64);
  }

  /** Every byte of an encoding is an alphabet symbol or the pad, and the pad
      appears only when the input length is not a multiple of three. */
  lemma {:induction false} EncodingAlphabet(s: seq<byte>)
    ensures forall i | 0 <= i < |Encode(s)| :: Encode(s)[i] == PAD || SymbolValue(Encode(s)[i]).Some?
    ensures |s| % 3 == 0 ==> PAD !in Encode(s)
    decreases |s|
  {
    if |s| >= 3 {
      var g, rest := EncodeGroup(s[0], s[1], s[2]), Encode(s[3..]);
      EncodingAlphabet(s[3..]);
      GroupAlphabet(s[0], s[1], s[2]);
      assert Encode(s) == g + rest;
      forall i | 0 <= i < |Encode(s)|
        ensures Encode(s)[i] == PAD || SymbolValue(Encode(s)[i]).Some?
      {
        if i >= 4 {
          assert Encode(s)[i] == rest[i - 4];
        }
      }
      if |s| % 3 == 0 {
        assert PAD !in g;
      }
    } else {
      ShortAlphabet(s);
    }
  }

  /** The last one or two bytes encode as symbols then pads. */
  lemma ShortAlphabet(s: seq<byte>)
    requires |s| < 3
    ensures forall i | 0 <= i < |Encode(s)| :: Encode(s)[i] == PAD || SymbolValue(Encode(s)[i]).Some?
    ensures |s| % 3 == 0 ==> PAD !in Encode(s)
  {
    if |s| == 1 {
      SymbolRoundTrip(s[0] as nat / 4);
      SymbolRoundTrip((s[0] as nat % 4) * 16);
    } else if |s| == 2 {
      SymbolRoundTrip(s[0] as nat / 4);
      SymbolRoundTrip((s[0] as nat % 4) * 16 + s[1] as nat / 16);
      SymbolRoundTrip((s[1] as nat % 16) * 4);
    }
  }

  /** mbedtls' "destination buffer too small" code. */
  const ERR_BUFFER_TOO_SMALL: int := -0x002A

  /** What one call `mbedtls_base64_encode(dst, dlen, &olen, src, slen)` does. */
  datatype EncodeCall =
    | Written(text: seq<byte>)   // returns 0; dst holds `text` and a NUL
    | NothingWritten             // slen == 0: returns 0 and leaves dst untouched
    | TooSmall                   // returns ERR_BUFFER_TOO_SMALL; dst untouched

  /** The library routine: an empty source is reported as success without touching
      the destination, and an encoding that does not fit `dlen` bytes together
      with its terminating NUL is refused. */
  function EncodeInto(dlen: nat, src: seq<byte>): (r: EncodeCall)
    ensures r.Written? ==> |r.text| + 1 <= dlen && r.text == Encode(src)
    ensures r.TooSmall? <==> |src| > 0 && 4 * ((|src| + 2) / 3) + 1 > dlen
    ensures r.NothingWritten? <==> |src| == 0
  {
    if |src| == 0 then NothingWritten
    else if 4 * ((|src| + 2) / 3) + 1 > dlen then TooSmall
    else
      EncodeLength(src);
      Written(Encode(src))
  }
}
