/** Base 64 encoding of RFC 4648 section 4, its URL- and filename-safe
    variant of RFC 4648 section 5, and padding as in RFC 4648 section 3.2. */
module Base64 {
  import opened Wrappers
  import opened Octets

  /** The value of one encoded character: six bits. */
  type Sextet = x: int | 0 <= x < 64

  /** RFC 4648 section 4 ("base64") and section 5 ("base64url") differ only in the
      characters for the values 62 and 63. */
  datatype Alphabet = Standard | UrlSafe

  const PadChar: char := '='

  /** The character of `a` for the value `v` (Table 1 or Table 2 of RFC 4648). */
  function Digit(a: Alphabet, v: Sextet): (c: char)
    ensures c != PadChar
    ensures a == UrlSafe ==> IsUrlSafeChar(c)
  {
    if v < 26 then (65 + v) as char
    else if v < 52 then (97 + v - 26) as char
    else if v < 62 then (48 + v - 52) as char
    else if v == 62 then (if a == Standard then '+' else '-')
    else (if a == Standard then '/' else '_')
  }

  /** Characters of the RFC 4648 section 5 alphabet: `A-Z a-z 0-9 - _`. */
  predicate IsUrlSafeChar(c: char) {
    ('A' <= c <= 'Z') || ('a' <= c <= 'z') || ('0' <= c <= '9') || c == '-' || c == '_'
  }

  /** The value a character stands for in `a`, if it belongs to `a`. */
  function Value(a: Alphabet, c: char): (r: Option<Sextet>)
    ensures r.Some? ==> Digit(a, r.value) == c
  {
    if 'A' <= c <= 'Z' then Some(c as int - 65)
    else if 'a' <= c <= 'z' then Some(c as int - 97 + 26)
    else if '0' <= c <= '9' then Some(c as int - 48 + 52)
    else if c == (if a == Standard then '+' else '-') then Some(62)
    else if c == (if a == Standard then '/' else '_') then Some(63)
    else None
  }

  lemma ValueOfDigit(a: Alphabet, v: Sextet)
    ensures Value(a, Digit(a, v)) == Some(v)
  {
  }

  // How three octets are cut into four sextets, and how they are put back.

  function S0(b0: byte): Sextet { b0 as int / 4 }
  function S1(b0: byte, b1: byte): Sextet { (b0 as int % 4) * 16 + b1 as int / 16 }
  function S2(b1: byte, b2: byte): Sextet { (b1 as int % 16) * 4 + b2 as int / 64 }
  function S3(b2: byte): Sextet { b2 as int % 64 }

  function B0(c0: Sextet, c1: Sextet): byte { (c0 * 4 + c1 / 16) as byte }
  function B1(c1: Sextet, c2: Sextet): byte { ((c1 % 16) * 16 + c2 / 4) as byte }
  function B2(c2: Sextet, c3: Sextet): byte { ((c2 % 4) * 64 + c3) as byte }

  /** `n` pad characters when `padded`, none otherwise. */
  function Pad(n: nat, padded: bool): (p: seq<char>)
    ensures |p| == (if padded then n else 0)
    ensures forall i :: 0 <= i < |p| ==> p[i] == PadChar
  {
    if padded then seq(n, _ => PadChar) else []
  }

  /** The number of pad characters that end the padded encoding of `n` octets. */
  function PadCount(n: nat): nat {
    (3 - n % 3) % 3
  }

  /** Encodes `b` with alphabet `a`, appending pad characters when `padded`:
      each 24-bit group becomes four characters, a final group of one octet
      two characters and of two octets three characters (RFC 4648 section 4). */
  function Encode(a: Alphabet, b: seq<byte>, padded: bool): (s: seq<char>)
    decreases |b|
  {
    if |b| == 0 then []
    else if |b| == 1 then
      [Digit(a, S0(b[0])), Digit(a, S1(b[0], 0))] + Pad(2, padded)
    else if |b| == 2 then
      [Digit(a, S0(b[0])), Digit(a, S1(b[0], b[1])), Digit(a, S2(b[1], 0))] + Pad(1, padded)
    else
      [Digit(a, S0(b[0])), Digit(a, S1(b[0], b[1])), Digit(a, S2(b[1], b[2])), Digit(a, S3(b[2]))]
      + Encode(a, b[3..], padded)
  }

  /** The padded encoding of n octets has 4 * ceil(n / 3) characters, the
      unpadded one ceil(4n / 3). */
  lemma {:induction false} EncodeLength(a: Alphabet, b: seq<byte>, padded: bool)
    ensures padded ==> |Encode(a, b, padded)| == 4 * ((|b| + 2) / 3)
    ensures !padded ==> |Encode(a, b, padded)| == (4 * |b| + 2) / 3
    decreases |b|
  {
    if |b| >= 3 {
      EncodeLength(a, b[3..], padded);
      var n := |b| - 3;
      assert (|b| + 2) / 3 == (n + 2) / 3 + 1;
      assert (4 * |b| + 2) / 3 == (4 * n + 2) / 3 + 4;
    }
  }

  /** Every character of an encoding is a character of its alphabet or a pad,
      and an unpadded encoding has no pad character. */
  lemma {:induction false} EncodeAlphabet(a: Alphabet, b: seq<byte>, padded: bool)
    ensures forall i :: 0 <= i < |Encode(a, b, padded)| ==>
              Encode(a, b, padded)[i] == PadChar || Value(a, Encode(a, b, padded)[i]).Some?
    ensures !padded ==> forall i :: 0 <= i < |Encode(a, b, padded)| ==> Encode(a, b, padded)[i] != PadChar
    decreases |b|
  {
    var s := Encode(a, b, padded);
    if |b| == 1 {
      ValueOfDigit(a, S0(b[0]));
      ValueOfDigit(a, S1(b[0], 0));
    } else if |b| == 2 {
      ValueOfDigit(a, S0(b[0]));
      ValueOfDigit(a, S1(b[0], b[1]));
      ValueOfDigit(a, S2(b[1], 0));
    } else if |b| >= 3 {
      ValueOfDigit(a, S0(b[0]));
      ValueOfDigit(a, S1(b[0], b[1]));
      ValueOfDigit(a, S2(b[1], b[2]));
      ValueOfDigit(a, S3(b[2]));
      EncodeAlphabet(a, b[3..], padded);
      var t := Encode(a, b[3..], padded);
      assert s[4..] == t;
      forall i | 4 <= i < |s|
        ensures s[i] == t[i - 4]
      {
      }
    }
  }

  /** Decodes padded text of alphabet `a`. The decoder is strict: the length
      must be a multiple of four, pad characters may only end the last group,
      and the bits a final group does not use must be zero (RFC 4648 section 3.5). */
  function Decode(a: Alphabet, s: seq<char>): (r: Option<seq<byte>>)
    decreases |s|
  {
    if |s| == 0 then Some([])
    else if |s| < 4 then None
    else
      var v0, v1, v2, v3 := Value(a, s[0]), Value(a, s[1]), Value(a, s[2]), Value(a, s[3]);
      if v0.None? || v1.None? then None
      else if s[2] == PadChar && s[3] == PadChar then
        if |s| == 4 && v1.value % 16 == 0 then Some([B0(v0.value, v1.value)]) else None
      else if v2.None? then None
      else if s[3] == PadChar then
        if |s| == 4 && v2.value % 4 == 0 then Some([B0(v0.value, v1.value), B1(v1.value, v2.value)])
        else None
      else if v3.None? then None
      else
        match Decode(a, s[4..])
        case None => None
        case Some(rest) =>
          Some([B0(v0.value, v1.value), B1(v1.value, v2.value), B2(v2.value, v3.value)] + rest)
  }

  lemma SplitJoin(b0: byte, b1: byte, b2: byte)
    ensures B0(S0(b0), S1(b0, b1)) == b0
    ensures B1(S1(b0, b1), S2(b1, b2)) == b1
    ensures B2(S2(b1, b2), S3(b2)) == b2
  {
  }

  lemma JoinSplit(c0: Sextet, c1: Sextet, c2: Sextet, c3: Sextet)
    ensures S0(B0(c0, c1)) == c0
    ensures S1(B0(c0, c1), B1(c1, c2)) == c1
    ensures S2(B1(c1, c2), B2(c2, c3)) == c2
    ensures S3(B2(c2, c3)) == c3
    ensures c1 % 16 == 0 ==> S1(B0(c0, c1), 0) == c1
    ensures c2 % 4 == 0 ==> S2(B1(c1, c2), 0) == c2
  {
  }

  /** Decoding the padded encoding gives back the octets. */
  lemma {:induction false} DecodeEncode(a: Alphabet, b: seq<byte>)
    ensures Decode(a, Encode(a, b, true)) == Some(b)
    decreases |b|
  {
    if |b| == 1 {
      DecodeEncodeOne(a, b[0]);
      assert b == [b[0]];
    } else if |b| == 2 {
      DecodeEncodeTwo(a, b[0], b[1]);
      assert b == [b[0], b[1]];
    } else if |b| >= 3 {
      DecodeEncodeStep(a, b);
    }
  }

  lemma DecodeEncodeStep(a: Alphabet, b: seq<byte>)
    requires |b| >= 3
    ensures Decode(a, Encode(a, b, true)) == Some(b)
    decreases |b|, 0
  {
    var rest := b[3..];
    assert [b[0], b[1], b[2]] + rest == b;
    EncodeGroup(a, b[0], b[1], b[2], rest, true);
    DecodeEncode(a, rest);
    DecodeEncodeGroup(a, b[0], b[1], b[2], Encode(a, rest, true));
  }

  lemma DecodeEncodeOne(a: Alphabet, b0: byte)
    ensures Decode(a, Encode(a, [b0], true)) == Some([b0])
  {
    var c0, c1 := S0(b0), S1(b0, 0);
    var s := [Digit(a, c0), Digit(a, c1), PadChar, PadChar];
    assert Encode(a, [b0], true) == s;
    PartialOne(b0);
    ValueOfDigit(a, c0);
    ValueOfDigit(a, c1);
    assert Value(a, s[0]) == Some(c0) && Value(a, s[1]) == Some(c1);
    assert Decode(a, s) == Some([B0(c0, c1)]);
  }

  lemma PartialOne(b0: byte)
    ensures S1(b0, 0) % 16 == 0
    ensures B0(S0(b0), S1(b0, 0)) == b0
  {
    var q := b0 as int % 4;
    assert S1(b0, 0) == q * 16;
    assert q == 0 || q == 1 || q == 2 || q == 3;
  }

  lemma DecodeEncodeTwo(a: Alphabet, b0: byte, b1: byte)
    ensures Decode(a, Encode(a, [b0, b1], true)) == Some([b0, b1])
  {
    var s := Encode(a, [b0, b1], true);
    SplitJoin(b0, b1, 0);
    ValueOfDigit(a, S0(b0));
    ValueOfDigit(a, S1(b0, b1));
    ValueOfDigit(a, S2(b1, 0));
    assert s == [Digit(a, S0(b0)), Digit(a, S1(b0, b1)), Digit(a, S2(b1, 0)), PadChar];
  }

  lemma DecodeEncodeGroup(a: Alphabet, b0: byte, b1: byte, b2: byte, rest: seq<char>)
    ensures Decode(a, [Digit(a, S0(b0)), Digit(a, S1(b0, b1)), Digit(a, S2(b1, b2)), Digit(a, S3(b2))] + rest)
         == match Decode(a, rest)
            case None => None
            case Some(r) => Some([b0, b1, b2] + r)
  {
    var q := [Digit(a, S0(b0)), Digit(a, S1(b0, b1)), Digit(a, S2(b1, b2)), Digit(a, S3(b2))];
    var s := q + rest;
    SplitJoin(b0, b1, b2);
    ValueOfDigit(a, S0(b0));
    ValueOfDigit(a, S1(b0, b1));
    ValueOfDigit(a, S2(b1, b2));
    ValueOfDigit(a, S3(b2));
    assert s[4..] == rest;
    assert s[0] == q[0] && s[1] == q[1] && s[2] == q[2] && s[3] == q[3];
  }

  /** Whatever the strict decoder accepts is exactly the encoding of what it returns. */
  lemma {:induction false} EncodeDecode(a: Alphabet, s: seq<char>)
    requires Decode(a, s).Some?
    ensures Encode(a, Decode(a, s).value, true) == s
    decreases |s|
  {
    if |s| > 0 {
      var v0, v1, v2, v3 := Value(a, s[0]), Value(a, s[1]), Value(a, s[2]), Value(a, s[3]);
      if s[2] == PadChar && s[3] == PadChar {
        EncodeDecodeOne(a, s, v0.value, v1.value);
      } else if s[3] == PadChar {
        EncodeDecodeTwo(a, s, v0.value, v1.value, v2.value);
      } else {
        EncodeDecode(a, s[4..]);
        EncodeDecodeGroup(a, s, v0.value, v1.value, v2.value, v3.value);
      }
    }
  }

  lemma SeqOfFour(s: seq<char>)
    requires |s| == 4
    ensures s == [s[0], s[1], s[2], s[3]]
  {
  }

  lemma DecodeOne(a: Alphabet, s: seq<char>, c0: Sextet, c1: Sextet)
    requires |s| == 4 && s[2] == PadChar && s[3] == PadChar && c1 % 16 == 0
    requires Value(a, s[0]) == Some(c0) && Value(a, s[1]) == Some(c1)
    ensures Decode(a, s) == Some([B0(c0, c1)])
  {
  }

  lemma DecodeTwo(a: Alphabet, s: seq<char>, c0: Sextet, c1: Sextet, c2: Sextet)
    requires |s| == 4 && s[2] != PadChar && s[3] == PadChar && c2 % 4 == 0
    requires Value(a, s[0]) == Some(c0) && Value(a, s[1]) == Some(c1) && Value(a, s[2]) == Some(c2)
    ensures Decode(a, s) == Some([B0(c0, c1), B1(c1, c2)])
  {
  }

  lemma DecodeGroup(a: Alphabet, s: seq<char>, c0: Sextet, c1: Sextet, c2: Sextet, c3: Sextet)
    requires |s| >= 4 && s[2] != PadChar && s[3] != PadChar
    requires Value(a, s[0]) == Some(c0) && Value(a, s[1]) == Some(c1)
    requires Value(a, s[2]) == Some(c2) && Value(a, s[3]) == Some(c3)
    ensures Decode(a, s) == match Decode(a, s[4..])
                            case None => None
                            case Some(r) => Some([B0(c0, c1), B1(c1, c2), B2(c2, c3)] + r)
  {
  }

  lemma EncodeOne(a: Alphabet, b0: byte)
    ensures Encode(a, [b0], true) == [Digit(a, S0(b0)), Digit(a, S1(b0, 0)), PadChar, PadChar]
  {
  }

  lemma EncodeTwo(a: Alphabet, b0: byte, b1: byte)
    ensures Encode(a, [b0, b1], true) == [Digit(a, S0(b0)), Digit(a, S1(b0, b1)), Digit(a, S2(b1, 0)), PadChar]
  {
  }

  lemma EncodeGroup(a: Alphabet, b0: byte, b1: byte, b2: byte, rest: seq<byte>, padded: bool)
    ensures Encode(a, [b0, b1, b2] + rest, padded)
         == [Digit(a, S0(b0)), Digit(a, S1(b0, b1)), Digit(a, S2(b1, b2)), Digit(a, S3(b2))] + Encode(a, rest, padded)
  {
    assert ([b0, b1, b2] + rest)[3..] == rest;
  }

  lemma EncodeDecodeOne(a: Alphabet, s: seq<char>, c0: Sextet, c1: Sextet)
    requires |s| == 4 && s[2] == PadChar && s[3] == PadChar && c1 % 16 == 0
    requires Value(a, s[0]) == Some(c0) && Value(a, s[1]) == Some(c1)
    ensures Decode(a, s) == Some([B0(c0, c1)])
    ensures Encode(a, [B0(c0, c1)], true) == s
  {
    DecodeOne(a, s, c0, c1);
    EncodeJoinedOne(a, s, c0, c1);
  }

  lemma EncodeJoinedOne(a: Alphabet, s: seq<char>, c0: Sextet, c1: Sextet)
    requires |s| == 4 && s[2] == PadChar && s[3] == PadChar && c1 % 16 == 0
    requires s[0] == Digit(a, c0) && s[1] == Digit(a, c1)
    ensures Encode(a, [B0(c0, c1)], true) == s
  {
    JoinSplit(c0, c1, 0, 0);
    EncodeOne(a, B0(c0, c1));
    assert Encode(a, [B0(c0, c1)], true) == [Digit(a, c0), Digit(a, c1), PadChar, PadChar];
    SeqOfFour(s);
  }

  lemma EncodeDecodeTwo(a: Alphabet, s: seq<char>, c0: Sextet, c1: Sextet, c2: Sextet)
    requires |s| == 4 && s[2] != PadChar && s[3] == PadChar && c2 % 4 == 0
    requires Value(a, s[0]) == Some(c0) && Value(a, s[1]) == Some(c1) && Value(a, s[2]) == Some(c2)
    ensures Decode(a, s) == Some([B0(c0, c1), B1(c1, c2)])
    ensures Encode(a, [B0(c0, c1), B1(c1, c2)], true) == s
  {
    DecodeTwo(a, s, c0, c1, c2);
    JoinSplit(c0, c1, c2, 0);
    EncodeTwo(a, B0(c0, c1), B1(c1, c2));
    SeqOfFour(s);
  }

  lemma EncodeDecodeGroup(a: Alphabet, s: seq<char>, c0: Sextet, c1: Sextet, c2: Sextet, c3: Sextet)
    requires Decode(a, s).Some? && |s| >= 4 && s[2] != PadChar && s[3] != PadChar
    requires Value(a, s[0]) == Some(c0) && Value(a, s[1]) == Some(c1)
    requires Value(a, s[2]) == Some(c2) && Value(a, s[3]) == Some(c3)
    requires Decode(a, s[4..]).Some? && Encode(a, Decode(a, s[4..]).value, true) == s[4..]
    ensures Encode(a, Decode(a, s).value, true) == s
  {
    var rest := Decode(a, s[4..]).value;
    var b0, b1, b2 := B0(c0, c1), B1(c1, c2), B2(c2, c3);
    DecodeGroup(a, s, c0, c1, c2, c3);
    JoinSplit(c0, c1, c2, c3);
    EncodeGroup(a, b0, b1, b2, rest, true);
    SeqOfFour(s[..4]);
    assert s[..4] + s[4..] == s;
  }
}
