/** The `raw` field handed to the mail API: the message octets turned into
    base64 (RFC 4648 section 4) by the runtime, then rewritten with two global replaces and a
    trailing-pad strip (index.js:117-126). */
module RawMessage {
  import opened Wrappers
  import opened Octets
  import opened Base64

  /** `s.replace(/x/g, y)` for a one-character pattern: every `x` becomes `y`. */
  function ReplaceAll(s: string, x: char, y: char): (r: string)
    ensures |r| == |s|
    ensures forall i :: 0 <= i < |s| ==> r[i] == (if s[i] == x then y else s[i])
    decreases |s|
  {
    if |s| == 0 then [] else [if s[0] == x then y else s[0]] + ReplaceAll(s[1..], x, y)
  }

  /** `s.replace(/c+$/, "")`: the leftmost match of `c+$` is the longest run of
      `c` that ends `s`, and it is removed. */
  function TrimTrailing(s: string, c: char): (r: string)
    ensures r <= s
    ensures forall i :: |r| <= i < |s| ==> s[i] == c
    ensures |r| == 0 || r[|r| - 1] != c
    decreases |s|
  {
    if |s| > 0 && s[|s| - 1] == c then TrimTrailing(s[..|s| - 1], c) else s
  }

  /** The value computed at index.js:117-126 from the message octets. */
  function Raw(message: seq<byte>): string {
    var standard := Encode(Standard, message, true);
    TrimTrailing(ReplaceAll(ReplaceAll(standard, '+', '-'), '/', '_'), PadChar)
  }

  /** Appends the pad characters an unpadded text of this length lacks
      (section 3.2 of RFC 4648). */
  function RestorePadding(raw: string): (p: string)
    ensures |p| % 4 == 0
    ensures raw <= p
  {
    raw + Pad((4 - |raw| % 4) % 4, true)
  }

  /** Decodes unpadded base64url text: pad characters are not part of it,
      so any `=` rejects it; otherwise padding is restored and the text is
      decoded with the RFC 4648 section 5 alphabet. */
  function DecodeRaw(raw: string): Option<seq<byte>> {
    if PadChar in raw then None else Decode(UrlSafe, RestorePadding(raw))
  }

  /** The runtime's character swap on one character. */
  function Swap(c: char): char {
    if c == '+' then '-' else if c == '/' then '_' else c
  }

  lemma DigitSwap(v: Sextet)
    ensures Digit(UrlSafe, v) == Swap(Digit(Standard, v))
  {
  }

  /** The RFC 4648 section 5 encoding is the section 4 encoding with `+` and `/` swapped. */
  lemma {:induction false} EncodeSwap(b: seq<byte>, padded: bool)
    ensures |Encode(UrlSafe, b, padded)| == |Encode(Standard, b, padded)|
    ensures forall i :: 0 <= i < |Encode(UrlSafe, b, padded)| ==>
              Encode(UrlSafe, b, padded)[i] == Swap(Encode(Standard, b, padded)[i])
    decreases |b|
  {
    if |b| == 1 {
      DigitSwap(S0(b[0]));
      DigitSwap(S1(b[0], 0));
    } else if |b| == 2 {
      DigitSwap(S0(b[0]));
      DigitSwap(S1(b[0], b[1]));
      DigitSwap(S2(b[1], 0));
    } else if |b| >= 3 {
      DigitSwap(S0(b[0]));
      DigitSwap(S1(b[0], b[1]));
      DigitSwap(S2(b[1], b[2]));
      DigitSwap(S3(b[2]));
      EncodeSwap(b[3..], padded);
      var u, s := Encode(UrlSafe, b, padded), Encode(Standard, b, padded);
      var u', s' := Encode(UrlSafe, b[3..], padded), Encode(Standard, b[3..], padded);
      assert u[4..] == u' && s[4..] == s';
      forall i | 0 <= i < |u|
        ensures u[i] == Swap(s[i])
      {
        if i >= 4 {
          assert u[i] == u'[i - 4] && s[i] == s'[i - 4];
        }
      }
    }
  }

  /** A padded encoding is the unpadded one followed by `PadCount` pad characters. */
  lemma {:induction false} PaddedIsUnpaddedPlusPad(a: Alphabet, b: seq<byte>)
    ensures Encode(a, b, true) == Encode(a, b, false) + Pad(PadCount(|b|), true)
    decreases |b|
  {
    if 1 <= |b| <= 2 {
      PaddedShort(a, b);
    } else if |b| >= 3 {
      PaddedIsUnpaddedPlusPad(a, b[3..]);
      PaddedStep(a, b);
    }
  }

  lemma PaddedShort(a: Alphabet, b: seq<byte>)
    requires 1 <= |b| <= 2
    ensures Encode(a, b, true) == Encode(a, b, false) + Pad(PadCount(|b|), true)
  {
    if |b| == 1 {
      assert Encode(a, b, false) == [Digit(a, S0(b[0])), Digit(a, S1(b[0], 0))];
    } else {
      assert Encode(a, b, false) == [Digit(a, S0(b[0])), Digit(a, S1(b[0], b[1])), Digit(a, S2(b[1], 0))];
    }
  }

  lemma PaddedStep(a: Alphabet, b: seq<byte>)
    requires |b| >= 3
    requires Encode(a, b[3..], true) == Encode(a, b[3..], false) + Pad(PadCount(|b[3..]|), true)
    ensures Encode(a, b, true) == Encode(a, b, false) + Pad(PadCount(|b|), true)
  {
    var t := b[3..];
    var g := [Digit(a, S0(b[0])), Digit(a, S1(b[0], b[1])), Digit(a, S2(b[1], b[2])), Digit(a, S3(b[2]))];
    var p := Pad(PadCount(|t|), true);
    assert [b[0], b[1], b[2]] + t == b;
    EncodeGroup(a, b[0], b[1], b[2], t, true);
    EncodeGroup(a, b[0], b[1], b[2], t, false);
    assert Encode(a, b, true) == g + (Encode(a, t, false) + p);
    assert g + (Encode(a, t, false) + p) == (g + Encode(a, t, false)) + p;
    PadCountStep(|t|);
  }

  lemma PadCountStep(n: nat)
    ensures PadCount(n + 3) == PadCount(n)
  {
  }

  /** Stripping trailing pad characters off `x` followed by pads gives `x`
      back when `x` itself does not end in a pad character. */
  lemma {:induction false} TrimPadded(x: string, n: nat)
    requires |x| == 0 || x[|x| - 1] != PadChar
    ensures TrimTrailing(x + Pad(n, true), PadChar) == x
    decreases n
  {
    var s := x + Pad(n, true);
    if n == 0 {
      assert s == x;
    } else {
      assert s[|s| - 1] == PadChar;
      assert s[..|s| - 1] == x + Pad(n - 1, true);
      TrimPadded(x, n - 1);
    }
  }

  /** What the handler sends is the unpadded RFC 4648 section 5 encoding of the message. */
  lemma RawIsUnpaddedBase64Url(message: seq<byte>)
    ensures Raw(message) == Encode(UrlSafe, message, false)
  {
    var standard := Encode(Standard, message, true);
    var swapped := ReplaceAll(ReplaceAll(standard, '+', '-'), '/', '_');
    EncodeSwap(message, true);
    assert swapped == Encode(UrlSafe, message, true);
    PaddedIsUnpaddedPlusPad(UrlSafe, message);
    TrimPadded(Encode(UrlSafe, message, false), PadCount(|message|));
  }

  /** `raw` uses only `A-Z a-z 0-9 - _`, and for an n-octet message it is
      ceil(4n/3) characters long: the padded length less the stripped pads. */
  lemma RawAlphabetAndLength(message: seq<byte>)
    ensures forall i :: 0 <= i < |Raw(message)| ==> IsUrlSafeChar(Raw(message)[i])
    ensures |Raw(message)| == (4 * |message| + 2) / 3
    ensures |Raw(message)| == 4 * ((|message| + 2) / 3) - PadCount(|message|)
  {
    RawIsUnpaddedBase64Url(message);
    PaddedIsUnpaddedPlusPad(UrlSafe, message);
    EncodeLength(UrlSafe, message, false);
    EncodeLength(UrlSafe, message, true);
    EncodeAlphabet(UrlSafe, message, false);
    var raw := Raw(message);
    forall i | 0 <= i < |raw|
      ensures IsUrlSafeChar(raw[i])
    {
      var v := Value(UrlSafe, raw[i]);
      assert v.Some?;
      assert Digit(UrlSafe, v.value) == raw[i];
    }
  }

  lemma RestoreLength(n: nat)
    ensures (4 - ((4 * n + 2) / 3) % 4) % 4 == PadCount(n)
  {
    var k := n / 3;
    if n % 3 == 0 {
      assert n == 3 * k;
      assert (4 * n + 2) / 3 == 4 * k;
    } else if n % 3 == 1 {
      assert n == 3 * k + 1;
      assert (4 * n + 2) / 3 == 4 * k + 2;
    } else {
      assert n == 3 * k + 2;
      assert (4 * n + 2) / 3 == 4 * k + 3;
    }
  }

  lemma RestoreUnpadded(message: seq<byte>)
    ensures RestorePadding(Encode(UrlSafe, message, false)) == Encode(UrlSafe, message, true)
  {
    EncodeLength(UrlSafe, message, false);
    RestoreLength(|message|);
    PaddedIsUnpaddedPlusPad(UrlSafe, message);
  }

  /** Restoring the padding and decoding `raw` yields exactly the message octets. */
  lemma DecodeRawInvertsRaw(message: seq<byte>)
    ensures DecodeRaw(Raw(message)) == Some(message)
  {
    var raw := Raw(message);
    RawIsUnpaddedBase64Url(message);
    EncodeAlphabet(UrlSafe, message, false);
    assert PadChar !in raw;
    RestoreUnpadded(message);
    DecodeEncode(UrlSafe, message);
  }

  /** Conversely, whatever `DecodeRaw` accepts is the `Raw` of what it returns:
      each message has exactly one `raw` form. */
  lemma RawInvertsDecodeRaw(raw: string)
    requires DecodeRaw(raw).Some?
    ensures Raw(DecodeRaw(raw).value) == raw
  {
    var message := DecodeRaw(raw).value;
    var n := (4 - |raw| % 4) % 4;
    EncodeDecode(UrlSafe, RestorePadding(raw));
    assert Encode(UrlSafe, message, true) == raw + Pad(n, true);
    PaddedIsUnpaddedPlusPad(UrlSafe, message);
    RawIsUnpaddedBase64Url(message);
    assert |raw| == 0 || raw[|raw| - 1] != PadChar;
    TrimPadded(raw, n);
    TrimPadded(Encode(UrlSafe, message, false), PadCount(|message|));
  }
}
