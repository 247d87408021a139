/** The codec's two entry points used one after the other, on the caller's buffers. */
module Base58RoundTrip {
  import opened Positional
  import opened Base58Alphabet
  import opened Base58
  import opened CTypes
  import opened Base58Encoder
  import opened Base58Decoder

  /** The sizing protocol: if a buffer of `guess` characters is too small, one of the size that b58enc
      then reports is not. */
  method EncodeWithRetry(bin: seq<Byte>, guess: nat) returns (b58: array<char>, len: nat)
    requires |bin| * 138 < SIZE_T_SIZE
    ensures fresh(b58) && b58.Length == if |Encode(bin)| < guess then guess else |Encode(bin)| + 1
    ensures len == |Encode(bin)| && b58[..len] == Encode(bin) && b58[len] == '\0'
  {
    var b58sz := new SizeRef(guess);
    b58 := new char[guess](_ => '\0');
    var ok := B58Enc(b58, b58sz, bin);
    if !ok {
      b58 := new char[b58sz.value](_ => '\0');
      ok := B58Enc(b58, b58sz, bin);
    }
    len := b58sz.value - 1;
  }

  /** b58enc, then b58tobin on the text without its NUL, either counted or up to it: the bytes come back at the
      end of the buffer, behind zeros. */
  method EncodeThenDecode(bin: seq<Byte>, guess: nat, counted: bool, decoded: array<Byte>) returns (size: SizeRef)
    requires |bin| <= decoded.Length && (decoded.Length + guess + 4) * 138 < SIZE_T_SIZE
    modifies decoded
    ensures decoded[..] == Zeros(decoded.Length - |bin|) + bin
    ensures size.value == SizeBack(bin)
  {
    hide Encode, SizeBack, Zeros;
    var b58, len := EncodeWithRetry(bin, guess);
    EncodeLength(bin);
    DecodeEncode(bin, decoded.Length);
    size := DecodeText(b58, len, counted, decoded, Encode(bin));
  }

  /** b58tobin on a NUL-terminated text that is known to fit, over the whole buffer. */
  method DecodeText(b58: array<char>, len: nat, counted: bool, decoded: array<Byte>, ghost s: string)
    returns (size: SizeRef)
    requires len < b58.Length && b58[..len] == s && b58[len] == '\0' && Fits(s, decoded.Length)
    requires decoded.Length + b58.Length + 3 < SIZE_T_SIZE
    modifies decoded
    ensures fresh(size) && Decode(s, decoded.Length) == Accepted(decoded[..], size.value)
  {
    hide Fits, Decode;
    TextIsInput(s, b58[len + 1..]);
    FitsIsInAlphabet(s, decoded.Length);
    NoNulInside(s);
    SizeZeroIsInput(s, b58[len + 1..]);
    assert b58[..] == s + ['\0'] + b58[len + 1..];
    size := new SizeRef(decoded.Length);
    FitsIsAccepted(s, decoded.Length);
    var ok := B58ToBin(decoded, size, b58[..], if counted then len else 0);
    assert decoded[..decoded.Length] == decoded[..];
  }

  lemma FitsIsInAlphabet(s: string, binsz: nat)
    requires Fits(s, binsz)
    ensures InAlphabet(s)
  {
  }

  lemma FitsIsAccepted(s: string, binsz: nat)
    ensures Decode(s, binsz).Accepted? <==> Fits(s, binsz)
  {
  }

  /** Up to its NUL, a text is what b58tobin reads; also the empty text, whose size 0 asks for its length. */
  lemma TextIsInput(s: string, rest: string)
    ensures '\0' in s + ['\0'] + rest && Input(s + ['\0'] + rest, |s|) == s
  {
    assert (s + ['\0'] + rest)[|s|] == '\0';
  }

  /** Given a size of 0, b58tobin reads a text up to its NUL. */
  lemma SizeZeroIsInput(s: string, rest: string)
    requires '\0' !in s
    ensures '\0' in s + ['\0'] + rest && Input(s + ['\0'] + rest, 0) == s
  {
    hide StrLen;
    var text := s + ['\0'] + rest;
    assert text[|s|] == '\0';
    var n := StrLen(text);
    forall k | 0 <= k < |s| ensures text[k] != '\0' { assert text[k] == s[k]; }
    forall k | 0 <= k < n ensures text[k] != '\0' { assert text[k] == text[..n][k]; }
    assert text[n] == '\0' && n == |s|;
  }

  /** A text within its string, of whatever size but 0. */
  lemma GivenSizeIsInput(b58: string, b58sz: nat)
    requires 0 < b58sz <= |b58|
    ensures |Input(b58, b58sz)| == b58sz && forall i :: 0 <= i < b58sz ==> Input(b58, b58sz)[i] == b58[i]
  {
  }

  lemma NoNulInside(s: string)
    requires InAlphabet(s)
    ensures '\0' !in s
  {
    assert DigitOf('\0') == -1;
  }

  /** So b58tobin with a size of 0 gives the bytes of a NUL-terminated encoding back. */
  lemma SizeZeroDecodes(bin: seq<Byte>, rest: string, binsz: nat)
    requires |bin| <= binsz
    ensures '\0' in Encode(bin) + ['\0'] + rest
    ensures Decode(Input(Encode(bin) + ['\0'] + rest, 0), binsz) == Accepted(Zeros(binsz - |bin|) + bin, SizeBack(bin))
  {
    hide Encode, Decode, Input;
    EncodeKeeps(bin);
    NoNulInside(Encode(bin));
    SizeZeroIsInput(Encode(bin), rest);
    DecodeEncode(bin, binsz);
  }

  /** The size that b58enc reports counts the NUL; passed on as it is, b58tobin rejects the text. */
  lemma NulIsRejected(bin: seq<Byte>, binsz: nat)
    ensures Decode(Input(Encode(bin) + ['\0'], |Encode(bin)| + 1), binsz) == Rejected
  {
    var s := Encode(bin) + ['\0'];
    assert Input(s, |s|) == s;
    assert DigitOf(s[|s| - 1]) == -1;
  }
}
