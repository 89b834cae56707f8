/** The short-code generator: `length` random bytes, hex-encoded (two
    lower-case digits per byte, high nibble first), cut to `length`
    characters. The random source is a parameter. */
module CodeGenerator {

  newtype byte = x: int | 0 <= x < 256

  /** The length used when none is given. */
  const DefaultLength: nat := 6

  predicate IsLowerHexDigit(c: char) {
    ('0' <= c <= '9') || ('a' <= c <= 'f')
  }

  /** The digit of a nibble, as Node's `toString('hex')` writes it. */
  function HexDigit(n: int): (c: char)
    requires 0 <= n < 16
    ensures IsLowerHexDigit(c)
    ensures n < 10 ==> c as int == '0' as int + n
    ensures 10 <= n ==> c as int == 'a' as int + (n - 10)
  {
    "0123456789abcdef"[n]
  }

  /** The nibble a lower-case hex digit stands for. */
  function HexValue(c: char): (n: int)
    requires IsLowerHexDigit(c)
    ensures 0 <= n < 16
  {
    if c <= '9' then c as int - '0' as int else c as int - 'a' as int + 10
  }

  lemma HexValueOfDigit(n: int)
    requires 0 <= n < 16
    ensures HexValue(HexDigit(n)) == n
  {
  }

  predicate AllLowerHex(s: string) {
    forall i :: 0 <= i < |s| ==> IsLowerHexDigit(s[i])
  }

  /** Hex encoding of a byte sequence: two characters per byte, high nibble first. */
  function HexEncode(bytes: seq<byte>): (s: string)
    ensures |s| == 2 * |bytes|
    ensures AllLowerHex(s)
  {
    if bytes == [] then ""
    else [HexDigit(bytes[0] as int / 16), HexDigit(bytes[0] as int % 16)] + HexEncode(bytes[1..])
  }

  /** Byte `i` is written at positions `2 i` (high nibble) and `2 i + 1` (low nibble). */
  lemma {:induction false} HexEncodeAt(bytes: seq<byte>, i: nat)
    requires i < |bytes|
    ensures HexEncode(bytes)[2 * i] == HexDigit(bytes[i] as int / 16)
    ensures HexEncode(bytes)[2 * i + 1] == HexDigit(bytes[i] as int % 16)
  {
    if i > 0 {
      HexEncodeAt(bytes[1..], i - 1);
      assert HexEncode(bytes)[2 * i] == HexEncode(bytes[1..])[2 * (i - 1)];
      assert HexEncode(bytes)[2 * i + 1] == HexEncode(bytes[1..])[2 * (i - 1) + 1];
    }
  }

  /** Hex decoding, the inverse of HexEncode. */
  function HexDecode(s: string): (bytes: seq<byte>)
    requires |s| % 2 == 0 && AllLowerHex(s)
    ensures 2 * |bytes| == |s|
  {
    if s == [] then []
    else [(16 * HexValue(s[0]) + HexValue(s[1])) as byte] + HexDecode(s[2..])
  }

  /** Decoding undoes encoding. */
  lemma {:induction false} DecodeEncode(bytes: seq<byte>)
    ensures HexDecode(HexEncode(bytes)) == bytes
  {
    if bytes != [] {
      var b := bytes[0] as int;
      var s := HexEncode(bytes);
      assert s[2..] == HexEncode(bytes[1..]);
      HexValueOfDigit(b / 16);
      HexValueOfDigit(b % 16);
      assert (16 * HexValue(s[0]) + HexValue(s[1])) == b;
      DecodeEncode(bytes[1..]);
    }
  }

  /** `generateUniqueCode(length)`. `randomBytes` stands for `randomBytes(length)`,
      so it holds exactly `length` bytes. */
  function GenerateUniqueCode(randomBytes: seq<byte>, length: nat := DefaultLength): (code: string)
    requires |randomBytes| == length
    ensures |code| == length
    ensures AllLowerHex(code)
    ensures forall i :: 0 <= i < length ==>
              code[i] == if i % 2 == 0 then HexDigit(randomBytes[i / 2] as int / 16)
                         else HexDigit(randomBytes[i / 2] as int % 16)
  {
    var hex := HexEncode(randomBytes);
    var code := hex[..length];
    assert forall i :: 0 <= i < length ==>
        code[i] == if i % 2 == 0 then HexDigit(randomBytes[i / 2] as int / 16)
                   else HexDigit(randomBytes[i / 2] as int % 16) by {
      forall i | 0 <= i < length
        ensures code[i] == if i % 2 == 0 then HexDigit(randomBytes[i / 2] as int / 16)
                           else HexDigit(randomBytes[i / 2] as int % 16)
      {
        HexEncodeAt(randomBytes, i / 2);
      }
    }
    code
  }

  /** The code spells out the leading random bytes: its even-length prefix
      decodes to the first `length / 2` bytes. */
  lemma CodeDecodesToRandomPrefix(randomBytes: seq<byte>, length: nat)
    requires |randomBytes| == length
    ensures var code := GenerateUniqueCode(randomBytes, length);
            var even := length - length % 2;
            HexDecode(code[..even]) == randomBytes[..length / 2]
  {
    var code := GenerateUniqueCode(randomBytes, length);
    var even := length - length % 2;
    var front := randomBytes[..length / 2];
    assert code[..even] == HexEncode(front) by {
      forall i | 0 <= i < even ensures code[..even][i] == HexEncode(front)[i] {
        HexEncodeAt(front, i / 2);
      }
    }
    DecodeEncode(front);
  }
}
