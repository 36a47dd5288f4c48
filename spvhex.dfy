/**
 * The SPIR-V to C converter of the hello_xr sample: a compiled shader, a byte
 * string whose length must be a multiple of 4, becomes the text of a C
 * `uint32_t` array body, one `0x%08x,` token per little-endian word, eight
 * tokens to a line, with a final newline.
 */
module SpvHex {
  import opened Native
  import opened Pixels

  /** Either the text written to the output file or the size error raised before writing. */
  datatype Outcome = Written(text: string) | SizeError(size: nat)

  /** `int.from_bytes(b, byteorder='little')` for four bytes. */
  function LeWord(b: seq<byte>): (w: nat)
    requires |b| == 4
    ensures w < Two32
  {
    var b0, b1, b2, b3: int := b[0], b[1], b[2], b[3];
    b0 + 256 * b1 + 65536 * b2 + 16777216 * b3
  }

  /** Word `k` of the input. */
  function Word(data: seq<byte>, k: nat): nat
    requires 4 * k + 4 <= |data|
  {
    LeWord(data[4 * k..4 * k + 4])
  }

  /** The four bytes of a word, least significant first. */
  function LeBytes(w: nat): seq<byte>
  {
    [w % 256, (w / 256) % 256, (w / 65536) % 256, (w / 16777216) % 256]
  }

  predicate IsHexDigit(c: char)
  {
    '0' <= c <= '9' || 'a' <= c <= 'f'
  }

  /** The lower-case hexadecimal digit of `d`. */
  function HexDigit(d: nat): (c: char)
    requires d < 16
    ensures IsHexDigit(c) && DigitValue(c) == d
  {
    if d < 10 then ('0' as int + d) as char else ('a' as int + d - 10) as char
  }

  /** The value of a hexadecimal digit. */
  function DigitValue(c: char): nat
  {
    if '0' <= c <= '9' then c as int - '0' as int
    else if 'a' <= c <= 'f' then c as int - 'a' as int + 10
    else 0
  }

  function Pow16(n: nat): nat
  {
    if n == 0 then 1 else 16 * Pow16(n - 1)
  }

  /** `v` written with exactly `n` hexadecimal digits, zero-padded on the left. */
  function HexN(v: nat, n: nat): (s: string)
    ensures |s| == n
  {
    if n == 0 then [] else HexN(v / 16, n - 1) + [HexDigit(v % 16)]
  }

  lemma {:induction false} HexNDigits(v: nat, n: nat)
    ensures forall i :: 0 <= i < n ==> IsHexDigit(HexN(v, n)[i])
  {
    if n > 0 {
      HexNDigits(v / 16, n - 1);
    }
  }

  /** The value of a string of hexadecimal digits. */
  function ParseHex(s: string): nat
  {
    if s == [] then 0 else 16 * ParseHex(s[..|s| - 1]) + DigitValue(s[|s| - 1])
  }

  /** Reading the digits back gives the value, when it fits in `n` digits. */
  lemma {:induction false} ParseHexN(v: nat, n: nat)
    requires v < Pow16(n)
    ensures ParseHex(HexN(v, n)) == v
  {
    if n > 0 {
      var s := HexN(v, n);
      assert s[..n - 1] == HexN(v / 16, n - 1);
      ParseHexN(v / 16, n - 1);
    }
  }

  /** The number of hexadecimal digits of a 32-bit word. */
  const WordDigits: nat := 8

  /** `f"0x{w:08x},"` */
  function Token(w: nat): (t: string)
    requires w < Two32
    ensures |t| == 11
  {
    "0x" + HexN(w, WordDigits) + ","
  }

  /** A token is `0x`, eight lower-case hexadecimal digits that read back as the word, and a comma. */
  lemma TokenFormat(w: nat)
    requires w < Two32
    ensures var t := Token(w);
      t[0] == '0' && t[1] == 'x' && t[10] == ','
      && (forall i :: 2 <= i < 10 ==> IsHexDigit(t[i]))
      && ParseHex(t[2..10]) == w
  {
    var digits := HexN(w, WordDigits);
    assert Pow16(WordDigits) == Two32 by {
      assert Pow16(8) == Two32;
    }
    ParseHexN(w, WordDigits);
    HexNDigits(w, WordDigits);
    assert Token(w)[2..10] == digits;
  }

  /** What follows the `k`-th token (counting from 1): a newline after every eighth, else a space. */
  function Separator(k: nat): char
  {
    if k % 8 == 0 then '\n' else ' '
  }

  /** The token of word `k` with its separator. */
  function Chunk(data: seq<byte>, k: nat): (c: string)
    requires 4 * k + 4 <= |data|
    ensures |c| == 12
  {
    Token(Word(data, k)) + [Separator(k + 1)]
  }

  /** The digits of a chunk read back as its word. */
  lemma ChunkValue(data: seq<byte>, k: nat)
    requires 4 * k + 4 <= |data|
    ensures TokenValue(Chunk(data, k)) == Word(data, k)
  {
    var token := Token(Word(data, k));
    TokenFormat(Word(data, k));
    assert (token + [Separator(k + 1)])[2..10] == token[2..10];
  }

  /** The value of the hexadecimal digits of a token. */
  function TokenValue(chunk: string): nat
    requires |chunk| >= 10
  {
    ParseHex(chunk[2..10])
  }

  /** The text for the first `m` words. */
  function EncodeWords(data: seq<byte>, m: nat): (t: string)
    requires 4 * m <= |data|
    ensures |t| == 12 * m
  {
    if m == 0 then [] else EncodeWords(data, m - 1) + Chunk(data, m - 1)
  }

  /** What the converter does with the input bytes. */
  function Convert(data: seq<byte>): Outcome
  {
    if |data| % 4 != 0 then SizeError(|data|) else Written(EncodeWords(data, |data| / 4) + "\n")
  }

  /** The loop of the converter: one token and one separator per word, then a final newline. */
  method ConvertSpvToHex(data: seq<byte>) returns (r: Outcome)
    ensures r == Convert(data)
  {
    if |data| % 4 != 0 {
      return SizeError(|data|);
    }
    ghost var n := |data| / 4;
    var out: string := [];
    var i := 0;
    ghost var k := 0;
    while i < |data|
      invariant i == 4 * k && k <= n
      invariant out == EncodeWords(data, k)
    {
      assert i / 4 == k;
      EncodeWordsNext(data, k);
      var word := LeWord(data[i..i + 4]);
      out := out + Token(word);
      if (i / 4 + 1) % 8 == 0 {
        out := out + "\n";
      } else {
        out := out + " ";
      }
      i, k := i + 4, k + 1;
    }
    r := Written(out + "\n");
  }

  /** The input is refused exactly when its length is not a multiple of 4. */
  lemma ConvertFailsOnPartialWord(data: seq<byte>)
    ensures Convert(data).SizeError? <==> |data| % 4 != 0
    ensures Convert(data).SizeError? ==> Convert(data).size == |data|
  {
  }

  /** Twelve characters per word plus the final newline; empty input gives a lone newline. */
  lemma ConvertLength(data: seq<byte>)
    requires |data| % 4 == 0
    ensures |Convert(data).text| == 12 * (|data| / 4) + 1
    ensures data == [] ==> Convert(data).text == "\n"
  {
  }

  /** Characters 12k .. 12k + 11 are the token of word `k` and its separator. */
  lemma {:induction false} ChunkAt(data: seq<byte>, m: nat, k: nat)
    requires 4 * m <= |data| && k < m
    ensures EncodeWords(data, m)[12 * k..12 * k + 12] == Token(Word(data, k)) + [Separator(k + 1)]
  {
    EncodeWordsSplit(data, m);
    var t := EncodeWords(data, m);
    if k < m - 1 {
      ChunkAt(data, m - 1, k);
      assert t[12 * k..12 * k + 12] == t[..12 * m - 12][12 * k..12 * k + 12];
    }
  }

  /**
   * Reading the text back: byte `j` of the input is byte `j % 4`, least
   * significant first, of the value of token `j / 4`.
   */
  function Decode(text: string): (r: seq<byte>)
    ensures |r| == 4 * (|text| / 12)
  {
    var n := |text| / 12;
    seq(4 * n, j requires 0 <= j < 4 * n => LeBytes(TokenValue(text[12 * (j / 4)..12 * (j / 4) + 12]))[j % 4])
  }

  /** The four bytes of a word come back from its value. */
  lemma {:induction false} LeBytesOfWord(b: seq<byte>)
    requires |b| == 4
    ensures LeBytes(LeWord(b)) == b
  {
    var b0, b1, b2, b3: int := b[0], b[1], b[2], b[3];
    var w := LeWord(b);
    var q1 := b1 + 256 * b2 + 65536 * b3;
    var q2 := b2 + 256 * b3;
    DivUnique(w, 256, q1, b0);
    DivUnique(w, 65536, q2, b0 + 256 * b1);
    DivUnique(w, 16777216, b3, b0 + 256 * b1 + 65536 * b2);
    DivUnique(q1, 256, q2, b1);
    DivUnique(q2, 256, b3, b2);
    DivUnique(b3, 256, 0, b3);
  }

  lemma EncodeWordsNext(data: seq<byte>, k: nat)
    requires 4 * k + 4 <= |data|
    ensures EncodeWords(data, k + 1) == EncodeWords(data, k) + Token(Word(data, k)) + [Separator(k + 1)]
  {
  }

  lemma EncodeWordsSplit(data: seq<byte>, m: nat)
    requires 0 < m && 4 * m <= |data|
    ensures EncodeWords(data, m)[..12 * m - 12] == EncodeWords(data, m - 1)
    ensures EncodeWords(data, m)[12 * m - 12..] == Chunk(data, m - 1)
  {
  }

  /** Byte `c` of word `k` is input byte 4k + c. */
  lemma WordBytes(data: seq<byte>, k: nat)
    requires 4 * k + 4 <= |data|
    ensures forall c :: 0 <= c < 4 ==> LeBytes(Word(data, k))[c] == data[4 * k + c]
  {
    LeBytesOfWord(data[4 * k..4 * k + 4]);
  }

  /** Decoding the written text gives back the input bytes. */
  lemma DecodeConvert(data: seq<byte>)
    requires |data| % 4 == 0
    ensures Decode(Convert(data).text) == data
  {
    var n := |data| / 4;
    var body := EncodeWords(data, n);
    var text := body + "\n";
    assert text == Convert(data).text;
    DivUnique(|text|, 12, n, 1);
    forall j | 0 <= j < |data| ensures Decode(text)[j] == data[j] {
      DecodedByte(data, n, text, j);
    }
  }

  lemma DecodedByte(data: seq<byte>, n: nat, text: string, j: nat)
    requires |data| == 4 * n && text == EncodeWords(data, n) + "\n"
    requires j < |data| == |Decode(text)|
    ensures Decode(text)[j] == data[j]
  {
    var k := j / 4;
    TextChunk(data, n, text, k);
    DecodeAt(text, j);
    ChunkValue(data, k);
    WordBytes(data, k);
  }

  /** The chunk of word `k` in the written text. */
  lemma TextChunk(data: seq<byte>, n: nat, text: string, k: nat)
    requires |data| == 4 * n && text == EncodeWords(data, n) + "\n" && k < n
    ensures 12 * k + 12 <= |text| && text[12 * k..12 * k + 12] == Chunk(data, k)
  {
    assert text[12 * k..12 * k + 12] == EncodeWords(data, n)[12 * k..12 * k + 12];
    ChunkAt(data, n, k);
  }

  /** Byte `j` of the decoded text, from the token it belongs to. */
  lemma DecodeAt(text: string, j: nat)
    requires j < 4 * (|text| / 12)
    ensures 12 * (j / 4) + 12 <= |text|
    ensures Decode(text)[j] == LeBytes(TokenValue(text[12 * (j / 4)..12 * (j / 4) + 12]))[j % 4]
  {
  }
}
