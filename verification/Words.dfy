/** Bytes, 32-bit words and the little-endian codec that every on-flash record is built from. */
module Words {

  type byte = x: int | 0 <= x < 0x100
  type word = x: int | 0 <= x < 0x1_0000_0000
  type i32 = x: int | -0x8000_0000 <= x < 0x8000_0000

  const UINT_MAX: word := 0xFFFF_FFFF

  /** Reduction of an `unsigned int` result to 32 bits. */
  function Wrap(x: int): word {
    x % 0x1_0000_0000
  }

  lemma WrapSmall(x: int)
    requires 0 <= x < 0x1_0000_0000
    ensures Wrap(x) == x
  {
  }

  /** The bits of a signed `int` seen as an `unsigned int`, and back. */
  function Unsigned(x: i32): word {
    if x < 0 then x + 0x1_0000_0000 else x
  }

  function Signed(w: word): i32 {
    if w < 0x8000_0000 then w else w - 0x1_0000_0000
  }

  function WordByte(w: word, j: nat): byte
    requires j < 4
  {
    if j == 0 then w % 0x100
    else if j == 1 then (w / 0x100) % 0x100
    else if j == 2 then (w / 0x1_0000) % 0x100
    else w / 0x100_0000
  }

  function BytesWord(b0: byte, b1: byte, b2: byte, b3: byte): word {
    b0 + 0x100 * b1 + 0x1_0000 * b2 + 0x100_0000 * b3
  }

  function EncodeWords(ws: seq<word>): (bs: seq<byte>)
    ensures |bs| == 4 * |ws|
  {
    seq(4 * |ws|, k requires 0 <= k < 4 * |ws| => WordByte(ws[k / 4], k % 4))
  }

  function DecodeWords(bs: seq<byte>): (ws: seq<word>)
    ensures |ws| == |bs| / 4
  {
    seq(|bs| / 4, i requires 0 <= i < |bs| / 4 => BytesWord(bs[4 * i], bs[4 * i + 1], bs[4 * i + 2], bs[4 * i + 3]))
  }

  lemma WordRoundTrip(w: word)
    ensures BytesWord(WordByte(w, 0), WordByte(w, 1), WordByte(w, 2), WordByte(w, 3)) == w
  {
    var q1 := w / 0x100;
    var q2 := q1 / 0x100;
    assert w / 0x1_0000 == q2;
    assert w / 0x100_0000 == q2 / 0x100;
  }

  lemma EncodedAt(ws: seq<word>, tail: seq<byte>, i: nat)
    requires i < |ws|
    ensures var bs := EncodeWords(ws) + tail;
            BytesWord(bs[4 * i], bs[4 * i + 1], bs[4 * i + 2], bs[4 * i + 3]) == ws[i]
  {
    hide WordByte, BytesWord;
    var bs := EncodeWords(ws) + tail;
    assert forall j: nat | j < 4 :: bs[4 * i + j] == EncodeWords(ws)[4 * i + j] == WordByte(ws[i], j);
    assert bs[4 * i] == WordByte(ws[i], 0) && bs[4 * i + 1] == WordByte(ws[i], 1);
    assert bs[4 * i + 2] == WordByte(ws[i], 2) && bs[4 * i + 3] == WordByte(ws[i], 3);
    WordRoundTrip(ws[i]);
  }

  /** Decoding gives back the encoded words, whatever bytes follow them. */
  lemma DecodeEncode(ws: seq<word>, tail: seq<byte>)
    ensures |DecodeWords(EncodeWords(ws) + tail)| >= |ws|
    ensures DecodeWords(EncodeWords(ws) + tail)[..|ws|] == ws
  {
    hide EncodeWords, BytesWord;
    var ds := DecodeWords(EncodeWords(ws) + tail);
    forall i | 0 <= i < |ws|
      ensures ds[i] == ws[i]
    {
      EncodedAt(ws, tail, i);
    }
  }

  lemma DecodeEncodeExact(ws: seq<word>)
    ensures DecodeWords(EncodeWords(ws)) == ws
  {
    DecodeEncode(ws, []);
    assert EncodeWords(ws) + [] == EncodeWords(ws);
    var ds := DecodeWords(EncodeWords(ws));
    assert ds[..|ws|] == ds;
  }

  /** d with buffer written over the bytes from `at` on. */
  function Spliced<T>(d: seq<T>, at: nat, buffer: seq<T>): (d': seq<T>)
    requires at + |buffer| <= |d|
    ensures |d'| == |d|
  {
    d[..at] + buffer + d[at + |buffer|..]
  }
}
