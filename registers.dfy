/**
 * Modbus register words and the C integer conversions the decoders apply to
 * them: big-endian reassembly of 1, 2 or 4 sixteen-bit words, truncation to
 * the low 32 bits, and the two's-complement casts to int16_t / int32_t.
 */
module Registers {

  /** One Modbus register (uint16_t). */
  type uint16 = x: int | 0 <= x < 0x1_0000

  const WORD: nat := 0x1_0000
  const TWO32: nat := 0x1_0000_0000

  /** 2^(16 n): one past the largest value n words can hold. */
  function WordSpan(n: nat): (p: nat)
    ensures p >= 1
  {
    if n == 0 then 1 else WordSpan(n - 1) * WORD
  }

  lemma WordSpanValues()
    ensures WordSpan(1) == WORD && WordSpan(2) == TWO32
    ensures WordSpan(4) == 0x1_0000_0000_0000_0000
  {
    assert WordSpan(2) == WordSpan(1) * WORD;
    assert WordSpan(4) == WordSpan(3) * WORD;
  }

  /** Big-endian word order: the first word is the most significant. */
  function BigEndian(ws: seq<uint16>): (v: nat)
    ensures v < WordSpan(|ws|)
  {
    if ws == [] then 0
    else
      var hi := BigEndian(ws[..|ws| - 1]);
      assert hi <= WordSpan(|ws| - 1) - 1;
      assert hi * WORD <= (WordSpan(|ws| - 1) - 1) * WORD;
      hi * WORD + ws[|ws| - 1]
  }

  /** Splits v into n words, most significant first (the device's encoding). */
  function ToWords(v: nat, n: nat): (ws: seq<uint16>)
    requires v < WordSpan(n)
    ensures |ws| == n
  {
    if n == 0 then []
    else
      assert v / WORD < WordSpan(n - 1) by {
        assert v < WordSpan(n - 1) * WORD;
      }
      ToWords(v / WORD, n - 1) + [v % WORD]
  }

  /** Reassembling the words a value was split into gives the value back. */
  lemma {:induction false} BigEndianOfToWords(v: nat, n: nat)
    requires v < WordSpan(n)
    ensures BigEndian(ToWords(v, n)) == v
  {
    if n > 0 {
      assert v / WORD < WordSpan(n - 1) by {
        assert v < WordSpan(n - 1) * WORD;
      }
      var ws := ToWords(v, n);
      assert ws[..n - 1] == ToWords(v / WORD, n - 1);
      BigEndianOfToWords(v / WORD, n - 1);
    }
  }

  /** Reassembly loses nothing: splitting the value again gives the same words. */
  lemma {:induction false} ToWordsOfBigEndian(ws: seq<uint16>)
    ensures ToWords(BigEndian(ws), |ws|) == ws
  {
    if ws != [] {
      var init := ws[..|ws| - 1];
      var v := BigEndian(ws);
      assert v / WORD == BigEndian(init) && v % WORD == ws[|ws| - 1];
      ToWordsOfBigEndian(init);
      assert init + [ws[|ws| - 1]] == ws;
    }
  }

  /** Hence reassembly is injective: different register contents, different values. */
  lemma BigEndianInjective(a: seq<uint16>, b: seq<uint16>)
    requires |a| == |b| && BigEndian(a) == BigEndian(b)
    ensures a == b
  {
    ToWordsOfBigEndian(a);
    ToWordsOfBigEndian(b);
  }

  /** U32/S32: regs[0] << 16 | regs[1]. */
  lemma BigEndianTwo(w0: uint16, w1: uint16)
    ensures BigEndian([w0, w1]) == w0 * 0x1_0000 + w1
  {
    assert [w0, w1][..1] == [w0];
    assert [w0][..0] == [];
  }

  /** U64: regs[0] << 48 | regs[1] << 32 | regs[2] << 16 | regs[3]. */
  lemma BigEndianFour(w0: uint16, w1: uint16, w2: uint16, w3: uint16)
    ensures BigEndian([w0, w1, w2, w3])
         == w0 * 0x1_0000_0000_0000 + w1 * 0x1_0000_0000 + w2 * 0x1_0000 + w3
  {
    assert [w0, w1, w2, w3][..3] == [w0, w1, w2];
    assert [w0, w1, w2][..2] == [w0, w1];
    BigEndianTwo(w0, w1);
  }

  /** (uint32_t) of a wider unsigned value: the low 32 bits. */
  function Low32(v: nat): (r: nat)
    ensures r < TWO32
    ensures v < TWO32 ==> r == v
  {
    v % TWO32
  }

  /** (int16_t) of a uint16_t: two's complement. */
  function AsInt16(w: uint16): (i: int)
    ensures -0x8000 <= i < 0x8000
    ensures (i + WORD) % WORD == w
    ensures i < 0 <==> w >= 0x8000
  {
    if w < 0x8000 then w else w - WORD
  }

  /** (int32_t) of a uint32_t: two's complement. */
  function AsInt32(v: nat): (i: int)
    requires v < TWO32
    ensures -0x8000_0000 <= i < 0x8000_0000
    ensures (i + TWO32) % TWO32 == v
    ensures i < 0 <==> v >= 0x8000_0000
  {
    if v < 0x8000_0000 then v else v - TWO32
  }

  /** The cast is a bijection: every int32 value has exactly one bit pattern. */
  lemma AsInt32Injective(a: nat, b: nat)
    requires a < TWO32 && b < TWO32 && AsInt32(a) == AsInt32(b)
    ensures a == b
  {
  }
}
