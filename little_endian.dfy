/** Little-endian 32-bit words, as written by Go's binary.LittleEndian.PutUint32
    and read back by binary.LittleEndian.Uint32. A sample travels through the
    pipeline as the 32 bits of a float32 (math.Float32bits / Float32frombits are
    bit reinterpretations), so here a sample on the wire is simply a Word. */
module LittleEndian {

  type Byte = x: int | 0 <= x < 0x100
  type Word = x: int | 0 <= x < 0x1_0000_0000

  /** The four bytes of `w`, least significant first. */
  function PutUint32(w: Word): (b: seq<Byte>)
    ensures |b| == 4
  {
    [w % 0x100, (w / 0x100) % 0x100, (w / 0x1_0000) % 0x100, w / 0x100_0000]
  }

  /** The word whose little-endian bytes are `b`. */
  function Uint32(b: seq<Byte>): Word
    requires |b| == 4
  {
    var b0, b1, b2, b3 := b[0] as int, b[1] as int, b[2] as int, b[3] as int;
    b0 + 0x100 * b1 + 0x1_0000 * b2 + 0x100_0000 * b3
  }

  /** A word is recovered from its four bytes. */
  lemma Uint32OfPutUint32(w: Word)
    ensures Uint32(PutUint32(w)) == w
  {
    var q1, q2, q3 := w / 0x100, w / 0x1_0000, w / 0x100_0000;
    assert w == w % 0x100 + 0x100 * q1;
    assert q1 == q1 % 0x100 + 0x100 * (q1 / 0x100);
    assert q1 / 0x100 == q2;
    assert q2 == q2 % 0x100 + 0x100 * (q2 / 0x100);
    assert q2 / 0x100 == q3;
  }

  /** Four bytes are determined by the word they encode: PutUint32 is onto. */
  lemma PutUint32OfUint32(b: seq<Byte>)
    requires |b| == 4
    ensures PutUint32(Uint32(b)) == b
  {
    var b0, b1, b2, b3 := b[0] as int, b[1] as int, b[2] as int, b[3] as int;
    var w := Uint32(b);
    DivMod256(w, b1 + 0x100 * b2 + 0x1_0000 * b3, b0);
    DivMod256(w / 0x100, b2 + 0x100 * b3, b1);
    DivMod256(w / 0x1_0000, b3, b2);
  }

  /** Euclidean division by 256 is determined by quotient and remainder. */
  lemma DivMod256(x: int, q: int, r: int)
    requires x == 0x100 * q + r && 0 <= r < 0x100
    ensures x / 0x100 == q && x % 0x100 == r
  {
  }

  /** The zero word is four zero bytes: a zero-initialised slot reads as 0. */
  lemma PutUint32Zero()
    ensures PutUint32(0) == [0, 0, 0, 0]
  {
  }

  /** Go's binary.LittleEndian.PutUint32(out[k:], w): overwrites the four
      bytes at offset `k` and nothing else. */
  method PutUint32At(out: array<Byte>, k: nat, w: Word)
    requires k + 4 <= out.Length
    modifies out
    ensures out[..] == old(out[..])[..k] + PutUint32(w) + old(out[..])[k + 4..]
  {
    var b := PutUint32(w);
    out[k], out[k + 1], out[k + 2], out[k + 3] := b[0], b[1], b[2], b[3];
  }

  /** The word at byte offset `k` of `data` (Go: binary.LittleEndian.Uint32(data[k:])). */
  function Uint32At(data: seq<Byte>, k: nat): Word
    requires k + 4 <= |data|
  {
    Uint32(data[k..k + 4])
  }

  /** The bytes of `ws`, four per word in order: the producer's and the
      server's output buffer. */
  function Pack(ws: seq<Word>): (out: seq<Byte>)
    ensures |out| == 4 * |ws|
  {
    if ws == [] then [] else PutUint32(ws[0]) + Pack(ws[1..])
  }

  /** Bytes [4i, 4i+4) of a packed buffer are the encoding of word i. */
  lemma {:induction false} PackSlots(ws: seq<Word>)
    ensures forall i :: 0 <= i < |ws| ==> Pack(ws)[4 * i..4 * i + 4] == PutUint32(ws[i])
    decreases |ws|
  {
    if ws != [] {
      PackSlots(ws[1..]);
      var out, rest := Pack(ws), Pack(ws[1..]);
      forall i | 1 <= i < |ws|
        ensures out[4 * i..4 * i + 4] == PutUint32(ws[i])
      {
        assert out[4 * i..4 * i + 4] == rest[4 * (i - 1)..4 * (i - 1) + 4];
      }
    }
  }

  /** The words of `data`: one per whole group of four bytes, trailing bytes
      ignored (the processor's `len(msg.Data) / 4` samples). */
  function Words(data: seq<Byte>): (ws: seq<Word>)
    ensures |ws| == |data| / 4
    ensures forall i :: 0 <= i < |ws| ==> ws[i] == Uint32At(data, 4 * i)
    decreases |data|
  {
    if |data| < 4 then []
    else
      var rest := Words(data[4..]);
      var ws := [Uint32At(data, 0)] + rest;
      assert forall i :: 1 <= i < |ws| ==> data[4..][4 * (i - 1)..4 * (i - 1) + 4] == data[4 * i..4 * i + 4];
      ws
  }

  /** Appending a word appends its four bytes. */
  lemma {:induction false} PackSnoc(ws: seq<Word>, w: Word)
    ensures Pack(ws + [w]) == Pack(ws) + PutUint32(w)
    decreases |ws|
  {
    if ws == [] {
      assert [w][1..] == [];
    } else {
      assert (ws + [w])[1..] == ws[1..] + [w];
      PackSnoc(ws[1..], w);
    }
  }

  /** `n` zero bytes: a freshly made Go byte slice. */
  function Zeros(n: nat): seq<Byte> {
    seq(n, _ => 0)
  }

  /** Filling the first zero slot after `done` with a word. */
  lemma FillSlot(done: seq<Byte>, n: nat, w: Word)
    requires n >= 4
    ensures (done + Zeros(n))[..|done|] + PutUint32(w) + (done + Zeros(n))[|done| + 4..]
      == done + PutUint32(w) + Zeros(n - 4)
  {
    assert (done + Zeros(n))[..|done|] == done;
    assert (done + Zeros(n))[|done| + 4..] == Zeros(n - 4);
  }

  /** Leaving the first zero slot after `done` as it is stores the word 0. */
  lemma SkipSlot(done: seq<Byte>, n: nat)
    requires n >= 4
    ensures done + Zeros(n) == done + PutUint32(0) + Zeros(n - 4)
  {
    assert Zeros(n) == [0, 0, 0, 0] + Zeros(n - 4);
  }

  /** The packing of a prefix one word longer. */
  lemma PackPrefix(ws: seq<Word>, i: nat)
    requires i < |ws|
    ensures Pack(ws[..i + 1]) == Pack(ws[..i]) + PutUint32(ws[i])
  {
    assert ws[..i + 1] == ws[..i] + [ws[i]];
    PackSnoc(ws[..i], ws[i]);
  }

  /** Round trip: decoding a packed buffer gives back the packed words. */
  lemma WordsOfPack(ws: seq<Word>)
    ensures Words(Pack(ws)) == ws
  {
    var data := Pack(ws);
    PackSlots(ws);
    forall i | 0 <= i < |ws|
      ensures Words(data)[i] == ws[i]
    {
      assert Uint32At(data, 4 * i) == Uint32(PutUint32(ws[i]));
      Uint32OfPutUint32(ws[i]);
    }
  }

  /** Round trip the other way: a buffer of whole words is the packing of its words. */
  lemma {:induction false} PackOfWords(data: seq<Byte>)
    requires |data| % 4 == 0
    ensures Pack(Words(data)) == data
    decreases |data|
  {
    if |data| >= 4 {
      var ws := Words(data);
      assert ws[1..] == Words(data[4..]);
      PackOfWords(data[4..]);
      PutUint32OfUint32(data[..4]);
      assert data[..4] + data[4..] == data;
    }
  }
}
