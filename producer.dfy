/** The tick loop of cmd/producer/main.go: one sample per tick goes into a
    buffer; a full buffer is packed as little-endian words, published, and
    cleared. A sample is held as the 32 bits of its float32. */
module Producer {
  import opened Wrappers
  import opened LittleEndian

  /** Packs `buffer` into a fresh byte buffer filled slot by slot. */
  method PackSamples(buffer: seq<Word>) returns (packed: seq<Byte>)
    ensures packed == Pack(buffer)
  {
    var out := new Byte[4 * |buffer|](_ => 0);
    assert out[..] == Pack(buffer[..0]) + Zeros(4 * |buffer|);
    var i := 0;
    while i < |buffer|
      invariant 0 <= i <= |buffer|
      invariant out[..] == Pack(buffer[..i]) + Zeros(4 * (|buffer| - i))
    {
      FillSlot(Pack(buffer[..i]), 4 * (|buffer| - i), buffer[i]);
      PutUint32At(out, 4 * i, buffer[i]);
      PackPrefix(buffer, i);
      i := i + 1;
    }
    assert buffer[..i] == buffer;
    packed := out[..];
  }

  /** The producer's loop state: the configured batch size and the samples
      buffered since the last publish. */
  class ProducerLoop {
    const batch: nat
    var buffer: seq<Word>

    /** Between ticks the buffer is shorter than a batch (and with a batch
        size of 0 or 1, always empty). */
    predicate Valid()
      reads this
    {
      buffer == [] || |buffer| < batch
    }

    /** The loop before its first tick; `make` with a negative capacity
        panics in Go, so a batch size is never negative. */
    constructor (batch: nat)
      ensures this.batch == batch && buffer == [] && Valid()
    {
      this.batch := batch;
      buffer := [];
    }

    /** One tick: append the sample, and when the buffer has reached the
        batch size, return its packed bytes for publishing and clear it. */
    method Tick(sample: Word) returns (published: Option<seq<Byte>>)
      requires Valid()
      modifies this
      ensures Valid()
      ensures |old(buffer)| + 1 >= batch ==> published == Some(Pack(old(buffer) + [sample])) && buffer == []
      ensures |old(buffer)| + 1 < batch ==> published == None && buffer == old(buffer) + [sample]
      ensures published.Some? && batch >= 1 ==> |published.value| == 4 * batch
    {
      buffer := buffer + [sample];
      if |buffer| >= batch {
        var out := PackSamples(buffer);
        published := Some(out);
        buffer := [];
      } else {
        published := None;
      }
    }
  }
}
