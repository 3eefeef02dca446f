// Ring buffers as the JTAG UART driver lays them out: a fixed buffer, the index the
// producer stores at next ("inn") and the index the consumer loads from next ("out").
// One cell is always left free, so equal indices mean an empty ring.
module Ring {

  ghost predicate Indices<T>(buf: seq<T>, out: nat, inn: nat) {
    2 <= |buf| && out < |buf| && inn < |buf|
  }

  /** The stored elements, oldest first. */
  ghost function Contents<T>(buf: seq<T>, out: nat, inn: nat): (r: seq<T>)
    requires Indices(buf, out, inn)
    ensures |r| == if out <= inn then inn - out else |buf| - out + inn
  {
    if out <= inn then buf[out..inn] else buf[out..] + buf[..inn]
  }

  ghost predicate Full<T>(buf: seq<T>, out: nat, inn: nat)
    requires Indices(buf, out, inn)
  {
    |Contents(buf, out, inn)| == |buf| - 1
  }

  lemma OneCell<T>(buf: seq<T>, i: nat)
    requires i < |buf|
    ensures buf[i..i + 1] == [buf[i]]
  {
  }

  /** An index that has just moved comes back to the start of the buffer at most once. */
  lemma Wrap(x: nat, len: nat)
    requires 0 < len && x < 2 * len
    ensures x % len == if x < len then x else x - len
  {
  }

  lemma FullIffNextIsOut<T>(buf: seq<T>, out: nat, inn: nat)
    requires Indices(buf, out, inn)
    ensures Full(buf, out, inn) <==> (inn + 1) % |buf| == out
  {
    Wrap(inn + 1, |buf|);
  }

  /** Publishing n cells that follow the producer index appends them to the contents. */
  lemma PushMany<T>(buf: seq<T>, out: nat, inn: nat, n: nat)
    requires Indices(buf, out, inn)
    requires inn + n <= |buf|
    requires |Contents(buf, out, inn)| + n < |buf|
    ensures (inn + n) % |buf| < |buf|
    ensures Contents(buf, out, (inn + n) % |buf|) == Contents(buf, out, inn) + buf[inn..inn + n]
  {
    Wrap(inn + n, |buf|);
    if inn < out {
      assert buf[..inn + n] == buf[..inn] + buf[inn..inn + n];
    } else if inn + n < |buf| {
      assert buf[out..inn + n] == buf[out..inn] + buf[inn..inn + n];
    } else {
      assert buf[out..] == buf[out..inn] + buf[inn..inn + n];
    }
  }

  /** Releasing n cells from the consumer index drops that many oldest elements. */
  lemma PopMany<T>(buf: seq<T>, out: nat, inn: nat, n: nat)
    requires Indices(buf, out, inn)
    requires out + n <= |buf|
    requires n <= |Contents(buf, out, inn)|
    ensures (out + n) % |buf| < |buf|
    ensures buf[out..out + n] + Contents(buf, (out + n) % |buf|, inn) == Contents(buf, out, inn)
  {
    Wrap(out + n, |buf|);
    if out <= inn {
      assert buf[out..out + n] + buf[out + n..inn] == buf[out..inn];
    } else if out + n < |buf| {
      assert buf[out..] == buf[out..out + n] + buf[out + n..];
    } else {
      assert buf[out..] == buf[out..out + n];
    }
  }

  /** A store into one of the free cells is invisible until it is published. */
  lemma StoreIsInvisible<T>(buf: seq<T>, out: nat, inn: nat, k: nat, b: T)
    requires Indices(buf, out, inn)
    requires inn + k < |buf|
    requires |Contents(buf, out, inn)| + k < |buf| - 1
    ensures Contents(buf[inn + k := b], out, inn) == Contents(buf, out, inn)
  {
  }
}
