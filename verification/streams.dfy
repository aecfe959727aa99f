/** The byte source the decoder reads from: a finite byte string with a read
    cursor, and a count of how often it has been closed. */
module Streams {
  import opened Bytes

  datatype Stream = Stream(bytes: seq<byte>, pos: nat, closeCount: nat) {
    predicate Valid() {
      pos <= |bytes|
    }
  }

  /** A fresh, unread, unclosed stream over `bytes`. */
  function Open(bytes: seq<byte>): (st: Stream)
    ensures st.Valid()
  {
    Stream(bytes, 0, 0)
  }

  /** `stream.read(n)`: the next `n` bytes, fewer only when the stream ends
      first, and the stream advanced past them. */
  function Read(st: Stream, n: nat): (r: (seq<byte>, Stream))
    requires st.Valid()
    ensures r.1.Valid() && r.1.bytes == st.bytes && r.1.closeCount == st.closeCount
    ensures r.1.pos == st.pos + |r.0| && r.0 == st.bytes[st.pos..r.1.pos]
    ensures |r.0| == n || (|r.0| < n && r.1.pos == |st.bytes|)
  {
    var k := if n <= |st.bytes| - st.pos then n else |st.bytes| - st.pos;
    (st.bytes[st.pos..st.pos + k], st.(pos := st.pos + k))
  }

  /** `stream.close()`. */
  function Close(st: Stream): Stream {
    st.(closeCount := st.closeCount + 1)
  }
}
