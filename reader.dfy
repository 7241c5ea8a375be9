/** The reader the request tests feed the parser with (internal/request/request_test.go):
    it hands out a fixed string a few bytes at a time, the way a network connection
    delivers a request in pieces. */
module Reader {

  function Min(a: int, b: int): int {
    if a <= b then a else b
  }

  /** `chunkReader`. */
  class ChunkReader {
    const data: string
    const numBytesPerRead: int
    var pos: int

    /** The read position stays within the data, and a read never asks for a
        negative number of bytes (the slice `data[pos:endIndex]` would not exist). */
    predicate Valid()
      reads this
    {
      0 <= numBytesPerRead && 0 <= pos <= |data|
    }

    constructor (data: string, numBytesPerRead: int)
      requires 0 <= numBytesPerRead
      ensures this.data == data && this.numBytesPerRead == numBytesPerRead
      ensures pos == 0 && Valid()
    {
      this.data := data;
      this.numBytesPerRead := numBytesPerRead;
      pos := 0;
    }

    /** `chunkReader.Read` into `p[from..]`: at the end of the data it reports
        end-of-file and copies nothing; otherwise it copies the next bytes, as many
        as fit and at most `numBytesPerRead`, and advances past them. Nothing of `p`
        outside the copied bytes changes. */
    method Read(p: array<char>, from: int) returns (n: int, eof: bool)
      requires Valid() && 0 <= from <= p.Length
      modifies this, p
      ensures Valid()
      ensures eof <==> old(pos) == |data|
      ensures n == Min(Min(numBytesPerRead, |data| - old(pos)), p.Length - from)
      ensures pos == old(pos) + n
      ensures p[..from] == old(p[..from])
      ensures p[from..from + n] == data[old(pos)..pos]
      ensures p[from + n..] == old(p[from + n..])
    {
      if pos >= |data| {
        return 0, true;
      }
      var endIndex := Min(pos + numBytesPerRead, |data|);
      n := Min(endIndex - pos, p.Length - from);
      var i := 0;
      while i < n
        invariant 0 <= i <= n
        modifies p
        invariant forall k :: from <= k < from + i ==> p[k] == data[pos + (k - from)]
        invariant forall k :: 0 <= k < p.Length && !(from <= k < from + i) ==> p[k] == old(p[k])
      {
        p[from + i] := data[pos + i];
        i := i + 1;
      }
      assert p[from..from + n] == data[pos..pos + n];
      pos := pos + n;
      eof := false;
    }
  }
}
