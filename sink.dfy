/** The buffered writer in front of the output file, reduced to what the
    ingest loop relies on: a capacity, the bytes buffered, the bytes already
    handed to the file, the free space and an explicit flush. */
module Sink {

  /** The buffer size a writer gets when none is asked for. */
  const DefaultBufferSize: nat := 4096

  class BufferedWriter {
    const size: nat
    /** Written but not yet flushed. */
    var buffer: string
    /** Handed to the file, in order. */
    var flushed: string

    constructor (size: nat)
      ensures this.size == size && buffer == [] && flushed == []
    {
      this.size := size;
      buffer := [];
      flushed := [];
    }

    /** Free space left in the buffer. */
    function Available(): (free: int)
      reads this
      ensures free <= size
      ensures free == size <==> buffer == []
    {
      size - |buffer|
    }

    /** Appends `s` to the buffer; the file is not touched. */
    method WriteString(s: string)
      modifies this
      ensures buffer == old(buffer) + s && flushed == old(flushed)
      ensures flushed + buffer == old(flushed + buffer) + s
    {
      buffer := buffer + s;
    }

    /** Hands the whole buffer to the file and empties it. */
    method Flush()
      modifies this
      ensures flushed == old(flushed) + old(buffer) && buffer == []
      ensures flushed + buffer == old(flushed + buffer) && Available() == size
    {
      flushed := flushed + buffer;
      buffer := [];
    }
  }
}
