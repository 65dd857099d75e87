/** The parts of System.IO.Stream the codec uses. A stream being read is its
    fixed content and a position; a stream being written is the sequence of
    bytes written so far, which every write extends at the end. */
module Streams {
  import opened Primitives

  /** What is left of `rest` once n more bytes have been read: a read at the
      end of the stream reads nothing and does not move. */
  function Skip(rest: seq<byte>, n: nat): (s: seq<byte>)
    ensures |s| == |rest| - Min(n, |rest|)
  {
    rest[Min(n, |rest|)..]
  }

  lemma SkipSkip(rest: seq<byte>, m: nat, n: nat)
    ensures Skip(Skip(rest, m), n) == Skip(rest, m + n)
  {
  }

  /** A stream opened for reading, positioned at `Position` in `Content`. */
  class InputStream {
    const Content: seq<byte>
    var Position: nat

    ghost predicate Valid()
      reads this
    {
      Position <= |Content|
    }

    /** The bytes not yet read. */
    ghost function Remaining(): seq<byte>
      reads this
      requires Valid()
    {
      Content[Position..]
    }

    constructor (content: seq<byte>)
      ensures Valid() && Content == content && Position == 0
      ensures Remaining() == content
    {
      Content := content;
      Position := 0;
    }

    /** Stream.ReadByte: the next byte, or -1 at the end of the stream. */
    method ReadByte() returns (r: int)
      requires Valid()
      modifies this
      ensures Valid()
      ensures r == if old(Remaining()) == [] then -1 else old(Remaining())[0]
      ensures Remaining() == Skip(old(Remaining()), 1)
    {
      if Position < |Content| {
        r := Content[Position];
        Position := Position + 1;
      } else {
        r := -1;
      }
    }

    /** Stream.Read(buffer, offset, count): copies the next bytes, as many as
        are left up to `count`, into buffer[offset..], leaves the rest of the
        buffer alone and returns how many it copied. */
    method Read(buffer: array<byte>, offset: nat, count: nat) returns (n: nat)
      requires Valid() && offset + count <= buffer.Length
      modifies this, buffer
      ensures Valid()
      ensures n == Min(count, |old(Remaining())|)
      ensures Remaining() == Skip(old(Remaining()), count)
      ensures forall k :: 0 <= k < n ==> buffer[offset + k] == old(Remaining())[k]
      ensures forall k :: 0 <= k < buffer.Length && !(offset <= k < offset + n) ==> buffer[k] == old(buffer[k])
    {
      n := Min(count, |Content| - Position);
      forall k | 0 <= k < n {
        buffer[offset + k] := Content[Position + k];
      }
      Position := Position + n;
    }
  }

  /** A stream opened for writing (a newly created file): what has been written. */
  class OutputStream {
    var Written: seq<byte>

    constructor ()
      ensures Written == []
    {
      Written := [];
    }

    /** Stream.WriteByte */
    method WriteByte(value: byte)
      modifies this
      ensures Written == old(Written) + [value]
    {
      Written := Written + [value];
    }

    /** Stream.Write(buffer, offset, count) */
    method Write(buffer: array<byte>, offset: nat, count: nat)
      requires offset + count <= buffer.Length
      modifies this
      ensures Written == old(Written) + buffer[offset..offset + count]
    {
      Written := Written + buffer[offset..offset + count];
    }
  }
}
