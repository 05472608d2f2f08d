/** The buffer cursor of lexer.go: an in-memory buffer and the index of the next byte
    to read. Every method computes the Cursor function of the same name; only
    ReadUntilByteSequence has no counterpart in the stream cursor. */
module BufferLexer {

  import opened Errors
  import opened Bytes
  import Cursor

  class Lexer {
    const buffer: seq<byte>
    var nextByteIndex: nat

    /** Every operation keeps the index within the buffer. */
    ghost predicate Valid()
      reads this
    {
      nextByteIndex <= |buffer|
    }

    /** newLexer: the index starts at 0. */
    constructor (buffer: seq<byte>)
      ensures Valid() && this.buffer == buffer && nextByteIndex == 0
    {
      this.buffer := buffer;
      nextByteIndex := 0;
    }

    /** The decimal value of the maximal digit slice buffer[start:idx]. */
    method ReadUint16() returns (n: uint16, err: Outcome)
      requires Valid()
      modifies this
      ensures Valid()
      ensures var r := Cursor.ReadUint16(buffer, old(nextByteIndex)); n == r.value && err == r.err && nextByteIndex == r.pos
    {
      var start := nextByteIndex;
      while true
        invariant Valid() && start <= nextByteIndex
        invariant forall k :: start <= k < nextByteIndex ==> IsDigit(buffer[k])
        decreases |buffer| - nextByteIndex
      {
        // Any peek error ends the run; the only one the buffer can give is Eof.
        var next, e := PeekNextByte();
        if e != Pass {
          break;
        }
        if next < ZERO || next > NINE {
          break;
        }
        var _, e2 := NextByte();
        // The source ends the run when e2 is Eof; it cannot be, right after the peek.
        assert e2 == Pass;
      }
      DigitRunEndIs(buffer, start, nextByteIndex);
      n, err := ParseUint16(buffer[start..nextByteIndex]).0, ParseUint16(buffer[start..nextByteIndex]).1;
    }

    /** Eof exactly when the index is at or past the end; the index never changes. */
    method PeekNextByte() returns (b: byte, err: Outcome)
      requires Valid()
      ensures var r := Cursor.Peek(buffer, nextByteIndex); b == r.value && err == r.err
    {
      if nextByteIndex >= |buffer| {
        return 0, Fail(Eof);
      }
      b, err := buffer[nextByteIndex], Pass;
    }

    /** The next n bytes, or the consumed prefix and Eof. */
    method ReadBytes(n: nat) returns (bytes: seq<byte>, err: Outcome)
      requires Valid()
      modifies this
      ensures Valid()
      ensures var r := Cursor.ReadBytes(buffer, old(nextByteIndex), n); bytes == r.value && err == r.err && nextByteIndex == r.pos
    {
      bytes := [];
      var i := 0;
      while i < n
        invariant Valid() && i <= n && nextByteIndex == old(nextByteIndex) + i
        invariant bytes == buffer[old(nextByteIndex)..nextByteIndex]
      {
        var b, e := NextByte();
        if e != Pass {
          return bytes, e;
        }
        bytes := bytes + [b];
        i := i + 1;
      }
      err := Pass;
    }

    /** The byte at the index, which then moves on by one; Eof at the end of the buffer. */
    method NextByte() returns (b: byte, err: Outcome)
      requires Valid()
      modifies this
      ensures Valid()
      ensures var r := Cursor.Next(buffer, old(nextByteIndex)); b == r.value && err == r.err && nextByteIndex == r.pos
    {
      if nextByteIndex >= |buffer| {
        return 0, Fail(Eof);
      }
      var index := nextByteIndex;
      nextByteIndex := nextByteIndex + 1;
      b, err := buffer[index], Pass;
    }

    /** Scan for `sequence`. Each attempt starts at the current index; on a mismatch the
        next attempt starts after the mismatched byte (the source's `goto loop`). */
    method ReadUntilByteSequence(sequence: seq<byte>) returns (bytes: seq<byte>, err: Outcome)
      requires Valid()
      modifies this
      ensures Valid()
      ensures var r := Cursor.ReadUntilByteSequence(buffer, old(nextByteIndex), sequence);
        bytes == r.value && err == r.err && nextByteIndex == r.pos
    {
      var startingIndex: nat := nextByteIndex;
      var k := 0;
      while k < |sequence|
        invariant Valid() && k <= |sequence| && nextByteIndex == startingIndex + k
        invariant Cursor.RestartScan(buffer, startingIndex, k, sequence)
               == Cursor.RestartScan(buffer, old(nextByteIndex), 0, sequence)
        decreases |buffer| - nextByteIndex
      {
        var b, e := NextByte();
        if e != Pass {
          return [], e;
        }
        if b != sequence[k] {
          startingIndex, k := nextByteIndex, 0;
        } else {
          k := k + 1;
        }
      }
      bytes, err := buffer[startingIndex..nextByteIndex], Pass;
    }

    /** The slice buffer[start:idx] before the first `delimiter`, which stays unconsumed;
        at the end of the buffer an empty slice and Eof. */
    method ReadUntilDelimiter(delimiter: byte) returns (bytes: seq<byte>, err: Outcome)
      requires Valid()
      modifies this
      ensures Valid()
      ensures var r := Cursor.ReadUntilDelimiter(buffer, old(nextByteIndex), delimiter);
        bytes == r.value && err == r.err && nextByteIndex == r.pos
    {
      var startingIndex := nextByteIndex;
      while true
        invariant Valid() && startingIndex <= nextByteIndex
        invariant forall k :: startingIndex <= k < nextByteIndex ==> buffer[k] != delimiter
        decreases |buffer| - nextByteIndex
      {
        var next, e := PeekNextByte();
        if e != Pass {
          FirstIndexIs(buffer, startingIndex, delimiter, nextByteIndex);
          return [], e;
        }
        if next == delimiter {
          FirstIndexIs(buffer, startingIndex, delimiter, nextByteIndex);
          return buffer[startingIndex..nextByteIndex], Pass;
        }
        var _, e2 := NextByte();
        // The source returns an empty slice and e2 here; it cannot fail after the peek.
        assert e2 == Pass;
      }
    }

    /** Two ExpectByte calls: '\r', then '\n'. */
    method ExpectCRLF() returns (err: Outcome)
      requires Valid()
      modifies this
      ensures Valid()
      ensures var r := Cursor.ExpectCrlf(buffer, old(nextByteIndex)); err == r.err && nextByteIndex == r.pos
    {
      err := ExpectByte(CR);
      if err != Pass {
        return err;
      }
      err := ExpectByte(LF);
    }

    /** Consume one byte; a mismatch is InvalidHeader. */
    method ExpectByte(expected: byte) returns (err: Outcome)
      requires Valid()
      modifies this
      ensures Valid()
      ensures var r := Cursor.ExpectByte(buffer, old(nextByteIndex), expected); err == r.err && nextByteIndex == r.pos
    {
      var b, e := NextByte();
      if e != Pass {
        return e;
      }
      if b != expected {
        return Fail(InvalidHeader);
      }
      err := Pass;
    }
  }
}
