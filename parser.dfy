/** The stream cursor of parser.go. The bufio.Reader it consumes is modelled as the
    sequence of bytes it has yet to deliver, `input`; `pos` is how many of them the
    parser has consumed, which is the parser's nextByteIndex. Every method computes
    the Cursor function of the same name. */
module StreamParser {

  import opened Errors
  import opened Bytes
  import Cursor

  class Parser {
    const input: seq<byte>
    var pos: nat

    ghost predicate Valid()
      reads this
    {
      pos <= |input|
    }

    /** newParser: nothing consumed yet. */
    constructor (input: seq<byte>)
      ensures Valid() && this.input == input && pos == 0
    {
      this.input := input;
      pos := 0;
    }

    /** reader.Peek(1): the next byte, or Eof; the position never changes. */
    method PeekNextByte() returns (b: byte, err: Outcome)
      requires Valid()
      ensures var r := Cursor.Peek(input, pos); b == r.value && err == r.err
    {
      if pos < |input| {
        b, err := input[pos], Pass;
      } else {
        b, err := 0, Fail(Eof);
      }
    }

    /** reader.ReadByte(): advances by exactly one on success; at end of input it fails
        and the position stays where it was. */
    method NextByte() returns (b: byte, err: Outcome)
      requires Valid()
      modifies this
      ensures Valid()
      ensures var r := Cursor.Next(input, old(pos)); b == r.value && err == r.err && pos == r.pos
    {
      if pos < |input| {
        b, err := input[pos], Pass;
        pos := pos + 1;
      } else {
        b, err := 0, Fail(Eof);
      }
    }

    /** The next n bytes, or the shorter prefix consumed before end of input. */
    method ReadBytes(n: nat) returns (bytes: seq<byte>, err: Outcome)
      requires Valid()
      modifies this
      ensures Valid()
      ensures var r := Cursor.ReadBytes(input, old(pos), n); bytes == r.value && err == r.err && pos == r.pos
    {
      bytes := [];
      var i := 0;
      while i < n
        invariant Valid() && i <= n && pos == old(pos) + i
        invariant bytes == input[old(pos)..pos]
      {
        var b, e := NextByte();
        if e != Pass {
          return bytes, e;
        }
        bytes := bytes + [b];
        i := i + 1;
      }
      err := Pass;
    }

    /** The maximal run of digits, parsed by strconv.ParseUint(_, 10, 16). */
    method ReadUint16() returns (n: uint16, err: Outcome)
      requires Valid()
      modifies this
      ensures Valid()
      ensures var r := Cursor.ReadUint16(input, old(pos)); n == r.value && err == r.err && pos == r.pos
    {
      var buffer := [];
      while true
        invariant Valid() && old(pos) <= pos
        invariant buffer == input[old(pos)..pos] && AllDigits(buffer)
        decreases |input| - pos
      {
        // Any peek error ends the run; the only one a byte sequence can give is Eof.
        var next, e := PeekNextByte();
        if e != Pass {
          break;
        }
        if next < ZERO || next > NINE {
          break;
        }
        var b, e2 := NextByte();
        // The source returns e2 here; it cannot fail right after a successful peek.
        assert e2 == Pass;
        buffer := buffer + [b];
      }
      forall k | old(pos) <= k < pos ensures IsDigit(input[k]) {
        assert input[k] == buffer[k - old(pos)];
      }
      DigitRunEndIs(input, old(pos), pos);
      n, err := ParseUint16(buffer).0, ParseUint16(buffer).1;
    }

    /** Consume through the first "\r\n". A '\r' that is not followed by '\n' does not
        stop the scan. The returned bytes are always empty. */
    method ReadUntilCRLF() returns (bytes: seq<byte>, err: Outcome)
      requires Valid()
      modifies this
      ensures Valid()
      ensures var r := Cursor.ReadUntilCrlf(input, old(pos)); bytes == r.value && err == r.err && pos == r.pos
    {
      bytes := [];
      while true
        invariant Valid() && old(pos) <= pos
        invariant forall i :: old(pos) <= i < pos ==> !Cursor.OccursAt(input, i, CRLF)
        decreases |input| - pos
      {
        var b, e := NextByte();
        if e != Pass {
          return bytes, e;
        }
        if b == CR {
          var next, e2 := PeekNextByte();
          if e2 != Pass {
            return bytes, e2;
          }
          if next == LF {
            assert Cursor.OccursAt(input, pos - 1, CRLF) by {
              assert input[pos - 1..pos + 1] == [input[pos - 1], input[pos]];
            }
            var _, e3 := NextByte();
            // The source returns e3 here; it cannot fail right after a successful peek.
            assert e3 == Pass;
            Cursor.FirstOccurrenceEndIs(input, old(pos), CRLF, pos);
            return bytes, Pass;
          }
        }
        assert !Cursor.OccursAt(input, pos - 1, CRLF) by {
          if pos < |input| {
            assert input[pos - 1..pos + 1] == [input[pos - 1], input[pos]];
          }
        }
      }
    }

    /** The bytes before the first `delimiter`, which is left unconsumed; at end of input
        an empty result and Eof. */
    method ReadUntilDelimiter(delimiter: byte) returns (bytes: seq<byte>, err: Outcome)
      requires Valid()
      modifies this
      ensures Valid()
      ensures var r := Cursor.ReadUntilDelimiter(input, old(pos), delimiter); bytes == r.value && err == r.err && pos == r.pos
    {
      var buffer := [];
      while true
        invariant Valid() && old(pos) <= pos
        invariant buffer == input[old(pos)..pos]
        invariant forall k :: old(pos) <= k < pos ==> input[k] != delimiter
        decreases |input| - pos
      {
        var next, e := PeekNextByte();
        if e != Pass {
          FirstIndexIs(input, old(pos), delimiter, pos);
          return [], e;
        }
        if next == delimiter {
          FirstIndexIs(input, old(pos), delimiter, pos);
          return buffer, Pass;
        }
        var b, e2 := NextByte();
        // The source returns an empty slice and e2 here; it cannot fail after the peek.
        assert e2 == Pass;
        buffer := buffer + [b];
      }
    }

    /** Two ExpectByte calls: '\r', then '\n'. */
    method ExpectCRLF() returns (err: Outcome)
      requires Valid()
      modifies this
      ensures Valid()
      ensures var r := Cursor.ExpectCrlf(input, old(pos)); err == r.err && pos == r.pos
    {
      err := ExpectByte(CR);
      if err != Pass {
        return err;
      }
      err := ExpectByte(LF);
    }

    /** Consume exactly one byte, even when it is not the expected one. */
    method ExpectByte(expected: byte) returns (err: Outcome)
      requires Valid()
      modifies this
      ensures Valid()
      ensures var r := Cursor.ExpectByte(input, old(pos), expected); err == r.err && pos == r.pos
    {
      var b, e := NextByte();
      if e != Pass {
        return e;
      }
      if b != expected {
        return Fail(InvalidHeader);
      }
      err := Pass;
    }
  }
}
