/** The behaviour of the byte cursors as pure functions of (input, position).
    Both the stream cursor (parser.go) and the buffer cursor (lexer.go) are proved
    to compute exactly these functions; the decoder grammar is written with them. */
module Cursor {

  import opened Errors
  import opened Bytes

  /** The result of one cursor operation: the Go return value, the Go error, and the
      position of the cursor afterwards. */
  datatype Step<T> = Step(value: T, err: Outcome, pos: nat)

  /** `sq` occurs in `s` starting at index i. */
  predicate OccursAt(s: seq<byte>, i: nat, sq: seq<byte>) {
    i + |sq| <= |s| && s[i..i + |sq|] == sq
  }

  /** Peek one byte: never moves. */
  function Peek(s: seq<byte>, p: nat): (r: Step<byte>)
    requires p <= |s|
    ensures r.pos == p
    ensures r.err == Pass <==> p < |s|
    ensures r.err == Pass ==> r.value == s[p]
    ensures r.err != Pass ==> r.err == Fail(Eof) && r.value == 0
  {
    if p < |s| then Step(s[p], Pass, p) else Step(0, Fail(Eof), p)
  }

  /** Consume one byte: advances by exactly one, or fails at end of input without moving. */
  function Next(s: seq<byte>, p: nat): (r: Step<byte>)
    requires p <= |s|
    ensures r.err == Pass <==> p < |s|
    ensures r.err == Pass ==> r.value == s[p] && r.pos == p + 1
    ensures r.err != Pass ==> r.err == Fail(Eof) && r.value == 0 && r.pos == p
  {
    if p < |s| then Step(s[p], Pass, p + 1) else Step(0, Fail(Eof), p)
  }

  /** Consume n bytes; at end of input, fail with the shorter prefix that was consumed. */
  function ReadBytes(s: seq<byte>, p: nat, n: nat): (r: Step<seq<byte>>)
    requires p <= |s|
    ensures r.err == Pass <==> p + n <= |s|
    ensures p <= r.pos <= |s| && r.value == s[p..r.pos]
    ensures r.err == Pass ==> r.pos == p + n
    ensures r.err != Pass ==> r.err == Fail(Eof) && r.pos == |s| && |r.value| < n
  {
    if p + n <= |s| then Step(s[p..p + n], Pass, p + n) else Step(s[p..], Fail(Eof), |s|)
  }

  /** Consume the bytes before the first `d`, leaving `d` unread; at end of input,
      fail with an empty result. */
  function ReadUntilDelimiter(s: seq<byte>, p: nat, d: byte): (r: Step<seq<byte>>)
    requires p <= |s|
    ensures p <= r.pos <= |s|
    ensures forall k :: p <= k < r.pos ==> s[k] != d
    ensures r.err == Pass ==> r.pos < |s| && s[r.pos] == d && r.value == s[p..r.pos]
    ensures r.err != Pass ==> r.err == Fail(Eof) && r.value == [] && r.pos == |s|
  {
    var i := FirstIndex(s, p, d);
    if i < |s| then Step(s[p..i], Pass, i) else Step([], Fail(Eof), |s|)
  }

  /** Consume the maximal run of digits and parse it as a 16-bit unsigned number; the
      first non-digit is left unread. */
  function ReadUint16(s: seq<byte>, p: nat): (r: Step<uint16>)
    requires p <= |s|
    ensures p <= r.pos <= |s| && AllDigits(s[p..r.pos])
    ensures r.pos < |s| ==> !IsDigit(s[r.pos])
    ensures r.err == Pass <==> p < r.pos && DigitsValue(s[p..r.pos]) <= 65535
    ensures r.err == Pass ==> r.value as int == DigitsValue(s[p..r.pos])
    ensures r.err != Pass ==> r.err == Fail(BadNumber) && r.value == 0
  {
    var e := DigitRunEnd(s, p);
    var (n, err) := ParseUint16(s[p..e]);
    Step(n, err, e)
  }

  /** Consume one byte and compare it; a mismatched byte is consumed too. */
  function ExpectByte(s: seq<byte>, p: nat, b: byte): (r: Step<()>)
    requires p <= |s|
    ensures r.err == Fail(Eof) <==> p == |s|
    ensures r.err == Pass <==> p < |s| && s[p] == b
    ensures r.err != Pass ==> r.err == Fail(Eof) || r.err == Fail(InvalidHeader)
    ensures r.pos == if p < |s| then p + 1 else p
  {
    if p == |s| then Step((), Fail(Eof), p)
    else if s[p] != b then Step((), Fail(InvalidHeader), p + 1)
    else Step((), Pass, p + 1)
  }

  /** Two ExpectByte calls, for '\r' then '\n'. */
  function ExpectCrlf(s: seq<byte>, p: nat): (r: Step<()>)
    requires p <= |s|
    ensures r.err == Pass <==> OccursAt(s, p, CRLF)
    ensures r.err == Pass ==> r.pos == p + 2
    ensures r.err != Pass ==> r.err == Fail(Eof) || r.err == Fail(InvalidHeader)
    ensures p <= r.pos <= p + 2 && r.pos <= |s|
    ensures p == |s| ==> r == Step((), Fail(Eof), p)
    ensures p < |s| && s[p] != CR ==> r == Step((), Fail(InvalidHeader), p + 1)
    ensures p + 1 == |s| && s[p] == CR ==> r == Step((), Fail(Eof), p + 1)
    ensures p + 1 < |s| && s[p] == CR && s[p + 1] != LF ==> r == Step((), Fail(InvalidHeader), p + 2)
  {
    var first := ExpectByte(s, p, CR);
    if first.err != Pass then
      assert p + 2 <= |s| ==> s[p..p + 2][0] == s[p];
      first
    else
      var second := ExpectByte(s, first.pos, LF);
      assert p + 2 <= |s| ==> s[p..p + 2][1] == s[p + 1];
      assert second.err == Pass ==> s[p..p + 2] == CRLF;
      second
  }

  /** The end of the leftmost occurrence of `sq` that starts at or after p: an
      ordinary forward substring search. */
  function FirstOccurrenceEnd(s: seq<byte>, p: nat, sq: seq<byte>): (r: Option<nat>)
    requires p <= |s|
    ensures r.Some? ==> p + |sq| <= r.value <= |s| && OccursAt(s, r.value - |sq|, sq)
    ensures r.Some? ==> forall i :: p <= i < r.value - |sq| ==> !OccursAt(s, i, sq)
    ensures r.None? ==> forall i :: p <= i <= |s| ==> !OccursAt(s, i, sq)
    decreases |s| - p
  {
    if p + |sq| > |s| then None
    else if s[p..p + |sq|] == sq then Some(p + |sq|)
    else FirstOccurrenceEnd(s, p + 1, sq)
  }

  /** FirstOccurrenceEnd is determined by its contract: the end of an occurrence with
      no occurrence starting before it. */
  lemma {:induction false} FirstOccurrenceEndIs(s: seq<byte>, p: nat, sq: seq<byte>, e: nat)
    requires p + |sq| <= e <= |s| && OccursAt(s, e - |sq|, sq)
    requires forall i :: p <= i < e - |sq| ==> !OccursAt(s, i, sq)
    ensures FirstOccurrenceEnd(s, p, sq) == Some(e)
    decreases e - p
  {
    if p < e - |sq| {
      assert !OccursAt(s, p, sq);
      FirstOccurrenceEndIs(s, p + 1, sq, e);
    }
  }

  /** The stream cursor's readUntilCRLF: consume through the first "\r\n"; the result
      is always empty. */
  function ReadUntilCrlf(s: seq<byte>, p: nat): (r: Step<seq<byte>>)
    requires p <= |s|
    ensures r.value == []
    ensures p <= r.pos <= |s|
    ensures r.err == Pass ==> p + 2 <= r.pos && OccursAt(s, r.pos - 2, CRLF)
    ensures r.err == Pass ==> forall i :: p <= i < r.pos - 2 ==> !OccursAt(s, i, CRLF)
    ensures r.err != Pass ==> r.err == Fail(Eof) && r.pos == |s|
    ensures r.err != Pass ==> forall i :: p <= i <= |s| ==> !OccursAt(s, i, CRLF)
  {
    match FirstOccurrenceEnd(s, p, CRLF)
    case Some(e) => Step([], Pass, e)
    case None => Step([], Fail(Eof), |s|)
  }

  /** The buffer cursor's search for `sq`, as written: an attempt that started at
      `start` has matched k bytes; a mismatch restarts the search at the byte AFTER
      the mismatched one. Returns the end of the match, or None at end of input. */
  function RestartScan(s: seq<byte>, start: nat, k: nat, sq: seq<byte>): (r: Option<nat>)
    requires k <= |sq| && start + k <= |s|
    ensures r.Some? ==> start + |sq| <= r.value <= |s|
    decreases |s| - (start + k)
  {
    if k == |sq| then Some(start + k)
    else if start + k == |s| then None
    else if s[start + k] != sq[k] then RestartScan(s, start + k + 1, 0, sq)
    else RestartScan(s, start, k + 1, sq)
  }

  /** An attempt whose first k bytes match ends, if it succeeds, right after an
      occurrence of `sq`: the search never reports a match that is not there. */
  lemma {:induction false} RestartScanOccurs(s: seq<byte>, start: nat, k: nat, sq: seq<byte>)
    requires k <= |sq| && start + k <= |s| && s[start..start + k] == sq[..k]
    ensures RestartScan(s, start, k, sq).Some? ==> OccursAt(s, RestartScan(s, start, k, sq).value - |sq|, sq)
    decreases |s| - (start + k)
  {
    if k == |sq| {
      assert sq[..k] == sq;
    } else if start + k == |s| {
    } else if s[start + k] != sq[k] {
      assert s[start + k + 1..start + k + 1] == sq[..0];
      RestartScanOccurs(s, start + k + 1, 0, sq);
    } else {
      assert s[start..start + k + 1] == s[start..start + k] + [s[start + k]];
      assert sq[..k + 1] == sq[..k] + [sq[k]];
      RestartScanOccurs(s, start, k + 1, sq);
    }
  }

  /** The buffer cursor's readUntilByteSequence: on success the result is a copy of
      `sq` that ends at the new position; at end of input, an empty result. */
  function ReadUntilByteSequence(s: seq<byte>, p: nat, sq: seq<byte>): (r: Step<seq<byte>>)
    requires p <= |s|
    ensures p <= r.pos <= |s|
    ensures r.err == Pass ==> p + |sq| <= r.pos && r.value == sq && s[r.pos - |sq|..r.pos] == sq
    ensures r.err != Pass ==> r.err == Fail(Eof) && r.value == [] && r.pos == |s|
  {
    assert s[p..p] == sq[..0];
    RestartScanOccurs(s, p, 0, sq);
    match RestartScan(s, p, 0, sq)
    case Some(e) => Step(s[e - |sq|..e], Pass, e)
    case None => Step([], Fail(Eof), |s|)
  }

  // ---------------------------------------------------------------------------
  // The restarting search misses overlapping matches.

  /** As written: in "\r\r\n" the search for "\r\n" matches '\r', fails on the second
      '\r', restarts after it, and runs off the end, although "\r\n" occurs at 1. */
  lemma {:induction false} RestartScanMissesOverlap()
    ensures ReadUntilByteSequence([CR, CR, LF], 0, CRLF) == Step([], Fail(Eof), 3)
    ensures OccursAt([CR, CR, LF], 1, CRLF)
  {
    var s := [CR, CR, LF];
    assert RestartScan(s, 3, 0, CRLF) == None;
    assert RestartScan(s, 2, 0, CRLF) == RestartScan(s, 3, 0, CRLF);
    assert RestartScan(s, 0, 1, CRLF) == RestartScan(s, 2, 0, CRLF);
    assert RestartScan(s, 0, 0, CRLF) == RestartScan(s, 0, 1, CRLF);
    assert s[1..3] == CRLF;
  }

  /** Corrected: the leftmost-occurrence search finds it. */
  lemma {:induction false} FirstOccurrenceFindsOverlap()
    ensures FirstOccurrenceEnd([CR, CR, LF], 0, CRLF) == Some(3)
  {
    var s := [CR, CR, LF];
    assert s[0..2] != CRLF by { assert s[0..2][1] == CR; }
    assert s[1..3] == CRLF;
  }

  /** Whenever the restarting search succeeds it ends no earlier than the leftmost
      occurrence: it never invents a match, it can only skip one. */
  lemma {:induction false} RestartScanNotBeforeFirstOccurrence(s: seq<byte>, p: nat, sq: seq<byte>)
    requires p <= |s|
    requires RestartScan(s, p, 0, sq).Some?
    ensures FirstOccurrenceEnd(s, p, sq).Some?
    ensures FirstOccurrenceEnd(s, p, sq).value <= RestartScan(s, p, 0, sq).value
  {
    var e := RestartScan(s, p, 0, sq).value;
    assert s[p..p] == sq[..0];
    RestartScanOccurs(s, p, 0, sq);
  }

  // ---------------------------------------------------------------------------
  // Each operation applied to input of a known shape.

  lemma {:induction false} ExpectByteAt(s: seq<byte>, p: nat, b: byte, rest: seq<byte>)
    requires p <= |s| && s[p..] == [b] + rest
    ensures ExpectByte(s, p, b) == Step((), Pass, p + 1)
    ensures s[p + 1..] == rest
  {
    assert s[p] == s[p..][0];
    assert s[p + 1..] == s[p..][1..];
  }

  lemma {:induction false} ExpectCrlfAt(s: seq<byte>, p: nat, rest: seq<byte>)
    requires p <= |s| && s[p..] == CRLF + rest
    ensures ExpectCrlf(s, p) == Step((), Pass, p + 2)
    ensures s[p + 2..] == rest
  {
    assert s[p..p + 2] == s[p..][..2];
    assert s[p + 2..] == s[p..][2..];
  }

  /** A token w followed by the delimiter d, with no d inside w, is read as w. */
  lemma {:induction false} ReadUntilDelimiterAt(s: seq<byte>, p: nat, w: seq<byte>, d: byte, rest: seq<byte>)
    requires p <= |s| && s[p..] == w + [d] + rest
    requires forall k :: 0 <= k < |w| ==> w[k] != d
    ensures ReadUntilDelimiter(s, p, d) == Step(w, Pass, p + |w|)
    ensures s[p + |w|..] == [d] + rest
  {
    var t := s[p..];
    assert forall k :: p <= k < p + |w| ==> s[k] == t[k - p] == w[k - p];
    assert s[p + |w|] == t[|w|] == d;
    assert s[p..p + |w|] == t[..|w|] == w;
    assert s[p + |w|..] == t[|w|..];
  }

  /** Bytes with no "\r\n" in them, then "\r\n": the stream cursor's readUntilCRLF stops
      right after that "\r\n". */
  lemma {:induction false} ReadUntilCrlfAt(s: seq<byte>, p: nat, w: seq<byte>, rest: seq<byte>)
    requires p <= |s| && s[p..] == w + (CRLF + rest)
    requires forall i :: 0 <= i < |w| ==> !OccursAt(w, i, CRLF)
    ensures ReadUntilCrlf(s, p) == Step([], Pass, p + |w| + 2)
  {
    var t := s[p..];
    var e := p + |w|;
    assert s[e..e + 2] == t[|w|..|w| + 2] == CRLF;
    forall i | p <= i < e ensures !OccursAt(s, i, CRLF) {
      if i + 1 < e {
        assert s[i..i + 2] == t[i - p..i - p + 2] == w[i - p..i - p + 2];
        assert !OccursAt(w, i - p, CRLF);
      } else {
        assert s[i + 1] == t[|w|] == CR;
      }
    }
    FirstOccurrenceEndIs(s, p, CRLF, e + 2);
  }

  /** A non-empty numeral of at most 65535 followed by a non-digit is read as its value. */
  lemma {:induction false} ReadUint16At(s: seq<byte>, p: nat, w: seq<byte>, rest: seq<byte>)
    requires p <= |s| && s[p..] == w + rest
    requires |w| >= 1 && AllDigits(w) && DigitsValue(w) <= 65535
    requires |rest| >= 1 && !IsDigit(rest[0])
    ensures ReadUint16(s, p) == Step(DigitsValue(w) as uint16, Pass, p + |w|)
    ensures s[p + |w|..] == rest
  {
    var t := s[p..];
    var e := p + |w|;
    assert s[p..e] == t[..|w|] == w;
    assert s[e..] == t[|w|..];
    forall k | p <= k < e ensures IsDigit(s[k]) {
      assert s[k] == s[p..e][k - p];
    }
    assert s[e] == s[e..][0];
    DigitRunEndIs(s, p, e);
    assert ParseUint16(s[p..e]) == (DigitsValue(w) as uint16, Pass);
  }

  // ---------------------------------------------------------------------------
  // Locality: a successful operation depends only on the bytes it consumed and,
  // for the operations that peek, the one byte after them.

  /** s and s2 have the same first k bytes. */
  predicate Agree(s: seq<byte>, s2: seq<byte>, k: nat) {
    k <= |s| && k <= |s2| && forall j :: 0 <= j < k ==> s[j] == s2[j]
  }

  lemma {:induction false} ExpectByteLocal(s: seq<byte>, s2: seq<byte>, p: nat, b: byte)
    requires p <= |s| && ExpectByte(s, p, b).err == Pass
    requires Agree(s, s2, p + 1)
    ensures ExpectByte(s2, p, b) == ExpectByte(s, p, b)
  {
  }

  lemma {:induction false} ExpectCrlfLocal(s: seq<byte>, s2: seq<byte>, p: nat)
    requires p <= |s| && ExpectCrlf(s, p).err == Pass
    requires Agree(s, s2, p + 2)
    ensures ExpectCrlf(s2, p) == ExpectCrlf(s, p)
  {
    assert s[p..p + 2] == CRLF;
    assert s2[p..p + 2] == s[p..p + 2];
  }

  lemma {:induction false} ReadUntilDelimiterLocal(s: seq<byte>, s2: seq<byte>, p: nat, d: byte)
    requires p <= |s| && ReadUntilDelimiter(s, p, d).err == Pass
    requires Agree(s, s2, ReadUntilDelimiter(s, p, d).pos + 1)
    ensures ReadUntilDelimiter(s2, p, d) == ReadUntilDelimiter(s, p, d)
  {
    var i := ReadUntilDelimiter(s, p, d).pos;
    FirstIndexIs(s2, p, d, i);
    assert s2[p..i] == s[p..i];
  }

  lemma {:induction false} ReadUint16Local(s: seq<byte>, s2: seq<byte>, p: nat)
    requires p <= |s| && ReadUint16(s, p).err == Pass
    requires Agree(s, s2, ReadUint16(s, p).pos + 1)
    ensures ReadUint16(s2, p) == ReadUint16(s, p)
  {
    var e := ReadUint16(s, p).pos;
    forall k | p <= k < e ensures IsDigit(s2[k]) {
      assert s2[k] == s[k] == s[p..e][k - p];
    }
    DigitRunEndIs(s2, p, e);
    assert s2[p..e] == s[p..e];
  }

  lemma {:induction false} ReadUntilCrlfLocal(s: seq<byte>, s2: seq<byte>, p: nat)
    requires p <= |s| && ReadUntilCrlf(s, p).err == Pass
    requires Agree(s, s2, ReadUntilCrlf(s, p).pos)
    ensures ReadUntilCrlf(s2, p) == ReadUntilCrlf(s, p)
  {
    var e := ReadUntilCrlf(s, p).pos;
    assert s2[e - 2..e] == s[e - 2..e];
    assert OccursAt(s2, e - 2, CRLF);
    forall i | p <= i < e - 2 ensures !OccursAt(s2, i, CRLF) {
      assert s[i..i + 2] == s2[i..i + 2];
      assert !OccursAt(s, i, CRLF);
    }
    FirstOccurrenceEndIs(s2, p, CRLF, e);
  }
}
