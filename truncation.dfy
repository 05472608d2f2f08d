/** What the decoder reports for a header that the input cuts short: the whole cut
    input is consumed, and the error tells end of input (Eof, or BadNumber where a
    port should begin) from a malformed header (InvalidHeader, for UNKNOWN without
    its "\r\n"). Each decoder stage gets its own lemma on a cut of what it reads, and
    TruncatedHeaderRejected puts them together for every accepted header. */
module HeaderTruncation {

  import opened Errors
  import opened Bytes
  import IPv4
  import opened Cursor
  import opened ProxyProtocol
  import opened HeaderProperties

  // ---------------------------------------------------------------------------
  // Cutting a concatenation

  lemma {:induction false} CutWithin(a: seq<byte>, b: seq<byte>, j: nat)
    requires j <= |a|
    ensures (a + b)[..j] == a[..j]
  {
  }

  lemma {:induction false} CutPast(a: seq<byte>, b: seq<byte>, j: nat)
    requires |a| <= j <= |a| + |b|
    ensures (a + b)[..j] == a + b[..j - |a|]
  {
  }

  /** A token, a space and a cut of what follows. */
  lemma {:induction false} CutAfterToken(x: seq<byte>, rest: seq<byte>, j: nat)
    requires |x| < j <= |x| + 1 + |rest|
    ensures (x + ([SP] + rest))[..j] == x + ([SP] + rest[..j - |x| - 1])
  {
    CutPast(x, [SP] + rest, j);
    CutPast([SP], rest, j - |x|);
  }

  lemma {:induction false} DropPast(a: seq<byte>, b: seq<byte>, i: nat)
    requires |a| <= i <= |a| + |b|
    ensures (a + b)[i..] == b[i - |a|..]
  {
  }

  // ---------------------------------------------------------------------------
  // The reads on a cut. Each lemma below reads s from p on, where s[p..] is `cut`,
  // the first |cut| bytes of the text the stage expects.

  /** A cut inside a token: no space ends it, so the read runs to the end. */
  lemma {:induction false} TokenCut(s: seq<byte>, p: nat, x: seq<byte>, cut: seq<byte>)
    requires SP !in x && p <= |s| && s[p..] == cut && |cut| <= |x| && cut == x[..|cut|]
    ensures ReadUntilDelimiter(s, p, SP) == Step([], Fail(Eof), |s|)
  {
    forall k | p <= k < |s| ensures s[k] != SP {
      assert s[k] == cut[k - p] == x[k - p];
    }
  }

  /** A non-empty cut inside a port numeral: the digits read up to the end parse. */
  lemma {:induction false} DigitsCut(s: seq<byte>, p: nat, w: seq<byte>, cut: seq<byte>)
    requires PortToken(w) && p <= |s| && s[p..] == cut && 1 <= |cut| <= |w| && cut == w[..|cut|]
    ensures ReadUint16(s, p).err == Pass && ReadUint16(s, p).pos == |s|
  {
    forall k | p <= k < |s| ensures IsDigit(s[k]) {
      assert s[k] == cut[k - p] == w[k - p];
    }
    assert s[p..|s|] == w[..|cut|];
    IPv4.PrefixValue(w, |cut|);
  }

  // ---------------------------------------------------------------------------
  // The stages on a cut

  /** A cut of "w2\r\n": BadNumber when nothing of the port is left, else Eof. */
  lemma {:induction false} DestPortCut(s: seq<byte>, family: seq<byte>, a: IPv4.IP, b: IPv4.IP, v: uint16, p: nat,
                                       w2: seq<byte>, cut: seq<byte>)
    requires PortToken(w2)
    requires p <= |s| && s[p..] == cut && |cut| < |w2| + 2 && cut == (w2 + CRLF)[..|cut|]
    ensures DecodeDestPort(s, family, a, b, v, p)
         == Step(ZeroHeader, if |s| == p then Fail(BadNumber) else Fail(Eof), |s|)
  {
    var j := |cut|;
    if 1 <= j <= |w2| {
      CutWithin(w2, CRLF, j);
      DigitsCut(s, p, w2, cut);
    } else if j == |w2| + 1 {
      CutPast(w2, CRLF, j);
      assert CRLF[..1] == [CR];
      ReadUint16At(s, p, w2, [CR]);
      assert s[p + |w2|] == cut[|w2|] == CR;
    }
  }

  /** The source port read whole, then a cut of "w2\r\n". */
  lemma {:induction false} PortsCutPastSrc(s: seq<byte>, family: seq<byte>, a: IPv4.IP, b: IPv4.IP, p: nat,
                                           w1: seq<byte>, w2: seq<byte>, cut: seq<byte>)
    requires PortToken(w1) && PortToken(w2)
    requires p <= |s| && s[p..] == w1 + ([SP] + cut)
    requires |cut| < |w2| + 2 && cut == (w2 + CRLF)[..|cut|]
    ensures DecodePorts(s, family, a, b, p)
         == Step(ZeroHeader, if |s| == p + |w1| + 1 then Fail(BadNumber) else Fail(Eof), |s|)
  {
    var v := DigitsValue(w1) as uint16;
    var q := p + |w1|;
    assert q + 1 <= |s| && s[q + 1..] == cut
        && DecodePorts(s, family, a, b, p) == DecodeDestPort(s, family, a, b, v, q + 1) by {
      SrcPortAt(s, p, w1, cut);
      DecodePortsIs(s, family, a, b, p, v, q);
    }
    DestPortCut(s, family, a, b, v, q + 1, w2, cut);
  }

  /** A cut of "w1 w2\r\n": BadNumber right where a port should begin, else Eof. */
  lemma {:induction false} PortsCut(s: seq<byte>, family: seq<byte>, a: IPv4.IP, b: IPv4.IP, p: nat,
                                    w1: seq<byte>, w2: seq<byte>, cut: seq<byte>)
    requires PortToken(w1) && PortToken(w2)
    requires p <= |s| && s[p..] == cut
    requires |cut| < |w1| + |w2| + 3 && cut == (w1 + ([SP] + (w2 + CRLF)))[..|cut|]
    ensures DecodePorts(s, family, a, b, p)
         == Step(ZeroHeader, if |s| == p || |s| == p + |w1| + 1 then Fail(BadNumber) else Fail(Eof), |s|)
  {
    var j := |cut|;
    if 1 <= j <= |w1| {
      CutWithin(w1, [SP] + (w2 + CRLF), j);
      DigitsCut(s, p, w1, cut);
    } else if j > |w1| {
      CutAfterToken(w1, w2 + CRLF, j);
      PortsCutPastSrc(s, family, a, b, p, w1, w2, (w2 + CRLF)[..j - |w1| - 1]);
    }
  }

  /** The destination address read whole, then a cut of "w1 w2\r\n". */
  lemma {:induction false} DestAddressCutPastToken(s: seq<byte>, family: seq<byte>, a: IPv4.IP, p: nat, y: seq<byte>,
                                                   b: IPv4.IP, w1: seq<byte>, w2: seq<byte>, cut: seq<byte>)
    requires SP !in y && IPv4.Parse(y) == Some(b) && PortToken(w1) && PortToken(w2)
    requires p <= |s| && s[p..] == y + ([SP] + cut)
    requires |cut| < |w1| + |w2| + 3 && cut == (w1 + ([SP] + (w2 + CRLF)))[..|cut|]
    ensures DecodeDestAddress(s, family, a, p)
         == Step(ZeroHeader, if |s| == p + |y| + 1 || |s| == p + |y| + |w1| + 2 then Fail(BadNumber) else Fail(Eof), |s|)
  {
    var q := p + |y|;
    assert q + 1 <= |s| && s[q + 1..] == cut
        && DecodeDestAddress(s, family, a, p) == DecodePorts(s, family, a, b, q + 1) by {
      TokenAt(s, p, y, cut);
      DecodeDestAddressIs(s, family, p, a, y, b, q, q + 1);
    }
    PortsCut(s, family, a, b, q + 1, w1, w2, cut);
  }

  /** A cut of "y w1 w2\r\n", where y parses as b. */
  lemma {:induction false} DestAddressCut(s: seq<byte>, family: seq<byte>, a: IPv4.IP, p: nat, y: seq<byte>, b: IPv4.IP,
                                          w1: seq<byte>, w2: seq<byte>, cut: seq<byte>)
    requires SP !in y && IPv4.Parse(y) == Some(b) && PortToken(w1) && PortToken(w2)
    requires p <= |s| && s[p..] == cut
    requires |cut| < |y| + |w1| + |w2| + 4 && cut == (y + ([SP] + (w1 + ([SP] + (w2 + CRLF)))))[..|cut|]
    ensures DecodeDestAddress(s, family, a, p)
         == Step(ZeroHeader, if |s| == p + |y| + 1 || |s| == p + |y| + |w1| + 2 then Fail(BadNumber) else Fail(Eof), |s|)
  {
    var j := |cut|;
    var rest := w1 + ([SP] + (w2 + CRLF));
    if j <= |y| {
      CutWithin(y, [SP] + rest, j);
      TokenCut(s, p, y, cut);
    } else {
      CutAfterToken(y, rest, j);
      DestAddressCutPastToken(s, family, a, p, y, b, w1, w2, rest[..j - |y| - 1]);
    }
  }

  /** The source address read whole, then a cut of "y w1 w2\r\n". */
  lemma {:induction false} AddressesCutPastSrc(s: seq<byte>, family: seq<byte>, p: nat, x: seq<byte>, a: IPv4.IP,
                                               y: seq<byte>, b: IPv4.IP, w1: seq<byte>, w2: seq<byte>, cut: seq<byte>)
    requires SP !in x && IPv4.Parse(x) == Some(a) && SP !in y && IPv4.Parse(y) == Some(b)
    requires PortToken(w1) && PortToken(w2)
    requires p <= |s| && s[p..] == x + ([SP] + cut)
    requires |cut| < |y| + |w1| + |w2| + 4 && cut == (y + ([SP] + (w1 + ([SP] + (w2 + CRLF)))))[..|cut|]
    ensures var p1 := p + |x| + |y| + 2;
      DecodeAddresses(s, family, p)
        == Step(ZeroHeader, if |s| == p1 || |s| == p1 + |w1| + 1 then Fail(BadNumber) else Fail(Eof), |s|)
  {
    var q := p + |x|;
    assert q + 1 <= |s| && s[q + 1..] == cut
        && DecodeAddresses(s, family, p) == DecodeDestAddress(s, family, a, q + 1) by {
      TokenAt(s, p, x, cut);
      DecodeAddressesIs(s, family, p, x, a, q, q + 1);
    }
    DestAddressCut(s, family, a, q + 1, y, b, w1, w2, cut);
  }

  /** A cut of "x y w1 w2\r\n", where x parses as a and y as b. */
  lemma {:induction false} AddressesCut(s: seq<byte>, family: seq<byte>, p: nat, x: seq<byte>, a: IPv4.IP,
                                        y: seq<byte>, b: IPv4.IP, w1: seq<byte>, w2: seq<byte>, cut: seq<byte>)
    requires SP !in x && IPv4.Parse(x) == Some(a) && SP !in y && IPv4.Parse(y) == Some(b)
    requires PortToken(w1) && PortToken(w2)
    requires p <= |s| && s[p..] == cut
    requires |cut| < |x| + |y| + |w1| + |w2| + 5
    requires cut == (x + ([SP] + (y + ([SP] + (w1 + ([SP] + (w2 + CRLF)))))))[..|cut|]
    ensures var p1 := p + |x| + |y| + 2;
      DecodeAddresses(s, family, p)
        == Step(ZeroHeader, if |s| == p1 || |s| == p1 + |w1| + 1 then Fail(BadNumber) else Fail(Eof), |s|)
  {
    var j := |cut|;
    var rest := y + ([SP] + (w1 + ([SP] + (w2 + CRLF))));
    if j <= |x| {
      CutWithin(x, [SP] + rest, j);
      TokenCut(s, p, x, cut);
    } else {
      CutAfterToken(x, rest, j);
      AddressesCutPastSrc(s, family, p, x, a, y, b, w1, w2, rest[..j - |x| - 1]);
    }
  }

  // ---------------------------------------------------------------------------
  // Whole lines

  /** "PROXY" and part of the family token: Eof at the end of the cut. */
  lemma {:induction false} FamilyCut(family: seq<byte>, rest: seq<byte>, k: nat)
    requires IsValidInetProtocolAndFamily(family)
    requires 5 <= k <= 6 + |family|
    ensures var t := (Signature + ([SP] + (family + ([SP] + rest))))[..k];
      Decode(t) == Step(ZeroHeader, Fail(Eof), k)
  {
    var t := (Signature + ([SP] + (family + ([SP] + rest))))[..k];
    CutPast(Signature, [SP] + (family + ([SP] + rest)), k);
    if k == 5 {
      assert t == Signature;
    } else {
      CutPast([SP], family + ([SP] + rest), k - 5);
      CutWithin(family, [SP] + rest, k - 6);
      assert t == Signature + ([SP] + family[..k - 6]);
      assert t[..5] == Signature && t[5] == SP && t[6..] == family[..k - 6];
      TokenCut(t, 6, family, family[..k - 6]);
    }
  }

  /** "PROXY family " and a cut of what follows. */
  lemma {:induction false} AfterFamilyCut(family: seq<byte>, rest: seq<byte>, k: nat) returns (t: seq<byte>, q: nat)
    requires IsValidInetProtocolAndFamily(family)
    requires 6 + |family| < k <= |Signature + ([SP] + (family + ([SP] + rest)))|
    ensures t == (Signature + ([SP] + (family + ([SP] + rest))))[..k]
    ensures q == 6 + |family| && |t| == k && t[q + 1..] == rest[..k - q - 1]
    ensures ExpectByte(t, 5, SP) == Step((), Pass, 6) && ReadUntilDelimiter(t, 6, SP) == Step(family, Pass, q)
    ensures t[..5] == Signature
  {
    q := 6 + |family|;
    var cut := rest[..k - q - 1];
    t := (Signature + ([SP] + (family + ([SP] + rest))))[..k];
    CutPast(Signature, [SP] + (family + ([SP] + rest)), k);
    CutPast([SP], family + ([SP] + rest), k - 5);
    CutAfterToken(family, rest, k - 6);
    assert t == Signature + ([SP] + (family + ([SP] + cut)));
    assert t[..5] == Signature;
    ExpectByteAt(t, 5, SP, family + ([SP] + cut));
    TokenAt(t, 6, family, cut);
  }

  /** Every cut of a TCP line from the first five bytes on: the cut is consumed whole,
      with BadNumber where a port should begin (after the space that follows the
      destination address, and after the one that follows the source port) and Eof
      everywhere else. */
  lemma {:induction false} TcpCut(family: seq<byte>, x: seq<byte>, a: IPv4.IP, y: seq<byte>, b: IPv4.IP,
                                  w1: seq<byte>, w2: seq<byte>, k: nat)
    requires family == Tcp4 || family == Tcp6
    requires SP !in x && IPv4.Parse(x) == Some(a) && SP !in y && IPv4.Parse(y) == Some(b)
    requires PortToken(w1) && PortToken(w2)
    requires 5 <= k < |Line(family, Fields(x, y, w1, w2))|
    ensures var p1 := 6 + |family| + 1 + |x| + 1 + |y| + 1;
      Decode(Line(family, Fields(x, y, w1, w2))[..k])
        == Step(ZeroHeader, if k == p1 || k == p1 + |w1| + 1 then Fail(BadNumber) else Fail(Eof), k)
  {
    var rest := x + ([SP] + (y + ([SP] + (w1 + ([SP] + (w2 + CRLF))))));
    FieldsCrlf(x, y, w1, w2);
    assert Line(family, Fields(x, y, w1, w2)) == Signature + ([SP] + (family + ([SP] + rest)));
    if k <= 6 + |family| {
      FamilyCut(family, rest, k);
    } else {
      var t, q := AfterFamilyCut(family, rest, k);
      DecodeTcpIs(t, family, q, q + 1);
      AddressesCut(t, family, q + 1, x, a, y, b, w1, w2, rest[..k - q - 1]);
    }
  }

  /** A cut of "PROXY UNKNOWN junk\r\n" holds no "\r\n" after the family token. */
  lemma {:induction false} UnknownCutNoCrlf(t: seq<byte>, junk: seq<byte>, k: nat)
    requires NoCrlf(junk) && 14 <= k < 16 + |junk|
    requires |t| == k && t[13] == SP && t[14..] == (junk + CRLF)[..k - 14]
    ensures forall i :: 13 <= i <= |t| ==> !OccursAt(t, i, CRLF)
  {
    forall i | 13 <= i <= |t| ensures !OccursAt(t, i, CRLF) {
      if OccursAt(t, i, CRLF) {
        assert t[i] == t[i..i + 2][0] == CR && t[i + 1] == t[i..i + 2][1] == LF;
        var m := i - 14;
        assert t[i] == t[14..][m] == (junk + CRLF)[m];
        assert t[i + 1] == t[14..][m + 1] == (junk + CRLF)[m + 1];
        if m + 1 < |junk| {
          assert junk[m..m + 2] == [junk[m], junk[m + 1]] == CRLF;
          assert OccursAt(junk, m, CRLF);
        }
      }
    }
  }

  /** Every cut of an UNKNOWN line from the first five bytes on: the cut is consumed
      whole, with Eof up to the family token and InvalidHeader once the space after
      UNKNOWN has been read, since no "\r\n" is left to end the line. */
  lemma {:induction false} UnknownCut(junk: seq<byte>, k: nat)
    requires NoCrlf(junk) && 5 <= k < |Line(Unknown, junk)|
    ensures Decode(Line(Unknown, junk)[..k])
         == Step(ZeroHeader, if k < 14 then Fail(Eof) else Fail(InvalidHeader), k)
  {
    var rest := junk + CRLF;
    assert Line(Unknown, junk) == Signature + ([SP] + (Unknown + ([SP] + rest)));
    if k < 14 {
      FamilyCut(Unknown, rest, k);
    } else {
      var t, q := AfterFamilyCut(Unknown, rest, k);
      assert t[13] == SP by {
        assert t[13] == Line(Unknown, junk)[13];
      }
      UnknownCutNoCrlf(t, junk, k);
      assert Decode(t) == DecodeUnknown(t, q);
    }
  }

  // ---------------------------------------------------------------------------
  // Every accepted header

  /** Where the source port begins in a TCP header's line. */
  function PortsStart(h: Header): (p: nat)
    ensures p > 6 + |h.inetFamily|
  {
    6 + |h.inetFamily| + 1 + |IPString(h.src.ip)| + 1 + |IPString(h.dest.ip)| + 1
  }

  /** In "\x20w1 w2\r\n" the spaces are the first byte and the one after w1. */
  lemma {:induction false} PortSpaces(r: seq<byte>, w1: seq<byte>, w2: seq<byte>, m: nat)
    requires PortToken(w1) && PortToken(w2) && r == [SP] + (w1 + ([SP] + (w2 + CRLF)))
    requires m < |r| - 1
    ensures r[m] == SP <==> m == 0 || m == |w1| + 1
  {
    if 1 <= m <= |w1| {
      assert r[m] == w1[m - 1];
    } else if |w1| + 2 <= m < |w1| + 2 + |w2| {
      assert r[m] == w2[m - |w1| - 2];
    } else if m == |w1| + 2 + |w2| {
      assert r[m] == CR;
    }
  }

  /** A cut of the line of TCP header h, as the start of any input s. */
  lemma {:induction false} TcpLineTruncated(s: seq<byte>, n: nat, k: nat, h: Header, w1: seq<byte>, w2: seq<byte>)
    requires h.inetFamily == Tcp4 || h.inetFamily == Tcp6
    requires h.src.ip.Some? && h.dest.ip.Some? && PortToken(w1) && PortToken(w2)
    requires 5 <= k < n <= |s|
    requires s[..n] == Line(h.inetFamily, Fields(IPv4.Format(h.src.ip.value), IPv4.Format(h.dest.ip.value), w1, w2))
    ensures Decode(s[..k]) == Step(ZeroHeader,
      if k >= PortsStart(h) && s[k - 1] == SP then Fail(BadNumber) else Fail(Eof), k)
  {
    var a, b := h.src.ip.value, h.dest.ip.value;
    var x, y := IPv4.Format(a), IPv4.Format(b);
    var line := Line(h.inetFamily, Fields(x, y, w1, w2));
    assert s[..k] == line[..k];
    assert SP !in x && IPv4.Parse(x) == Some(a) && SP !in y && IPv4.Parse(y) == Some(b) by {
      IPv4.ParseFormat(a);
      IPv4.ParseFormat(b);
    }
    TcpCut(h.inetFamily, x, a, y, b, w1, w2, k);
    var p1 := PortsStart(h);
    assert p1 == 6 + |h.inetFamily| + 1 + |x| + 1 + |y| + 1;
    if k >= p1 {
      PortsSuffix(h.inetFamily, x, y, w1, w2, p1);
      assert s[k - 1] == line[k - 1] == line[p1 - 1..][k - p1];
      PortSpaces(line[p1 - 1..], w1, w2, k - p1);
    }
  }

  /** An accepted TCP header cut at k >= 5. */
  lemma {:induction false} TcpTruncated(s: seq<byte>, k: nat)
    requires Decode(s).err == Pass && Decode(s).value.inetFamily != Unknown
    requires 5 <= k < Decode(s).pos
    ensures Decode(s[..k]) == Step(ZeroHeader,
      if k >= PortsStart(Decode(s).value) && s[k - 1] == SP then Fail(BadNumber) else Fail(Eof), k)
  {
    var r := Decode(s);
    var family, q := DecodedFamily(s);
    var w1, w2 := TcpLineAccepted(s, family, q, r);
    TcpLineTruncated(s, r.pos, k, r.value, w1, w2);
  }

  /** From the space before the source port on, a TCP line is the ports and "\r\n". */
  lemma {:induction false} PortsSuffix(family: seq<byte>, x: seq<byte>, y: seq<byte>, w1: seq<byte>, w2: seq<byte>,
                                       p1: nat)
    requires p1 == 6 + |family| + 1 + |x| + 1 + |y| + 1
    ensures Line(family, Fields(x, y, w1, w2))[p1 - 1..] == [SP] + (w1 + ([SP] + (w2 + CRLF)))
  {
    var ports := [SP] + (w1 + ([SP] + (w2 + CRLF)));
    FieldsCrlf(x, y, w1, w2);
    var line := Line(family, Fields(x, y, w1, w2));
    assert line == (Signature + [SP] + family + [SP] + x + [SP] + y) + ports;
    DropPast(Signature + [SP] + family + [SP] + x + [SP] + y, ports, p1 - 1);
  }

  /** An accepted UNKNOWN header cut at k >= 5. */
  lemma {:induction false} UnknownTruncated(s: seq<byte>, k: nat)
    requires Decode(s).err == Pass && Decode(s).value.inetFamily == Unknown
    requires 5 <= k < Decode(s).pos
    ensures Decode(s[..k]) == Step(ZeroHeader, if k < 14 then Fail(Eof) else Fail(InvalidHeader), k)
  {
    var n := Decode(s).pos;
    var family, q := DecodedFamily(s);
    assert q == 13;
    var junk := UnknownLineAccepted(s);
    assert s[..k] == Line(Unknown, junk)[..k];
    UnknownCut(junk, k);
  }

  /** Input that ends before the terminating "\r\n" of an accepted header is never
      accepted, and the cut input is always consumed whole:
      - shorter than five bytes, it is InvalidHeader with nothing consumed;
      - for UNKNOWN, it is Eof up to the family token and InvalidHeader from the
        space after it on, since no "\r\n" is left;
      - for TCP4 and TCP6, it is BadNumber when the cut ends with a space where a
        port should begin, and Eof everywhere else. */
  lemma {:induction false} TruncatedHeaderRejected(s: seq<byte>, k: nat)
    requires Decode(s).err == Pass && k < Decode(s).pos
    ensures Decode(s[..k]).err != Pass
    ensures k < 5 ==> Decode(s[..k]) == Step(ZeroHeader, Fail(InvalidHeader), 0)
    ensures 5 <= k ==> Decode(s[..k]).value == ZeroHeader && Decode(s[..k]).pos == k
    ensures 5 <= k && Decode(s).value.inetFamily == Unknown
      ==> Decode(s[..k]).err == if k < 14 then Fail(Eof) else Fail(InvalidHeader)
    ensures 5 <= k && Decode(s).value.inetFamily != Unknown
      ==> Decode(s[..k]).err == if k >= PortsStart(Decode(s).value) && s[k - 1] == SP then Fail(BadNumber) else Fail(Eof)
  {
    if k < 5 {
      SignatureRequired(s[..k]);
    } else if Decode(s).value.inetFamily == Unknown {
      UnknownTruncated(s, k);
    } else {
      TcpTruncated(s, k);
    }
  }
}
