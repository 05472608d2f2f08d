/** Address literals. net.ParseIP and net.IP.String() are library calls; this module
    models their IPv4 dotted-quad behaviour: exactly four fields separated
    by '.', each a decimal numeral of at most 255 with no leading zero. IPv6 literals
    are not modelled and do not parse. */
module IPv4 {

  import opened Errors
  import opened Bytes

  /** An IPv4 address, one byte per octet. */
  datatype IP = IP(a: byte, b: byte, c: byte, d: byte)

  predicate ValidOctet(f: seq<byte>) {
    Canonical(f) && DigitsValue(f) <= 255
  }

  /** n '.'-separated fields that make up all of t, each a valid octet: their values
      in order. None if t has more or fewer fields or one of them is not an octet. */
  function Octets(t: seq<byte>, n: nat): (r: Option<seq<byte>>)
    requires n >= 1
    ensures r.Some? ==> |r.value| == n
    decreases n
  {
    var i := FirstIndex(t, 0, DOT);
    if !ValidOctet(t[..i]) then None
    else if n == 1 then (if i == |t| then Some([DigitsValue(t[..i]) as byte]) else None)
    else if i == |t| then None
    else match Octets(t[i + 1..], n - 1)
      case None => None
      case Some(rest) => Some([DigitsValue(t[..i]) as byte] + rest)
  }


  /** net.IP.String() of an IPv4 address: the dotted quad. */
  function Format(ip: IP): (t: seq<byte>)
    ensures forall k :: 0 <= k < |t| ==> IsDigit(t[k]) || t[k] == DOT
  {
    DecimalDigits(ip.a as nat) + [DOT] + (DecimalDigits(ip.b as nat) + [DOT] +
      (DecimalDigits(ip.c as nat) + [DOT] + DecimalDigits(ip.d as nat)))
  }

  /** The numerals of v joined with '.': the text Octets reads back. */
  function Dotted(v: seq<byte>): (t: seq<byte>)
    requires |v| >= 1
  {
    if |v| == 1 then DecimalDigits(v[0] as nat)
    else DecimalDigits(v[0] as nat) + [DOT] + Dotted(v[1..])
  }

  /** The IPv4 scanner of net.ParseIP, one byte at a time from t[i]: `val` and
      `digits` are the value and length of the field being read, `done` the octets
      already read. A digit after a lone leading zero, a field above 255, an empty
      field, a fifth field, fewer than four fields and any other byte all fail. */
  function Scan(t: seq<byte>, i: nat, val: nat, digits: nat, done: seq<byte>): (r: Option<seq<byte>>)
    requires i <= |t| && val <= 255 && |done| <= 3
    ensures r.Some? ==> |r.value| == 4
    decreases |t| - i
  {
    if i == |t| then (if |done| == 3 && digits >= 1 then Some(done + [val as byte]) else None)
    else if IsDigit(t[i]) then
      if digits == 1 && val == 0 then None
      else
        var v := val * 10 + (t[i] - ZERO) as int;
        if v > 255 then None else Scan(t, i + 1, v, digits + 1, done)
    else if t[i] == DOT then
      if digits == 0 || |done| == 3 then None else Scan(t, i + 1, 0, 0, done + [val as byte])
    else None
  }

  /** net.ParseIP restricted to IPv4 literals; None stands for nil. A literal it
      accepts holds only digits and dots. */
  function Parse(t: seq<byte>): (r: Option<IP>)
    ensures r.Some? ==> forall k :: 0 <= k < |t| ==> IsDigit(t[k]) || t[k] == DOT
  {
    ScanAlphabet(t, 0, 0, 0, []);
    match Scan(t, 0, 0, 0, [])
    case None => None
    case Some(v) => Some(IP(v[0], v[1], v[2], v[3]))
  }

  /** What the scanner accepts from t[i] on holds only digits and dots. */
  lemma {:induction false} ScanAlphabet(t: seq<byte>, i: nat, val: nat, digits: nat, done: seq<byte>)
    requires i <= |t| && val <= 255 && |done| <= 3
    ensures Scan(t, i, val, digits, done).Some? ==> forall k :: i <= k < |t| ==> IsDigit(t[k]) || t[k] == DOT
    decreases |t| - i
  {
    if i < |t| {
      if IsDigit(t[i]) {
        var v := val * 10 + (t[i] - ZERO) as int;
        if !(digits == 1 && val == 0) && v <= 255 {
          ScanAlphabet(t, i + 1, v, digits + 1, done);
        }
      } else if t[i] == DOT && digits != 0 && |done| != 3 {
        ScanAlphabet(t, i + 1, 0, 0, done + [val as byte]);
      }
    }
  }

  lemma {:induction false} FormatIsDotted(ip: IP)
    ensures Format(ip) == Dotted([ip.a, ip.b, ip.c, ip.d])
  {
    var v := [ip.a, ip.b, ip.c, ip.d];
    assert v[1..] == [ip.b, ip.c, ip.d] && v[1..][1..] == [ip.c, ip.d] && v[1..][1..][1..] == [ip.d];
    assert Dotted([ip.c, ip.d]) == DecimalDigits(ip.c as nat) + [DOT] + DecimalDigits(ip.d as nat);
    assert Dotted([ip.b, ip.c, ip.d]) == DecimalDigits(ip.b as nat) + [DOT] + Dotted([ip.c, ip.d]);
  }

  /** The numeral of an octet is a valid field that denotes it. */
  lemma {:induction false} OctetNumeral(n: byte)
    ensures ValidOctet(DecimalDigits(n as nat))
    ensures DigitsValue(DecimalDigits(n as nat)) as byte == n
    ensures DOT !in DecimalDigits(n as nat)
  {
  }

  /** A valid leading field without '.' is read off, and the rest is read from after
      the '.'. */
  lemma {:induction false} OctetsCons(t: seq<byte>, f: seq<byte>, rest: seq<byte>, n: nat, w: seq<byte>)
    requires n >= 2 && DOT !in f && ValidOctet(f)
    requires t == f + [DOT] + rest && Octets(rest, n - 1) == Some(w)
    ensures Octets(t, n) == Some([DigitsValue(f) as byte] + w)
  {
    FirstIndexIs(t, 0, DOT, |f|);
    assert t[..|f|] == f && t[|f| + 1..] == rest;
  }

  /** A single field without '.' is read off whole. */
  lemma {:induction false} OctetsSingle(f: seq<byte>)
    requires DOT !in f
    ensures Octets(f, 1) == if ValidOctet(f) then Some([DigitsValue(f) as byte]) else None
  {
    FirstIndexIs(f, 0, DOT, |f|);
    assert f[..|f|] == f;
  }

  /** The numeral of one octet reads back as that octet. */
  lemma {:induction false} OctetsDottedOne(v: seq<byte>)
    requires |v| == 1
    ensures Octets(Dotted(v), 1) == Some(v)
  {
    var o := v[0];
    var f := DecimalDigits(o as nat);
    OctetNumeral(o);
    assert Dotted(v) == f;
    OctetsSingle(f);
    assert v == [o];
  }

  /** If the dotted numerals of the tail of v read back as the tail, those of v read
      back as v. */
  lemma {:induction false} OctetsDottedStep(v: seq<byte>)
    requires |v| >= 2 && Octets(Dotted(v[1..]), |v| - 1) == Some(v[1..])
    ensures Octets(Dotted(v), |v|) == Some(v)
  {
    var o, tail := v[0], v[1..];
    DottedCons(v);
    OctetNumeral(o);
    OctetsCons(Dotted(v), DecimalDigits(o as nat), Dotted(tail), |v|, tail);
    assert [o] + tail == v;
  }

  lemma {:induction false} DottedCons(v: seq<byte>)
    requires |v| >= 2
    ensures Dotted(v) == DecimalDigits(v[0] as nat) + [DOT] + Dotted(v[1..])
  {
  }

  /** The dotted numerals of two or more octets read back, by induction on the tail. */
  lemma {:induction false} OctetsDottedCons(v: seq<byte>)
    requires |v| >= 2
    ensures Octets(Dotted(v), |v|) == Some(v)
    decreases |v|, 0
  {
    OctetsDotted(v[1..]);
    OctetsDottedStep(v);
  }

  /** Octets reads the dotted numerals of v back as v. */
  lemma {:induction false} OctetsDotted(v: seq<byte>)
    requires |v| >= 1
    ensures Octets(Dotted(v), |v|) == Some(v)
    decreases |v|, 1
  {
    if |v| == 1 {
      OctetsDottedOne(v);
    } else {
      OctetsDottedCons(v);
    }
  }

  /** A text that is split at a '.' is its two sides joined by that '.'. */
  lemma {:induction false} JoinAtDot(t: seq<byte>, i: nat)
    requires i < |t| && t[i] == DOT
    ensures t[..i] + [DOT] + t[i + 1..] == t
  {
    var u := t[..i] + [DOT] + t[i + 1..];
    assert |u| == |t|;
    forall k | 0 <= k < |t|
      ensures u[k] == t[k]
    {
      if k > i {
        assert u[k] == t[i + 1..][k - i - 1];
      }
    }
  }

  /** What Octets accepts as one field: a valid octet without '.'. */
  lemma {:induction false} OctetsLast(t: seq<byte>, w: seq<byte>)
    requires Octets(t, 1) == Some(w)
    ensures FirstIndex(t, 0, DOT) == |t| && ValidOctet(t) && w == [DigitsValue(t) as byte]
  {
    assert t[..|t|] == t;
  }

  /** What Octets accepts with two or more fields: a valid first field ended by a
      '.', and the remaining fields after it. */
  lemma {:induction false} OctetsStep(t: seq<byte>, n: nat, w: seq<byte>)
    requires n >= 2 && Octets(t, n) == Some(w)
    ensures var i := FirstIndex(t, 0, DOT);
      i < |t| && ValidOctet(t[..i]) && Octets(t[i + 1..], n - 1) == Some(w[1..]) &&
      DecimalDigits(w[0] as nat) == t[..i]
  {
    var i := FirstIndex(t, 0, DOT);
    assert ValidOctet(t[..i]) && w[0] == DigitsValue(t[..i]) as byte;
    CanonicalIsDecimalOfValue(t[..i]);
  }

  /** A text split at a '.' into the numeral of w[0] and the dotted numerals of the
      rest of w is the dotted numerals of w. */
  lemma {:induction false} DottedJoin(t: seq<byte>, i: nat, w: seq<byte>)
    requires i < |t| && t[i] == DOT && |w| >= 2
    requires DecimalDigits(w[0] as nat) == t[..i] && Dotted(w[1..]) == t[i + 1..]
    ensures Dotted(w) == t
  {
    assert Dotted(w) == t[..i] + [DOT] + t[i + 1..];
    JoinAtDot(t, i);
  }

  /** A field that Octets accepts as the only one is the numeral of its octet. */
  lemma {:induction false} DottedOctetsOne(t: seq<byte>, w: seq<byte>)
    requires Octets(t, 1) == Some(w)
    ensures Dotted(w) == t
  {
    OctetsLast(t, w);
    CanonicalIsDecimalOfValue(t);
  }

  /** A text that Octets accepts with two or more fields: the first is the numeral of
      its octet and the rest, by induction, the dotted numerals of the others. */
  lemma {:induction false} DottedOctetsCons(t: seq<byte>, n: nat, w: seq<byte>)
    requires n >= 2 && Octets(t, n) == Some(w)
    ensures Dotted(w) == t
    decreases n, 0
  {
    var i := FirstIndex(t, 0, DOT);
    var rest, tail := t[i + 1..], w[1..];
    OctetsStep(t, n, w);
    DottedOctets(rest, n - 1, tail);
    DottedJoin(t, i, w);
  }

  /** Whatever Octets accepts is exactly the dotted numerals of what it returns:
      only canonical text is accepted. */
  lemma {:induction false} DottedOctets(t: seq<byte>, n: nat, w: seq<byte>)
    requires n >= 1 && Octets(t, n) == Some(w)
    ensures Dotted(w) == t
    decreases n, 1
  {
    if n == 1 {
      DottedOctetsOne(t, w);
    } else {
      DottedOctetsCons(t, n, w);
    }
  }

  /** A prefix of a numeral denotes at most what the whole numeral does. */
  lemma {:induction false} PrefixValue(f: seq<byte>, k: nat)
    requires AllDigits(f) && k <= |f|
    ensures DigitsValue(f[..k]) <= DigitsValue(f)
    decreases |f|
  {
    if k < |f| {
      var init := f[..|f| - 1];
      assert init[..k] == f[..k];
      PrefixValue(init, k);
      assert DigitsValue(f) >= DigitsValue(init);
    } else {
      assert f[..k] == f;
    }
  }

  /** What the scanner does with the field that starts at j: fail unless it is a
      valid octet, and otherwise go on after its '.' with the octet appended. */
  function AfterField(t: seq<byte>, j: nat, done: seq<byte>): Option<seq<byte>>
    requires j <= |t| && |done| <= 3
  {
    var e := FirstIndex(t, j, DOT);
    var f := t[j..e];
    if !ValidOctet(f) then None
    else if e == |t| then (if |done| == 3 then Some(done + [DigitsValue(f) as byte]) else None)
    else if |done| == 3 then None
    else Scan(t, e + 1, 0, 0, done + [DigitsValue(f) as byte])
  }

  /** The conditions under which the scanner has read the first k bytes of the field
      at j, ending at i, without failing. */
  predicate FieldPrefix(t: seq<byte>, j: nat, i: nat, k: nat) {
    j <= |t| && i == j + k && i <= FirstIndex(t, j, DOT)
    && AllDigits(t[j..i]) && (k >= 2 ==> t[j] != ZERO) && DigitsValue(t[j..i]) <= 255
  }

  /** At the end of the field the scanner has read all of it. */
  lemma {:induction false} FieldScanEnd(t: seq<byte>, j: nat, i: nat, k: nat, done: seq<byte>)
    requires FieldPrefix(t, j, i, k) && i == FirstIndex(t, j, DOT) && |done| <= 3
    ensures Scan(t, i, DigitsValue(t[j..i]), k, done) == AfterField(t, j, done)
  {
    var val := DigitsValue(t[j..i]);
    if i < |t| {
      assert t[i] == DOT && !IsDigit(t[i]);
    }
    if k >= 1 {
      assert t[j..i][0] == t[j];
    }
  }

  /** Inside the field, a byte that is not a digit, a digit after a lone leading zero,
      or a digit that takes the value above 255 fails both the scanner and the field. */
  lemma {:induction false} FieldScanStop(t: seq<byte>, j: nat, i: nat, k: nat, done: seq<byte>)
    requires FieldPrefix(t, j, i, k) && i < FirstIndex(t, j, DOT) && |done| <= 3
    requires !IsDigit(t[i]) || (k == 1 && DigitsValue(t[j..i]) == 0)
             || DigitsValue(t[j..i]) * 10 + (t[i] - ZERO) as int > 255
    ensures Scan(t, i, DigitsValue(t[j..i]), k, done) == None == AfterField(t, j, done)
  {
    var e := FirstIndex(t, j, DOT);
    var g := t[j..i];
    var f := t[j..e];
    var b := t[i];
    assert f[k] == b;
    if !IsDigit(b) {
      assert !AllDigits(f);
    } else if k == 1 && DigitsValue(g) == 0 {
      assert g == [t[j]] && f[0] == t[j];
    } else {
      FieldOverflow(t, j, i, k);
    }
  }

  /** A digit that takes the field's value above 255 makes the field no octet. */
  lemma {:induction false} FieldOverflow(t: seq<byte>, j: nat, i: nat, k: nat)
    requires FieldPrefix(t, j, i, k) && i < FirstIndex(t, j, DOT)
    requires IsDigit(t[i]) && DigitsValue(t[j..i]) * 10 + (t[i] - ZERO) as int > 255
    ensures !ValidOctet(t[j..FirstIndex(t, j, DOT)])
  {
    var f := t[j..FirstIndex(t, j, DOT)];
    var g := t[j..i];
    var g' := t[j..i + 1];
    assert g'[..k] == g && g'[k] == t[i];
    assert AllDigits(g') by {
      forall n | 0 <= n < |g'| ensures IsDigit(g'[n]) {
        if n < k {
          assert g'[n] == g[n];
        }
      }
    }
    assert DigitsValue(g') > 255;
    if AllDigits(f) {
      assert f[..k + 1] == g';
      PrefixValue(f, k + 1);
    }
  }

  /** Inside the field, a digit that the scanner accepts extends the prefix by one. */
  lemma {:induction false} FieldScanDigit(t: seq<byte>, j: nat, i: nat, k: nat, done: seq<byte>, i': nat)
    requires FieldPrefix(t, j, i, k) && i < FirstIndex(t, j, DOT) && |done| <= 3 && i' == i + 1
    requires IsDigit(t[i]) && !(k == 1 && DigitsValue(t[j..i]) == 0)
             && DigitsValue(t[j..i]) * 10 + (t[i] - ZERO) as int <= 255
    ensures FieldPrefix(t, j, i', k + 1)
    ensures Scan(t, i, DigitsValue(t[j..i]), k, done) == Scan(t, i', DigitsValue(t[j..i']), k + 1, done)
  {
    var g := t[j..i];
    var g' := t[j..i'];
    assert g'[..k] == g;
    assert g'[k] == t[i];
    if k >= 1 {
      assert g'[0] == t[j] && g[0] == t[j];
    }
  }

  /** Scanning a field from j, after k of its bytes have been read without failure:
      the scanner accepts the field exactly when it is a valid octet, and goes on
      after its '.' with the octet appended. */
  lemma {:induction false} FieldScan(t: seq<byte>, j: nat, i: nat, k: nat, done: seq<byte>)
    requires FieldPrefix(t, j, i, k) && |done| <= 3
    ensures Scan(t, i, DigitsValue(t[j..i]), k, done) == AfterField(t, j, done)
    decreases FirstIndex(t, j, DOT) - i
  {
    if i == FirstIndex(t, j, DOT) {
      FieldScanEnd(t, j, i, k, done);
    } else if !IsDigit(t[i]) || (k == 1 && DigitsValue(t[j..i]) == 0)
              || DigitsValue(t[j..i]) * 10 + (t[i] - ZERO) as int > 255 {
      FieldScanStop(t, j, i, k, done);
    } else {
      var i' := i + 1;
      FieldScanDigit(t, j, i, k, done, i');
      FieldScan(t, j, i', k + 1, done);
    }
  }

  /** The scanner from the start of a field. */
  lemma {:induction false} ScanFromField(t: seq<byte>, j: nat, done: seq<byte>)
    requires j <= |t| && |done| <= 3
    ensures Scan(t, j, 0, 0, done) == AfterField(t, j, done)
  {
    assert t[j..j] == [];
    FieldScan(t, j, j, 0, done);
  }

  /** Scanning from position j + i of t is scanning from position i of t[j..]. */
  lemma {:induction false} ScanShift(t: seq<byte>, j: nat, i: nat, val: nat, digits: nat, done: seq<byte>)
    requires j + i <= |t| && val <= 255 && |done| <= 3
    ensures Scan(t, j + i, val, digits, done) == Scan(t[j..], i, val, digits, done)
    decreases |t| - (j + i)
  {
    if j + i < |t| {
      assert t[j..][i] == t[j + i];
      var b := t[j + i];
      if IsDigit(b) {
        var v := val * 10 + (b - ZERO) as int;
        if !(digits == 1 && val == 0) && v <= 255 {
          ScanShift(t, j, i + 1, v, digits + 1, done);
        }
      } else if b == DOT && digits != 0 && |done| != 3 {
        ScanShift(t, j, i + 1, 0, 0, done + [val as byte]);
      }
    }
  }

  /** The scanner's reading of the text, with `done` read, as Octets reads the
      remaining fields. */
  function ReadRest(t: seq<byte>, done: seq<byte>): Option<seq<byte>>
    requires |done| <= 3
  {
    match Octets(t, 4 - |done|)
    case None => None
    case Some(w) => Some(done + w)
  }

  /** Where the first field fails, or is the last one the scanner wants, the scanner
      and Octets agree. */
  lemma {:induction false} ScanOctetsStop(t: seq<byte>, done: seq<byte>)
    requires |done| <= 3
    requires var e := FirstIndex(t, 0, DOT); !(e < |t| && ValidOctet(t[..e]) && |done| < 3)
    ensures Scan(t, 0, 0, 0, done) == ReadRest(t, done)
  {
    var e := FirstIndex(t, 0, DOT);
    ScanFromField(t, 0, done);
    assert t[0..e] == t[..e];
  }

  /** Where the first field is valid and more are wanted, both go on after its '.'. */
  lemma {:induction false} ScanOctetsCons(t: seq<byte>, done: seq<byte>)
    requires |done| <= 3
    requires var e := FirstIndex(t, 0, DOT); e < |t| && ValidOctet(t[..e]) && |done| < 3
    requires var e := FirstIndex(t, 0, DOT);
      Scan(t[e + 1..], 0, 0, 0, done + [DigitsValue(t[..e]) as byte])
        == ReadRest(t[e + 1..], done + [DigitsValue(t[..e]) as byte])
    ensures Scan(t, 0, 0, 0, done) == ReadRest(t, done)
  {
    var e := FirstIndex(t, 0, DOT);
    var o := DigitsValue(t[..e]) as byte;
    var d' := done + [o];
    var u := t[e + 1..];
    ScanFromField(t, 0, done);
    assert t[0..e] == t[..e];
    ScanShift(t, e + 1, 0, 0, 0, d');
    assert Scan(t, 0, 0, 0, done) == Scan(u, 0, 0, 0, d');
    match Octets(u, 3 - |done|)
    case None =>
    case Some(w) =>
      assert d' + w == done + ([o] + w);
  }

  /** The scanner from the start of the text, with `done` read, reads the remaining
      fields as Octets does. */
  lemma {:induction false} ScanOctets(t: seq<byte>, done: seq<byte>)
    requires |done| <= 3
    ensures Scan(t, 0, 0, 0, done) == ReadRest(t, done)
    decreases |t|
  {
    var e := FirstIndex(t, 0, DOT);
    if e < |t| && ValidOctet(t[..e]) && |done| < 3 {
      ScanOctets(t[e + 1..], done + [DigitsValue(t[..e]) as byte]);
      ScanOctetsCons(t, done);
    } else {
      ScanOctetsStop(t, done);
    }
  }

  /** Parse in terms of the field-level reading. */
  lemma {:induction false} ParseOctets(t: seq<byte>)
    ensures Parse(t) ==
      match Octets(t, 4)
      case None => None
      case Some(v) => Some(IP(v[0], v[1], v[2], v[3]))
  {
    ScanOctets(t, []);
    match Octets(t, 4)
    case None =>
    case Some(w) =>
      assert [] + w == w;
  }

  /** Every address parses back from its dotted quad. */
  lemma {:induction false} ParseFormat(ip: IP)
    ensures Parse(Format(ip)) == Some(ip)
  {
    FormatIsDotted(ip);
    OctetsDotted([ip.a, ip.b, ip.c, ip.d]);
    ParseOctets(Format(ip));
  }

  /** A literal that parses is exactly the dotted quad of its address: Parse accepts
      only canonical text. */
  lemma {:induction false} FormatParse(t: seq<byte>)
    requires Parse(t).Some?
    ensures Format(Parse(t).value) == t
  {
    ParseOctets(t);
    var v := Octets(t, 4).value;
    DottedOctets(t, 4, v);
    assert v == [v[0], v[1], v[2], v[3]];
    FormatIsDotted(Parse(t).value);
  }

  /** Parse and Format are inverse: a literal parses to ip exactly when it is the
      dotted quad of ip. */
  lemma {:induction false} ParseIffFormat(t: seq<byte>, ip: IP)
    ensures Parse(t) == Some(ip) <==> t == Format(ip)
  {
    if Parse(t) == Some(ip) {
      FormatParse(t);
    }
    if t == Format(ip) {
      ParseFormat(ip);
    }
  }
}
