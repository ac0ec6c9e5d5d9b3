/** Text rendering used by the PROXY v1 line: Rust's `Display` for unsigned
    integers and for `Ipv4Addr`, and the space/dot separated fields of a line,
    each with the reading-back function that inverts it. */
module Text {
  import opened Common

  predicate IsDigit(c: char)
  {
    '0' <= c <= '9'
  }

  function DigitChar(d: nat): (c: char)
    requires d < 10
    ensures IsDigit(c)
  {
    "0123456789"[d]
  }

  function DigitValue(c: char): (d: nat)
    requires IsDigit(c)
    ensures d < 10
  {
    (c as int) - ('0' as int)
  }

  /** `Display` of an unsigned integer: decimal digits, no sign, no leading zero. */
  function Decimal(n: nat): (s: string)
    ensures s != []
    ensures forall i :: 0 <= i < |s| ==> IsDigit(s[i])
    decreases n
  {
    if n < 10 then [DigitChar(n)] else Decimal(n / 10) + [DigitChar(n % 10)]
  }

  /** The value of a string of decimal digits. */
  function DigitsValue(s: string): nat
    requires forall i :: 0 <= i < |s| ==> IsDigit(s[i])
  {
    if s == [] then 0 else 10 * DigitsValue(s[..|s| - 1]) + DigitValue(s[|s| - 1])
  }

  /** Reads a decimal field back; `None` unless it is a non-empty run of digits
      without a superfluous leading zero. */
  function ParseDecimal(s: string): Option<nat>
  {
    if s != [] && (forall i :: 0 <= i < |s| ==> IsDigit(s[i])) && (s[0] == '0' ==> |s| == 1)
    then Some(DigitsValue(s))
    else None
  }

  /** The first digit of a rendering is zero only for the number zero; it has at most three digits below 1000 and
      five below 100000. */
  lemma {:induction false} DecimalShape(n: nat)
    ensures Decimal(n)[0] == '0' <==> n == 0
    ensures n < 10 ==> |Decimal(n)| == 1
    ensures n < 100 ==> |Decimal(n)| <= 2
    ensures n < 1000 ==> |Decimal(n)| <= 3
    ensures n < 10000 ==> |Decimal(n)| <= 4
    ensures n < 100000 ==> |Decimal(n)| <= 5
    decreases n
  {
    if n >= 10 {
      DecimalShape(n / 10);
    }
  }

  /** Rendering then reading back a number gives the number. */
  lemma {:induction false} DecimalRoundTrip(n: nat)
    ensures ParseDecimal(Decimal(n)) == Some(n)
    decreases n
  {
    DecimalShape(n);
    DigitsOfDecimal(n);
  }

  lemma {:induction false} DigitsOfDecimal(n: nat)
    ensures forall i :: 0 <= i < |Decimal(n)| ==> IsDigit(Decimal(n)[i])
    ensures DigitsValue(Decimal(n)) == n
    decreases n
  {
    DecimalShape(n);
    if n >= 10 {
      DigitsOfDecimal(n / 10);
      var s := Decimal(n);
      assert s[..|s| - 1] == Decimal(n / 10);
    }
  }

  /** Splits on every occurrence of `sep`; the result always has at least one field. */
  function Split(s: string, sep: char): (r: seq<string>)
    ensures |r| >= 1
  {
    if s == [] then [""]
    else if s[0] == sep then [""] + Split(s[1..], sep)
    else var rest := Split(s[1..], sep); [[s[0]] + rest[0]] + rest[1..]
  }

  /** Joins fields with `sep` between them. */
  function Join(fields: seq<string>, sep: char): string
  {
    if fields == [] then ""
    else if |fields| == 1 then fields[0]
    else fields[0] + [sep] + Join(fields[1..], sep)
  }

  predicate Free(s: string, sep: char)
  {
    forall i :: 0 <= i < |s| ==> s[i] != sep
  }

  lemma {:induction false} SplitAfterField(a: string, t: string, sep: char)
    requires Free(a, sep)
    ensures Split(a + t, sep) == [a + Split(t, sep)[0]] + Split(t, sep)[1..]
    decreases |a|
  {
    var st := Split(t, sep);
    if a == [] {
      assert a + t == t;
      assert a + st[0] == st[0];
      assert st == [st[0]] + st[1..];
    } else {
      assert (a + t)[0] == a[0] && (a + t)[1..] == a[1..] + t;
      SplitAfterField(a[1..], t, sep);
      var rest := Split(a[1..] + t, sep);
      assert rest[0] == a[1..] + st[0] && rest[1..] == st[1..];
      assert [a[0]] + (a[1..] + st[0]) == a + st[0];
    }
  }

  /** Splitting a join of separator-free fields gives the fields back. */
  lemma {:induction false} SplitJoin(fields: seq<string>, sep: char)
    requires |fields| >= 1
    requires forall i :: 0 <= i < |fields| ==> Free(fields[i], sep)
    ensures Split(Join(fields, sep), sep) == fields
    decreases |fields|
  {
    if |fields| == 1 {
      SplitAfterField(fields[0], "", sep);
      assert fields[0] + "" == fields[0];
    } else {
      var rest := Join(fields[1..], sep);
      SplitJoin(fields[1..], sep);
      SplitAfterField(fields[0], [sep] + rest, sep);
      assert fields[0] + [sep] + rest == fields[0] + ([sep] + rest);
      assert ([sep] + rest)[0] == sep && ([sep] + rest)[1..] == rest;
      assert Split([sep] + rest, sep) == [""] + fields[1..];
      assert Split([sep] + rest, sep)[0] == "" && Split([sep] + rest, sep)[1..] == fields[1..];
      assert fields[0] + "" == fields[0];
      assert fields == [fields[0]] + fields[1..];
    }
  }

  /** `Display` of `Ipv4Addr`: dotted decimal, that is, exactly four dot-free
      fields, each the decimal rendering of one octet. */
  function Ipv4Text(o: Octets4): (s: string)
    ensures Split(s, '.') == [Decimal(o[0] as nat), Decimal(o[1] as nat), Decimal(o[2] as nat), Decimal(o[3] as nat)]
  {
    var f := [Decimal(o[0] as nat), Decimal(o[1] as nat), Decimal(o[2] as nat), Decimal(o[3] as nat)];
    OctetsDotFree(o);
    SplitJoin(f, '.');
    Join(f, '.')
  }

  lemma OctetsDotFree(o: Octets4)
    ensures forall i :: 0 <= i < 4 ==> Free(Decimal(o[i] as nat), '.')
  {
    forall i | 0 <= i < 4 ensures Free(Decimal(o[i] as nat), '.') {
      DigitsFree(o[i] as nat, '.');
    }
  }

  function ParseOctet(s: string): Option<Byte>
  {
    match ParseDecimal(s)
    case Some(n) => if n < 256 then Some(n as Byte) else None
    case None => None
  }

  /** Reads dotted decimal back into four octets. */
  function ParseIpv4(s: string): Option<Octets4>
  {
    var f := Split(s, '.');
    if |f| == 4 && ParseOctet(f[0]).Some? && ParseOctet(f[1]).Some?
       && ParseOctet(f[2]).Some? && ParseOctet(f[3]).Some?
    then Some([ParseOctet(f[0]).value, ParseOctet(f[1]).value, ParseOctet(f[2]).value, ParseOctet(f[3]).value])
    else None
  }

  lemma DigitsFree(n: nat, sep: char)
    requires !IsDigit(sep)
    ensures Free(Decimal(n), sep)
  {
    DecimalShape(n);
  }

  lemma OctetRoundTrip(b: Byte)
    ensures ParseOctet(Decimal(b as nat)) == Some(b)
  {
    DecimalRoundTrip(b as nat);
  }

  /** The sum of the field lengths. */
  function TotalLength(fields: seq<string>): nat
  {
    if fields == [] then 0 else |fields[0]| + TotalLength(fields[1..])
  }

  /** A join is as long as its fields plus one separator between each pair,
      and it holds no character that none of the fields holds. */
  lemma {:induction false} JoinShape(fields: seq<string>, sep: char, c: char)
    requires |fields| >= 1
    requires c != sep
    requires forall i :: 0 <= i < |fields| ==> Free(fields[i], c)
    ensures |Join(fields, sep)| == TotalLength(fields) + |fields| - 1
    ensures Free(Join(fields, sep), c)
    decreases |fields|
  {
    if |fields| > 1 {
      JoinShape(fields[1..], sep, c);
      FreeConcat(fields[0] + [sep], Join(fields[1..], sep), c);
    }
  }

  lemma FreeConcat(a: string, b: string, c: char)
    requires Free(a, c) && Free(b, c)
    ensures Free(a + b, c)
  {
  }

  /** The fields of a rendered address: separator-free and at most three characters. */
  lemma OctetFields(o: Octets4)
    ensures forall i :: 0 <= i < 4 ==> Free(Decimal(o[i] as nat), '.') && Free(Decimal(o[i] as nat), ' ')
    ensures forall i :: 0 <= i < 4 ==> |Decimal(o[i] as nat)| <= 3
  {
    forall i | 0 <= i < 4
      ensures Free(Decimal(o[i] as nat), '.') && Free(Decimal(o[i] as nat), ' ') && |Decimal(o[i] as nat)| <= 3
    {
      DigitsFree(o[i] as nat, '.');
      DigitsFree(o[i] as nat, ' ');
      DecimalShape(o[i] as nat);
    }
  }

  /** Dotted decimal reads back to the address it was rendered from. */
  lemma Ipv4TextRoundTrip(o: Octets4)
    ensures ParseIpv4(Ipv4Text(o)) == Some(o)
  {
    OctetRoundTrip(o[0]);
    OctetRoundTrip(o[1]);
    OctetRoundTrip(o[2]);
    OctetRoundTrip(o[3]);
    assert [o[0], o[1], o[2], o[3]] == o;
  }

  /** Dotted decimal holds no space and is at most 15 characters long. */
  lemma Ipv4TextShape(o: Octets4)
    ensures Free(Ipv4Text(o), ' ')
    ensures |Ipv4Text(o)| <= 15
  {
    var f := [Decimal(o[0] as nat), Decimal(o[1] as nat), Decimal(o[2] as nat), Decimal(o[3] as nat)];
    OctetFields(o);
    JoinShape(f, '.', ' ');
    assert TotalLength(f[4..]) == 0;
    assert TotalLength(f[3..]) == |f[3]| + TotalLength(f[4..]);
    assert TotalLength(f[2..]) == |f[2]| + TotalLength(f[3..]);
    assert TotalLength(f[1..]) == |f[1]| + TotalLength(f[2..]);
  }
}
