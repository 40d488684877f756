/** The dotted-decimal text that `hook_func` keys its list by.

    Section 3.2.2 of RFC 3986 gives the grammar
      IPv4address = dec-octet "." dec-octet "." dec-octet "." dec-octet
      dec-octet   = DIGIT / %x31-39 DIGIT / "1" 2DIGIT / "2" %x30-34 DIGIT / "25" %x30-35 */
module AddressText {
  import opened Common
  import opened Decimal

  datatype Addr = Addr(a: Byte, b: Byte, c: Byte, d: Byte)

  function Dotted(x: Byte, rest: string): string {
    Print(x) + "." + rest
  }

  /** `%pI4`. */
  function Text(x: Addr): string {
    Dotted(x.a, Dotted(x.b, Dotted(x.c, Print(x.d))))
  }

  predicate DecOctet(s: string) {
    && AllDigits(s)
    && (|| |s| == 1
        || (|s| == 2 && '1' <= s[0] <= '9')
        || (|s| == 3 && s[0] == '1')
        || (|s| == 3 && s[0] == '2' && '0' <= s[1] <= '4')
        || (|s| == 3 && s[0] == '2' && s[1] == '5' && '0' <= s[2] <= '5'))
  }

  ghost predicate Fields(s: string, p: string, q: string, r: string, t: string) {
    && DecOctet(p) && DecOctet(q) && DecOctet(r) && DecOctet(t)
    && s == p + "." + (q + "." + (r + "." + t))
  }

  ghost predicate IPv4Address(s: string) {
    exists p, q, r, t :: Fields(s, p, q, r, t)
  }

  function OctetOf(s: string): (x: Byte)
    requires DecOctet(s)
    ensures Print(x) == s
  {
    DecOctetMeaning(s);
    PrintOfValue(s);
    Value(s)
  }

  /** Reads one octet and the dot after it. */
  function Field(s: string): (r: Option<(Byte, string)>)
    ensures r.Some? ==> s == Dotted(r.value.0, r.value.1)
  {
    var k := Span(s);
    if k < |s| && s[k] == '.' && DecOctet(s[..k]) then
      Some((OctetOf(s[..k]), s[k + 1..]))
    else None
  }

  /** Reads an address, accepting nothing but the grammar. */
  function Parse(s: string): (r: Option<Addr>)
    ensures r.Some? ==> Text(r.value) == s
  {
    match Field(s)
    case None => None
    case Some((a, s1)) =>
      match Field(s1)
      case None => None
      case Some((b, s2)) =>
        match Field(s2)
        case None => None
        case Some((c, s3)) =>
          if DecOctet(s3) then
            Some(Addr(a, b, c, OctetOf(s3)))
          else None
  }

  lemma ValueOfShort(s: string)
    requires AllDigits(s) && 1 <= |s| <= 3
    ensures |s| == 1 ==> Value(s) == DigitValue(s[0])
    ensures |s| == 2 ==> Value(s) == 10 * DigitValue(s[0]) + DigitValue(s[1])
    ensures |s| == 3 ==> Value(s) == 100 * DigitValue(s[0]) + 10 * DigitValue(s[1]) + DigitValue(s[2])
  {
    assert ValueTo(s, 1) == DigitValue(s[0]);
    if |s| == 3 {
      assert ValueTo(s, 2) == 10 * DigitValue(s[0]) + DigitValue(s[1]);
    }
  }

  lemma LengthOfSmall(s: string)
    requires Canonical(s) && Value(s) < 256
    ensures |s| <= 3
  {
    PrintOfValue(s);
    assert Pow10(3) == 1000;
    PrintLength(Value(s), 3);
  }

  /** The grammar's five alternatives are exactly the canonical numerals up to 255. */
  lemma DecOctetMeaning(s: string)
    ensures DecOctet(s) <==> Canonical(s) && Value(s) < 256
  {
    if Canonical(s) && Value(s) < 256 {
      LengthOfSmall(s);
    }
    if AllDigits(s) && 1 <= |s| <= 3 {
      ValueOfShort(s);
    }
  }

  lemma PrintIsDecOctet(x: Byte)
    ensures DecOctet(Print(x))
  {
    PrintIsCanonical(x);
    ValueOfPrint(x);
    DecOctetMeaning(Print(x));
  }

  lemma FieldOfPrint(x: Byte, rest: string)
    ensures Field(Dotted(x, rest)) == Some((x, rest))
  {
    var p := Print(x);
    assert p + "." + rest == p + ("." + rest);
    PrintIsDecOctet(x);
    SpanOfField(p, "." + rest);
    ValueOfPrint(x);
    assert (p + "." + rest)[..|p|] == p;
  }

  /** Parsing undoes printing; with `Parse`'s own contract, printing undoes parsing. */
  lemma ParseOfText(x: Addr)
    ensures Parse(Text(x)) == Some(x)
  {
    var s3 := Print(x.d);
    var s2 := Dotted(x.c, s3);
    var s1 := Dotted(x.b, s2);
    FieldOfPrint(x.a, s1);
    FieldOfPrint(x.b, s2);
    FieldOfPrint(x.c, s3);
    PrintIsDecOctet(x.d);
    ValueOfPrint(x.d);
  }

  /** Different addresses print differently. */
  lemma TextInjective(x: Addr, y: Addr)
    ensures Text(x) == Text(y) <==> x == y
  {
    ParseOfText(x);
    ParseOfText(y);
  }

  /** The printed addresses are exactly the strings of the grammar. */
  lemma TextIsGrammar(s: string)
    ensures IPv4Address(s) <==> exists x: Addr :: Text(x) == s
  {
    if IPv4Address(s) {
      var p, q, r, t :| Fields(s, p, q, r, t);
      var x := Addr(OctetOf(p), OctetOf(q), OctetOf(r), OctetOf(t));
      assert Text(x) == s;
    }
    if x: Addr :| Text(x) == s {
      PrintIsDecOctet(x.a);
      PrintIsDecOctet(x.b);
      PrintIsDecOctet(x.c);
      PrintIsDecOctet(x.d);
      assert Fields(s, Print(x.a), Print(x.b), Print(x.c), Print(x.d));
    }
  }

  lemma FieldsOf(s: string, p: string, q: string, r: string, t: string)
    requires Fields(s, p, q, r, t)
    ensures s == Text(Addr(OctetOf(p), OctetOf(q), OctetOf(r), OctetOf(t)))
  {
  }

  /** Its four numbers are the octets, in the order they have in memory. */
  lemma TextReads(x: Addr, p: string, q: string, r: string, t: string)
    requires Fields(Text(x), p, q, r, t)
    ensures Value(p) == x.a && Value(q) == x.b && Value(r) == x.c && Value(t) == x.d
  {
    FieldsOf(Text(x), p, q, r, t);
    TextInjective(x, Addr(OctetOf(p), OctetOf(q), OctetOf(r), OctetOf(t)));
  }

  /** Every address fits `char source[16]` with its terminator, and none prints as "". */
  lemma TextFits(x: Addr)
    ensures 7 <= |Text(x)| <= 15
  {
    PrintIsDecOctet(x.a);
    PrintIsDecOctet(x.b);
    PrintIsDecOctet(x.c);
    PrintIsDecOctet(x.d);
  }
}
