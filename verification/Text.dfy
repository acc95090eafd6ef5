/** Decimal printing, its inverse, and the dash-separated identifiers that the
    network functions print ("pdu-<supi>-<n>") and later parse back. */
module Text {

  datatype Option<+T> = None | Some(value: T)

  const TWO64: nat := 0x1_0000_0000_0000_0000

  // ---- decimal numbers -------------------------------------------------------

  predicate IsDigit(c: char) { '0' <= c <= '9' }

  predicate AllDigits(s: string) { forall i :: 0 <= i < |s| ==> IsDigit(s[i]) }

  function Digit(d: nat): (c: char)
    requires d < 10
    ensures IsDigit(c) && DigitValue(c) == d
  {
    '0' + d as char
  }

  function DigitValue(c: char): (d: nat)
    requires IsDigit(c)
    ensures d < 10
  {
    c as int - '0' as int
  }

  /** The verb %d on a non-negative number. */
  function Dec(n: nat): (s: string)
    ensures |s| > 0
  {
    if n < 10 then [Digit(n)] else Dec(n / 10) + [Digit(n % 10)]
  }

  /** The verb %d on a signed number. */
  function DecInt(i: int): string {
    if i < 0 then "-" + Dec(-i) else Dec(i)
  }

  function Parse(s: string): nat
    requires AllDigits(s)
  {
    if s == "" then 0 else 10 * Parse(s[..|s| - 1]) + DigitValue(s[|s| - 1])
  }

  lemma {:induction false} ParseDec(n: nat)
    ensures AllDigits(Dec(n)) && Parse(Dec(n)) == n
  {
    if n >= 10 {
      ParseDec(n / 10);
      var s := Dec(n);
      assert s[..|s| - 1] == Dec(n / 10);
    } else {
      assert Dec(n)[..0] == "";
    }
  }

  lemma DecIntInjective(i: int, j: int)
    requires DecInt(i) == DecInt(j)
    ensures i == j
  {
    ParseDec(if i < 0 then -i else i);
    ParseDec(if j < 0 then -j else j);
    assert i >= 0 ==> IsDigit(DecInt(i)[0]);
    assert j >= 0 ==> IsDigit(DecInt(j)[0]);
    if i < 0 {
      assert DecInt(i)[0] == '-' && DecInt(i)[1..] == Dec(-i);
      assert DecInt(j)[1..] == Dec(-j);
    }
  }

  // ---- separators ------------------------------------------------------------

  /** Two texts joined by a separator that the first part does not contain are determined by the join. */
  lemma FirstSeparatorSplits(a: string, b: string, a': string, b': string, c: char)
    requires a + [c] + b == a' + [c] + b'
    requires c !in a && c !in a'
    ensures a == a' && b == b'
  {
    var s := a + [c] + b;
    assert s[|a|] == c && s[|a'|] == c;
    assert |a| == |a'|;
    assert s[..|a|] == a && s[..|a'|] == a';
    assert s[|a| + 1..] == b && s[|a'| + 1..] == b';
  }

  /** ... and so are two texts whose second part does not contain the separator. */
  lemma LastSeparatorSplits(a: string, b: string, a': string, b': string, c: char)
    requires a + [c] + b == a' + [c] + b'
    requires c !in b && c !in b'
    ensures a == a' && b == b'
  {
    var s := a + [c] + b;
    assert s[|a|] == c && s[|a'|] == c;
    assert |a| == |a'|;
    assert s[..|a|] == a && s[..|a'|] == a';
    assert s[|a| + 1..] == b && s[|a'| + 1..] == b';
  }

  /** The last element of strings.Split(s, c). */
  function AfterLast(s: string, c: char): string {
    if c !in s then s else if s[|s| - 1] == c then "" else AfterLast(s[..|s| - 1], c) + [s[|s| - 1]]
  }

  lemma {:induction false} AfterLastOf(a: string, b: string, c: char)
    requires c !in b
    ensures AfterLast(a + [c] + b, c) == b
  {
    var s := a + [c] + b;
    assert s[|a|] == c;
    if b != "" {
      var b' := b[..|b| - 1];
      assert s[..|s| - 1] == a + [c] + b';
      assert s[|s| - 1] == b[|b| - 1];
      AfterLastOf(a, b', c);
    }
  }

  // ---- fmt.Sscanf(s, "%d", &u) into a uint64 that starts at zero -----------------

  predicate IsSpace(c: char) {
    '\t' <= c <= '\r' || c in " \U{0085}\U{00A0}\U{1680}\U{2028}\U{2029}\U{202F}\U{205F}\U{3000}"
    || '\U{2000}' <= c <= '\U{200A}'
  }

  /** Leading blanks are skipped; a newline among them is an error. */
  function SkipSpace(s: string): Option<string> {
    if s == "" then Some(s)
    else if s[0] == '\n' then None
    else if IsSpace(s[0]) then SkipSpace(s[1..])
    else Some(s)
  }

  function DigitPrefix(s: string): (d: string)
    ensures AllDigits(d)
  {
    if s == "" || !IsDigit(s[0]) then "" else [s[0]] + DigitPrefix(s[1..])
  }

  function ScanUint64(s: string): (n: nat)
    ensures n < TWO64
  {
    match SkipSpace(s)
    case None => 0
    case Some(t) =>
      var d := DigitPrefix(t);
      if d == "" || Parse(d) >= TWO64 then 0 else Parse(d)
  }

  lemma {:induction false} DigitPrefixAll(s: string)
    requires AllDigits(s)
    ensures DigitPrefix(s) == s
  {
    if s != "" {
      DigitPrefixAll(s[1..]);
    }
  }

  // ---- serial numbers at the end of identifiers -----------------------------------

  /** fmt.Sprintf("<kind>-%s-%d", supi, n) */
  function Identifier(kind: string, supi: string, n: nat): string {
    kind + "-" + supi + "-" + Dec(n)
  }

  /** extractSEID: the number after the last dash, 0 when there is no dash. */
  function Serial(id: string): (n: nat)
    ensures n < TWO64
  {
    if '-' !in id then 0 else ScanUint64(AfterLast(id, '-'))
  }

  lemma ScanDec(n: nat)
    requires n < TWO64
    ensures ScanUint64(Dec(n)) == n
  {
    ParseDec(n);
    var d := Dec(n);
    assert SkipSpace(d) == Some(d) by { assert IsDigit(d[0]); }
    DigitPrefixAll(d);
  }

  /** Parsing inverts printing for every SUPI, dashes included, and every uint64. */
  lemma SerialOfIdentifier(kind: string, supi: string, n: nat)
    requires n < TWO64
    ensures Serial(Identifier(kind, supi, n)) == n
    ensures Identifier(kind, supi, n) != ""
  {
    var a, d := kind + "-" + supi, Dec(n);
    assert Identifier(kind, supi, n) == a + ['-'] + d;
    assert '-' !in d by { ParseDec(n); }
    hide AfterLast, ScanUint64, Dec;
    AfterLastOf(a, d, '-');
    assert (a + ['-'] + d)[|a|] == '-';
    ScanDec(n);
  }

  /** One kind of identifier never prints the same for two different (supi, n). */
  lemma IdentifierInjective(kind: string, supi: string, n: nat, supi': string, n': nat)
    requires Identifier(kind, supi, n) == Identifier(kind, supi', n')
    ensures supi == supi' && n == n'
  {
    ParseDec(n);
    ParseDec(n');
    var a, a' := kind + "-" + supi, kind + "-" + supi';
    assert Identifier(kind, supi, n) == a + ['-'] + Dec(n);
    assert Identifier(kind, supi', n') == a' + ['-'] + Dec(n');
    LastSeparatorSplits(a, Dec(n), a', Dec(n'), '-');
    assert a[|kind| + 1..] == supi && a'[|kind| + 1..] == supi';
  }

  /** Decimal text in print. */
  lemma DecimalsInPrint()
    ensures Dec(0) == "0" && Dec(254) == "254" && DecInt(-7) == "-7"
  {
    assert Dec(2) == "2" && Dec(25) == "25";
  }

  /** An identifier in print. */
  lemma IdentifierInPrint()
    ensures Identifier("pdu", "imsi-001", 42) == "pdu-imsi-001-42"
  {
    assert Dec(4) == "4";
    assert Dec(42) == "42";
    hide Dec;
    assert "pdu" + "-" == "pdu-";
    assert "pdu-" + "imsi-001" == "pdu-imsi-001";
    assert "pdu-imsi-001" + "-" == "pdu-imsi-001-";
  }
}
