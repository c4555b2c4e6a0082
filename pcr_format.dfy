/**
 * The text of one output line of readpcr.cpp: `"PCR"`, the register index
 * through `snprintf("%02d")`, a space, then for each digest byte a space and
 * the byte through `snprintf("%02X")`. Parsers for the same layout are the
 * inverses that pin the formatting down.
 */
module PcrFormat {
  import opened Options

  // ---------------------------------------------------------------------------
  // Decimal, as printf's %d and %02d write a non-negative int

  /** The character of a decimal digit. */
  function DigitChar(d: nat): (c: char)
    requires d < 10
    ensures '0' <= c <= '9'
  {
    ('0' as int + d) as char
  }

  /** The value of a decimal digit character, if it is one. */
  function DigitValue(c: char): (r: Option<nat>)
    ensures r.Some? <==> '0' <= c <= '9'
    ensures r.Some? ==> r.value < 10 && DigitChar(r.value) == c
  {
    if '0' <= c <= '9' then Some(c as int - '0' as int) else None
  }

  /** `%d` of a non-negative value: its decimal digits, no leading zero. */
  function Decimal(n: nat): (s: string)
    ensures 1 <= |s|
    ensures forall k :: 0 <= k < |s| ==> '0' <= s[k] <= '9'
    ensures |s| == 1 <==> n < 10
    ensures n >= 10 ==> s[0] != '0'
  {
    if n < 10 then [DigitChar(n)] else Decimal(n / 10) + [DigitChar(n % 10)]
  }

  /** `%02d` of a non-negative value: at least two digits, padded with a leading '0'. */
  function Pad2(n: nat): (s: string)
    ensures 2 <= |s|
    ensures forall k :: 0 <= k < |s| ==> '0' <= s[k] <= '9'
  {
    if n < 10 then "0" + Decimal(n) else Decimal(n)
  }

  /** The value of a non-empty string of decimal digits. */
  function ParseDecimal(s: string): (r: Option<nat>)
    ensures r.Some? ==> s != []
  {
    if s == [] then None
    else if |s| == 1 then DigitValue(s[0])
    else match (ParseDecimal(s[..|s| - 1]), DigitValue(s[|s| - 1]))
      case (Some(high), Some(low)) => Some(10 * high + low)
      case _ => None
  }

  /** Parsing the decimal text of `n` gives `n`. */
  lemma {:induction false} ParseDecimalOfDecimal(n: nat)
    ensures ParseDecimal(Decimal(n)) == Some(n)
    decreases n
  {
    if n >= 10 {
      var s := Decimal(n);
      assert s[..|s| - 1] == Decimal(n / 10);
      ParseDecimalOfDecimal(n / 10);
    }
  }

  /** `%02d` reads back as the same value; below 100 it is exactly two digits, tens first. */
  lemma ParsePad2(n: nat)
    ensures ParseDecimal(Pad2(n)) == Some(n)
    ensures n < 100 ==> Pad2(n) == [DigitChar(n / 10), DigitChar(n % 10)]
  {
    ParseDecimalOfDecimal(n);
    if n < 10 {
      assert Pad2(n)[..1] == "0";
    } else if n < 100 {
      assert Decimal(n / 10) == [DigitChar(n / 10)];
    }
  }

  // ---------------------------------------------------------------------------
  // Hexadecimal, as printf's %02X writes an unsigned char

  /** The upper-case hexadecimal digit of a value below 16. */
  function HexDigit(d: nat): (c: char)
    requires d < 16
    ensures '0' <= c <= '9' || 'A' <= c <= 'F'
  {
    if d < 10 then ('0' as int + d) as char else ('A' as int + (d - 10)) as char
  }

  /** The value of an upper-case hexadecimal digit, if `c` is one. */
  function HexValue(c: char): (r: Option<nat>)
    ensures r.Some? <==> '0' <= c <= '9' || 'A' <= c <= 'F'
    ensures r.Some? ==> r.value < 16 && HexDigit(r.value) == c
  {
    if '0' <= c <= '9' then Some(c as int - '0' as int)
    else if 'A' <= c <= 'F' then Some(c as int - 'A' as int + 10)
    else None
  }

  /** `%02X` of a byte: always two upper-case hexadecimal digits, high nibble first. */
  function Hex2(b: bv8): (s: string)
    ensures |s| == 2
  {
    [HexDigit(b as int / 16), HexDigit(b as int % 16)]
  }

  /** The byte written as two upper-case hexadecimal digits. */
  function ParseHex2(s: string): (r: Option<bv8>)
    ensures r.Some? ==> |s| == 2
  {
    if |s| != 2 then None
    else match (HexValue(s[0]), HexValue(s[1]))
      case (Some(high), Some(low)) => Some(FromNibbles(high, low))
      case _ => None
  }

  /** The byte with the given high and low nibbles. */
  function FromNibbles(high: nat, low: nat): bv8
    requires high < 16 && low < 16
  {
    (16 * high + low) as bv8
  }

  /** A byte is rebuilt from its two nibbles. */
  lemma FromNibblesOfByte(b: bv8)
    ensures FromNibbles(b as int / 16, b as int % 16) == b
  {
    var n := b as int;
    assert 16 * (n / 16) + n % 16 == n;
  }

  /** Each hexadecimal digit reads back as its value. */
  lemma HexValueOfHexDigit(d: nat)
    requires d < 16
    ensures HexValue(HexDigit(d)) == Some(d)
  {
  }

  /** `%02X` is read back exactly. */
  lemma ParseHex2OfHex2(b: bv8)
    ensures ParseHex2(Hex2(b)) == Some(b)
  {
    var n := b as int;
    var s := Hex2(b);
    HexValueOfHexDigit(n / 16);
    HexValueOfHexDigit(n % 16);
    assert HexValue(s[0]) == Some(n / 16);
    assert HexValue(s[1]) == Some(n % 16);
    FromNibblesOfByte(b);
  }

  /** Two hexadecimal digits determine the byte: `Hex2` is injective. */
  lemma Hex2Injective(a: bv8, b: bv8)
    requires Hex2(a) == Hex2(b)
    ensures a == b
  {
    ParseHex2OfHex2(a);
    ParseHex2OfHex2(b);
  }

  // ---------------------------------------------------------------------------
  // The digest and the whole line

  /** The digest as the inner loop writes it: `' '` and `%02X` for each byte, in order. */
  function HexBytes(d: seq<bv8>): (s: string)
    ensures |s| == 3 * |d|
  {
    if d == [] then "" else HexBytes(d[..|d| - 1]) + " " + Hex2(d[|d| - 1])
  }

  /** Byte `k` of the digest occupies characters 3k .. 3k+2: a space and its two hex digits. */
  lemma {:induction false} HexBytesAt(d: seq<bv8>, k: nat)
    requires k < |d|
    ensures HexBytes(d)[3 * k] == ' '
    ensures HexBytes(d)[3 * k + 1 .. 3 * k + 3] == Hex2(d[k])
  {
    var init := d[..|d| - 1];
    assert HexBytes(d) == HexBytes(init) + " " + Hex2(d[|d| - 1]);
    if k < |d| - 1 {
      HexBytesAt(init, k);
      assert HexBytes(d)[3 * k + 1 .. 3 * k + 3] == HexBytes(init)[3 * k + 1 .. 3 * k + 3];
    }
  }

  /** One output line for register `index` with digest `d` (the newline is not part of it). */
  function PcrLine(index: nat, d: seq<bv8>): (line: string)
    ensures |line| == 3 + |Pad2(index)| + 1 + 3 * |d|
    ensures line[..3] == "PCR"
  {
    "PCR" + Pad2(index) + " " + HexBytes(d)
  }

  /** Parses the digest part of a line: groups of a space and two hex digits. */
  function ParseHexBytes(s: string): (r: Option<seq<bv8>>)
    ensures r.Some? ==> |s| == 3 * |r.value|
  {
    if s == [] then Some([])
    else if |s| < 3 || s[|s| - 3] != ' ' then None
    else match (ParseHexBytes(s[..|s| - 3]), ParseHex2(s[|s| - 2..]))
      case (Some(init), Some(last)) => Some(init + [last])
      case _ => None
  }

  /** The digest text is read back exactly. */
  lemma {:induction false} ParseHexBytesOfHexBytes(d: seq<bv8>)
    ensures ParseHexBytes(HexBytes(d)) == Some(d)
  {
    if d != [] {
      var s := HexBytes(d);
      var init, last := d[..|d| - 1], d[|d| - 1];
      var prefix := HexBytes(init);
      assert s == prefix + " " + Hex2(last);
      assert s[..|s| - 3] == prefix;
      assert s[|s| - 3] == ' ';
      assert s[|s| - 2..] == Hex2(last);
      ParseHexBytesOfHexBytes(init);
      ParseHex2OfHex2(last);
      assert ParseHexBytes(s) == Some(init + [last]);
      assert init + [last] == d;
    }
  }

  /** The fields of a parsed output line. */
  datatype LineFields = LineFields(index: nat, digest: seq<bv8>)

  /** Parses a line whose index has two digits, as every line for registers 0..23 does. */
  function ParsePcrLine(line: string): (r: Option<LineFields>)
    ensures r.Some? ==> r.value.index < 100 && |line| == 6 + 3 * |r.value.digest|
  {
    if |line| < 6 || line[..3] != "PCR" || line[5] != ' ' then None
    else match (ParseDecimal(line[3..5]), ParseHexBytes(line[6..]))
      case (Some(index), Some(digest)) =>
        ParseDecimalBelow(line[3..5]);
        Some(LineFields(index, digest))
      case _ => None
  }

  /** A two-character decimal is below 100. */
  lemma ParseDecimalBelow(s: string)
    requires |s| == 2 && ParseDecimal(s).Some?
    ensures ParseDecimal(s).value < 100
  {
    assert s[..1] == [s[0]];
  }

  /**
   * The layout of a line: "PCR", two decimal digits, then for each digest
   * byte a space and two hex digits after one more space, so the index is
   * followed by two spaces. Parsing the line gives back the index and digest.
   */
  lemma PcrLineLayout(index: nat, d: seq<bv8>)
    requires index < 100
    ensures var line := PcrLine(index, d);
      && |line| == 6 + 3 * |d|
      && line[..3] == "PCR"
      && line[3..5] == [DigitChar(index / 10), DigitChar(index % 10)]
      && line[5] == ' '
      && (forall k :: 0 <= k < |d| ==> line[6 + 3 * k] == ' ' && line[7 + 3 * k .. 9 + 3 * k] == Hex2(d[k]))
      && ParsePcrLine(line) == Some(LineFields(index, d))
  {
    var line := PcrLine(index, d);
    ParsePad2(index);
    assert line[..3] == "PCR";
    assert line[3..5] == Pad2(index);
    assert line[6..] == HexBytes(d);
    forall k | 0 <= k < |d|
      ensures line[6 + 3 * k] == ' ' && line[7 + 3 * k .. 9 + 3 * k] == Hex2(d[k])
    {
      HexBytesAt(d, k);
      assert line[7 + 3 * k .. 9 + 3 * k] == HexBytes(d)[3 * k + 1 .. 3 * k + 3];
    }
    ParseHexBytesOfHexBytes(d);
  }
}
