/**
 * The glyph table: FONT_DATA_SIZE = 80 bytes (16 glyphs of 5 rows), either
 * the built-in default or parsed from a text file with one `0b` followed by
 * eight binary digits per line.
 *
 * The file is read as a sequence of lines; opening it and `std::getline`
 * are not modelled. A file that cannot be opened yields no line.
 */
module Font {
  import opened Types

  const FontDataSize: nat := 80

  /**
   * DEFAULT_FONT. The header that defines it is not part of this model; the
   * conventional CHIP-8 glyphs for 0-F are used. Nothing below depends on the
   * values, only on the length.
   */
  const DefaultFont: seq<byte> := [
    0xF0, 0x90, 0x90, 0x90, 0xF0,  // 0
    0x20, 0x60, 0x20, 0x20, 0x70,  // 1
    0xF0, 0x10, 0xF0, 0x80, 0xF0,  // 2
    0xF0, 0x10, 0xF0, 0x10, 0xF0,  // 3
    0x90, 0x90, 0xF0, 0x10, 0x10,  // 4
    0xF0, 0x80, 0xF0, 0x10, 0xF0,  // 5
    0xF0, 0x80, 0xF0, 0x90, 0xF0,  // 6
    0xF0, 0x10, 0x20, 0x40, 0x40,  // 7
    0xF0, 0x90, 0xF0, 0x90, 0xF0,  // 8
    0xF0, 0x90, 0xF0, 0x10, 0xF0,  // 9
    0xF0, 0x90, 0xF0, 0x90, 0x90,  // A
    0xE0, 0x90, 0xE0, 0x90, 0xE0,  // B
    0xF0, 0x80, 0x80, 0x80, 0xF0,  // C
    0xE0, 0x90, 0x90, 0x90, 0xE0,  // D
    0xF0, 0x80, 0xF0, 0x80, 0xF0,  // E
    0xF0, 0x80, 0xF0, 0x80, 0x80   // F
  ]

  // ---------------------------------------------------------------------
  // One line: the search for `0b([01]{8})`
  // ---------------------------------------------------------------------

  predicate IsBinaryDigit(c: char)
  {
    c == '0' || c == '1'
  }

  predicate AllBinary(s: string)
  {
    forall j :: 0 <= j < |s| ==> IsBinaryDigit(s[j])
  }

  /** The pattern `0b[01]{8}` matches `line` starting at position i. */
  predicate MatchAt(line: string, i: nat)
  {
    i + 10 <= |line| && line[i] == '0' && line[i + 1] == 'b' && AllBinary(line[i + 2..i + 10])
  }

  /** The leftmost position at or after `from` where the pattern matches, as `std::regex_search` finds it. */
  function FirstMatch(line: string, from: nat): (r: Option<nat>)
    ensures r.Some? ==> from <= r.value && MatchAt(line, r.value)
    ensures r.Some? ==> forall j :: from <= j < r.value ==> !MatchAt(line, j)
    ensures r.None? ==> forall j :: from <= j ==> !MatchAt(line, j)
    decreases |line| - from
  {
    if from + 10 > |line| then None
    else if MatchAt(line, from) then Some(from)
    else FirstMatch(line, from + 1)
  }

  /** The first capture group `match.str(1)` of the leftmost match: eight binary digits. */
  function SearchByte(line: string): (r: Option<string>)
    ensures r.Some? ==> |r.value| == 8 && AllBinary(r.value)
    ensures r.Some? ==> FirstMatch(line, 0).Some? &&
                        r.value == line[FirstMatch(line, 0).value + 2..FirstMatch(line, 0).value + 10]
    ensures r.None? <==> forall j :: !MatchAt(line, j)
  {
    match FirstMatch(line, 0)
    case Some(i) => Some(line[i + 2..i + 10])
    case None => None
  }

  /** A match at i with none to its left is the one whose digits `match.str(1)` returns. */
  lemma SearchByteLeftmost(line: string, i: nat)
    requires MatchAt(line, i)
    requires forall j :: 0 <= j < i ==> !MatchAt(line, j)
    ensures SearchByte(line) == Some(line[i + 2..i + 10])
  {
    assert FirstMatch(line, 0).Some?;
    var k := FirstMatch(line, 0).value;
    assert !(k < i) && !(i < k);
  }

  // ---------------------------------------------------------------------
  // Reading the digits
  // ---------------------------------------------------------------------

  function DigitValue(c: char): nat
  {
    if c == '1' then 1 else 0
  }

  /** The number written with n ones in decimal: 0, 1, 11, 111, ... */
  function Repunit(n: nat): nat
  {
    if n == 0 then 0 else Repunit(n - 1) * 10 + 1
  }

  /** `std::stoi`: the digits read as a decimal number, at most the repunit of their length. */
  function DecimalValue(digits: string): (r: nat)
    requires AllBinary(digits)
    ensures r <= Repunit(|digits|)
  {
    if digits == [] then 0
    else DecimalValue(digits[..|digits| - 1]) * 10 + DigitValue(digits[|digits| - 1])
  }

  /** Eight binary digits read in decimal stay within 11111111, so `std::stoi` never throws here. */
  lemma DecimalValueBound(digits: string)
    requires AllBinary(digits)
    ensures |digits| == 8 ==> DecimalValue(digits) <= 11111111 < 0x8000_0000
  {
    if |digits| == 8 {
      assert Repunit(8) == 11111111;
    }
  }

  /** The byte stored for a matched line as written: `(std::byte)std::stoi(...)`, the decimal value modulo 256. */
  function ParseByte(digits: string): (b: byte)
    requires |digits| == 8 && AllBinary(digits)
    ensures b as int % 2 == BinaryValue(digits) % 2
  {
    LowestDigitAgrees(digits);
    (DecimalValue(digits) % 256) as byte
  }

  /** Both readings end in the last digit, so the as-written byte has the intended lowest bit. */
  lemma LowestDigitAgrees(digits: string)
    requires AllBinary(digits)
    ensures DecimalValue(digits) % 2 == BinaryValue(digits) % 2
  {
  }

  /** The digits read in base 2, as the `0b` prefix announces. */
  function BinaryValue(digits: string): nat
    requires AllBinary(digits)
  {
    if digits == [] then 0
    else BinaryValue(digits[..|digits| - 1]) * 2 + DigitValue(digits[|digits| - 1])
  }

  function Pow2(n: nat): (r: nat)
    ensures r >= 1
  {
    if n == 0 then 1 else 2 * Pow2(n - 1)
  }

  /** The byte a line `0b<digits>` denotes. */
  function ParseByteIntended(digits: string): (b: byte)
    requires |digits| == 8 && AllBinary(digits)
    ensures b as int == BinaryValue(digits)
  {
    BinaryValueBound(digits);
    BinaryValue(digits) as byte
  }

  lemma {:induction false} BinaryValueBound(digits: string)
    requires AllBinary(digits)
    ensures BinaryValue(digits) < Pow2(|digits|)
  {
    if digits != [] {
      BinaryValueBound(digits[..|digits| - 1]);
    }
  }

  /** The w binary digits of v, most significant first. */
  function BinaryDigits(v: nat, w: nat): (s: string)
    ensures |s| == w && AllBinary(s)
  {
    if w == 0 then "" else BinaryDigits(v / 2, w - 1) + [if v % 2 == 1 then '1' else '0']
  }

  /** Reading the w-digit binary spelling of v < 2^w gives back v. */
  lemma {:induction false} BinaryRoundTrip(v: nat, w: nat)
    requires v < Pow2(w)
    ensures BinaryValue(BinaryDigits(v, w)) == v
  {
    if w > 0 {
      BinaryRoundTrip(v / 2, w - 1);
      var s := BinaryDigits(v, w);
      assert s[..|s| - 1] == BinaryDigits(v / 2, w - 1);
    }
  }

  /** Every byte has a spelling `0b<digits>` that the intended reading maps back to it. */
  lemma IntendedParseRoundTrip(b: byte)
    ensures ParseByteIntended(BinaryDigits(b as nat, 8)) == b
  {
    assert Pow2(8) == 256;
    BinaryRoundTrip(b as nat, 8);
  }

  /** `0b11110000` read in decimal is 11110000, in binary 240. */
  lemma ReadingsOf11110000()
    ensures DecimalValue("11110000") == 11110000
    ensures BinaryValue("11110000") == 240
  {
    assert "11110000"[..7] == "1111000";
    assert "1111000"[..6] == "111100";
    assert "111100"[..5] == "11110";
    assert "11110"[..4] == "1111";
    assert "1111"[..3] == "111";
    assert "111"[..2] == "11";
    assert "11"[..1] == "1";
    assert "1"[..0] == "";
  }

  /** `0b00000001` reads as 1 in either base. */
  lemma ReadingsOfOne()
    ensures DecimalValue("00000001") == 1
    ensures BinaryValue("00000001") == 1
  {
    assert "00000001"[..7] == "0000000";
    assert "0000000"[..6] == "000000";
    assert "000000"[..5] == "00000";
    assert "00000"[..4] == "0000";
    assert "0000"[..3] == "000";
    assert "000"[..2] == "00";
    assert "00"[..1] == "0";
    assert "0"[..0] == "";
  }

  /** The code as written reads `0b00000001` as 1 but `0b11110000` as 112, not 240. */
  lemma DecimalReadingDiffers()
    ensures ParseByte("00000001") == 1 == ParseByteIntended("00000001")
    ensures ParseByte("11110000") == 112
    ensures ParseByteIntended("11110000") == 240
  {
    ReadingsOfOne();
    ReadingsOf11110000();
    assert 11110000 % 256 == 112;
  }

  // ---------------------------------------------------------------------
  // The whole file
  // ---------------------------------------------------------------------

  /** What one line adds to the table: the parsed byte of its match, or nothing. */
  function Contribution(line: string): seq<byte>
  {
    match SearchByte(line)
    case Some(digits) => [ParseByte(digits)]
    case None => []
  }

  /** The bytes the matching lines contribute, in line order, as the code writes them. */
  function Matches(lines: seq<string>): seq<byte>
  {
    if lines == [] then []
    else Matches(lines[..|lines| - 1]) + Contribution(lines[|lines| - 1])
  }

  /** The number of lines that contain a match. */
  function MatchingLines(lines: seq<string>): nat
  {
    if lines == [] then 0
    else MatchingLines(lines[..|lines| - 1]) + if SearchByte(lines[|lines| - 1]).Some? then 1 else 0
  }

  /** The table `Font(filename)` ends up with, or the exception it throws. */
  function FontFromLines(lines: seq<string>): (r: Result<seq<byte>>)
    ensures r.Ok? ==> |r.value| == FontDataSize
    ensures r.Err? ==> r.error == OutOfRange
  {
    var m := Matches(lines);
    if |m| > FontDataSize then Err(OutOfRange)  // `fontdata->at(80)` on the 81st match
    else if |m| == FontDataSize then Ok(m)
    else Ok(DefaultFont)
  }

  /** Each matching line contributes exactly one byte: the table length is the number of matching lines. */
  lemma {:induction false} MatchesCountsLines(lines: seq<string>)
    ensures |Matches(lines)| == MatchingLines(lines)
  {
    if lines != [] {
      MatchesCountsLines(lines[..|lines| - 1]);
    }
  }

  /** Bytes come in line order: the bytes of a file are those of its first part followed by those of the rest. */
  lemma {:induction false} MatchesAppend(a: seq<string>, b: seq<string>)
    ensures Matches(a + b) == Matches(a) + Matches(b)
    decreases |b|
  {
    if b != [] {
      var b' := b[..|b| - 1];
      MatchesAppend(a, b');
      assert (a + b)[..|a + b| - 1] == a + b';
      assert (a + b)[|a + b| - 1] == b[|b| - 1];
      calc {
        Matches(a + b);
        Matches(a + b') + Contribution(b[|b| - 1]);
        Matches(a) + Matches(b') + Contribution(b[|b| - 1]);
        Matches(a) + (Matches(b') + Contribution(b[|b| - 1]));
        Matches(a) + Matches(b);
      }
    } else {
      assert a + b == a;
    }
  }

  /** Reading one more line appends that line's contribution. */
  lemma MatchesSnoc(lines: seq<string>, k: nat)
    requires k < |lines|
    ensures Matches(lines[..k + 1]) == Matches(lines[..k]) + Contribution(lines[k])
  {
    assert lines[..k + 1][..k] == lines[..k];
  }

  /** The lines after a prefix only add bytes. */
  lemma MatchesPrefixShorter(lines: seq<string>, k: nat)
    requires k <= |lines|
    ensures |Matches(lines[..k])| <= |Matches(lines)|
  {
    MatchesAppend(lines[..k], lines[k..]);
    assert lines[..k] + lines[k..] == lines;
  }

  /** A line without a match contributes nothing; a line with one contributes its parsed byte. */
  lemma OneLine(line: string)
    ensures Matches([line]) == Contribution(line)
    ensures SearchByte(line).Some? ==> Matches([line]) == [ParseByte(SearchByte(line).value)]
    ensures (forall j :: !MatchAt(line, j)) ==> Matches([line]) == []
  {
    assert [line][..0] == [];
  }

  /** The outcome of `Font(filename)`: the parse is kept exactly when 80 lines matched; fewer revert to the default. */
  lemma FontFromLinesCases(lines: seq<string>)
    ensures FontFromLines(lines).Err? <==> MatchingLines(lines) > FontDataSize
    ensures MatchingLines(lines) == FontDataSize ==> FontFromLines(lines) == Ok(Matches(lines))
    ensures MatchingLines(lines) < FontDataSize ==> FontFromLines(lines) == Ok(DefaultFont)
    ensures FontFromLines(lines).Ok? ==> |FontFromLines(lines).value| == FontDataSize
  {
    MatchesCountsLines(lines);
  }

  /** `font::Font`: the glyph table, filled in place. */
  class Font {
    var fontdata: array<byte>

    ghost predicate Valid()
      reads this
    {
      fontdata.Length == FontDataSize
    }

    /** `Font::data`. */
    function Data(): (d: seq<byte>)
      reads this, fontdata
      requires Valid()
      ensures |d| == FontDataSize
    {
      fontdata[..]
    }

    /** `Font()`: the default table, copied byte by byte. */
    constructor Default()
      ensures Valid() && fresh(fontdata)
      ensures Data() == DefaultFont
    {
      var table := new byte[FontDataSize];
      for i := 0 to FontDataSize
        invariant table[..i] == DefaultFont[..i]
      {
        table[i] := DefaultFont[i];
      }
      fontdata := table;
    }

    /** Allocates a zeroed table of FONT_DATA_SIZE bytes. */
    constructor Allocate()
      ensures Valid() && fresh(fontdata)
      ensures Data() == seq(FontDataSize, _ => 0)
    {
      fontdata := new byte[FontDataSize](_ => 0);
    }

    /** Overwrites the table with DEFAULT_FONT. */
    method Revert()
      requires Valid()
      modifies fontdata
      ensures Data() == DefaultFont
    {
      for i := 0 to FontDataSize
        invariant fontdata[..i] == DefaultFont[..i]
      {
        fontdata[i] := DefaultFont[i];
      }
    }

    /**
     * `Font(filename)`: takes one byte per matching line; keeps them when
     * exactly FONT_DATA_SIZE lines matched, reverts to the default table when
     * fewer did, and throws on the 81st match.
     */
    static method FromLines(lines: seq<string>) returns (r: Result<Font>)
      ensures r.Err? <==> FontFromLines(lines).Err?
      ensures r.Err? ==> r.error == OutOfRange
      ensures r.Ok? ==> fresh(r.value) && fresh(r.value.fontdata) && r.value.Valid() &&
                        r.value.Data() == FontFromLines(lines).value
    {
      var font := new Font.Allocate();
      var counter := 0;
      for li := 0 to |lines|
        invariant font.Valid() && fresh(font.fontdata)
        invariant counter == |Matches(lines[..li])| <= FontDataSize
        invariant font.fontdata[..counter] == Matches(lines[..li])
      {
        MatchesSnoc(lines, li);
        var m := SearchByte(lines[li]);
        if m.Some? {
          if counter >= font.fontdata.Length {
            MatchesPrefixShorter(lines, li + 1);
            return Err(OutOfRange);
          }
          font.fontdata[counter] := ParseByte(m.value);
          counter := counter + 1;
        }
      }
      assert lines[..|lines|] == lines;
      if counter != FontDataSize {
        font.Revert();
      }
      r := Ok(font);
    }
  }
}
