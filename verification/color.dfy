/** Conversions between bytes as numbers and as 8-bit vectors. */
module Bytes {
  /** A number below 256 cast to 8 bits keeps its value. */
  lemma {:induction false} OfNat(v: nat)
    requires v < 256
    ensures (v as bv8) as nat == v
  {
  }
}

/** `Color` of the `xinghuo-geom` crate: four bytes r, g, b, a. */
module Colors {
  import opened Wrappers
  import opened Strings
  import Numbers
  import Bytes

  type Rgba = s: seq<bv8> | |s| == 4 witness [255, 255, 255, 255]

  datatype Color = Color(bytes: Rgba)

  /** `Color::default()`: opaque white. */
  const Default := Color([255, 255, 255, 255])

  const Red := Color([0xff, 0x00, 0x00, 0xff])
  const Gleen := Color([0x00, 0xff, 0x00, 0xff])
  const Blue := Color([0x00, 0x00, 0xff, 0xff])
  const Yellow := Color([0xff, 0xff, 0x00, 0xff])

  function R(c: Color): bv8 { c.bytes[0] }
  function G(c: Color): bv8 { c.bytes[1] }
  function B(c: Color): bv8 { c.bytes[2] }
  function A(c: Color): bv8 { c.bytes[3] }

  /** The u32 whose big-endian bytes are r, g, b, a. */
  function ToU32(c: Color): bv32 {
    (R(c) as bv32 << 24) | (G(c) as bv32 << 16) | (B(c) as bv32 << 8) | A(c) as bv32
  }

  /** `From<u32> for Color`: `n >> 24 & 0xff`, `n >> 16 & 0xff`,
      `n >> 8 & 0xff`, `n & 0xff`. Packing the bytes again gives `n`
      back. */
  function FromU32(n: bv32): (c: Color)
    ensures ToU32(c) == n
  {
    Color([((n >> 24) & 0xff) as bv8, ((n >> 16) & 0xff) as bv8, ((n >> 8) & 0xff) as bv8, (n & 0xff) as bv8])
  }

  /** Splitting a packed colour gives the same colour back. */
  lemma {:induction false} FromU32ToU32(c: Color)
    ensures FromU32(ToU32(c)) == c
  {
  }

  /** A radix `u8::from_str_radix` accepts. */
  type Radix = r: nat | 2 <= r <= 36 witness 10

  const Base10: Radix := 10
  const Base16: Radix := 16

  /** One channel: the text read as a byte in the given radix by
      `u8::from_str_radix`, or 0xff when it does not parse. */
  function Channel(part: string, radix: Radix): bv8
  {
    Numbers.ParseByte(part, radix).GetOr(0xff) as bv8
  }

  /** One channel of the `#rrggbbaa` form: a hex pair. */
  function HexChannel(pair: string): bv8 {
    Channel(pair, Base16)
  }

  /** The four comma-separated channels of the bracketed form, read in
      the given radix; a count other than four gives the default
      colour. */
  function BracketChannels(inner: string, radix: Radix): Color
  {
    var parts := Split(inner, ',');
    if |parts| != 4 then Default
    else Color([Channel(parts[0], radix), Channel(parts[1], radix), Channel(parts[2], radix), Channel(parts[3], radix)])
  }

  /** The text between the first and the last character (`&s[1..s.len() - 1]`),
      for strings of two or more characters. */
  function Inner(t: string): string {
    if |t| >= 2 then t[1..|t| - 1] else ""
  }

  /** The bracket guard as the source writes it: both tests look at the
      FIRST character. */
  predicate BracketGuardAsWritten(t: string) {
    (StartsWith(t, '(') && StartsWith(t, ')')) || (StartsWith(t, '[') && StartsWith(t, ']'))
  }

  /** `From<&str> for Color`. A nine-character string starting with `#`
      is read as four hex pairs; otherwise whitespace is removed and the
      bracket guard decides, and the bracketed channels are read in base
      16; anything else is the default colour. */
  function FromStr(s: string): (c: Color)
    ensures !(|s| == 9 && s[0] == '#') ==> c == Default
  {
    if |s| == 9 && s[0] == '#' then
      Color([HexChannel(s[1..3]), HexChannel(s[3..5]), HexChannel(s[5..7]), HexChannel(s[7..9])])
    else
      var t := RemoveWhitespace(s);
      if BracketGuardAsWritten(t) then BracketChannels(Inner(t), Base16)
      else Default
  }

  /** No string passes the bracket guard as written. */
  lemma {:induction false} BracketGuardNeverHolds(t: string)
    ensures !BracketGuardAsWritten(t)
  {
  }

  /** The doc comment's own example comes out white, not red. */
  lemma {:induction false} BracketExampleIsWhite()
    ensures FromStr("[255,0,0,255]") == Default
  {
  }

  /** The bracket guard the doc comment describes: an opening bracket at
      the start and the matching closing one at the end. */
  predicate BracketGuardIntended(t: string) {
    (StartsWith(t, '(') && EndsWith(t, ')')) || (StartsWith(t, '[') && EndsWith(t, ']'))
  }

  /** `From<&str> for Color` as the doc comment describes it: the bracket
      guard corrected, and the bracketed channels read as the decimal
      bytes the doc comment shows. The `#` form is kept as written. */
  function FromStrIntended(s: string): (c: Color)
    ensures |s| == 9 && s[0] == '#' ==> c == FromStr(s)
  {
    if |s| == 9 && s[0] == '#' then
      Color([HexChannel(s[1..3]), HexChannel(s[3..5]), HexChannel(s[5..7]), HexChannel(s[7..9])])
    else
      var t := RemoveWhitespace(s);
      if BracketGuardIntended(t) then BracketChannels(Inner(t), Base10)
      else Default
  }

  /** A byte as two lower-case hex digits. */
  function Hex(b: bv8): (s: string)
    ensures |s| == 2
  {
    Numbers.HexByte(b as nat)
  }

  lemma {:induction false} ParseHex(b: bv8)
    ensures HexChannel(Hex(b)) == b
  {
    Numbers.ParseHexByte(b as nat);
  }

  /** The `#rrggbbaa` form is read pair by pair. */
  lemma {:induction false} HexFormChannels(p0: string, p1: string, p2: string, p3: string)
    requires |p0| == |p1| == |p2| == |p3| == 2
    ensures FromStr("#" + p0 + p1 + p2 + p3)
            == Color([HexChannel(p0), HexChannel(p1), HexChannel(p2), HexChannel(p3)])
  {
    var s := "#" + p0 + p1 + p2 + p3;
    assert s[1..3] == p0;
    assert s[3..5] == p1;
    assert s[5..7] == p2;
    assert s[7..9] == p3;
  }

  /** Every colour written as `#rrggbbaa` is read back unchanged. */
  lemma {:induction false} HexFormRoundTrip(c: Color)
    ensures FromStr("#" + Hex(R(c)) + Hex(G(c)) + Hex(B(c)) + Hex(A(c))) == c
  {
    HexFormChannels(Hex(R(c)), Hex(G(c)), Hex(B(c)), Hex(A(c)));
    ParseHex(R(c));
    ParseHex(G(c));
    ParseHex(B(c));
    ParseHex(A(c));
    ChannelsMakeColor(c);
  }

  /** A colour is its four channels. */
  lemma {:induction false} ChannelsMakeColor(c: Color)
    ensures Color([R(c), G(c), B(c), A(c)]) == c
  {
    assert c.bytes == [R(c), G(c), B(c), A(c)];
  }

  /** The four hex pairs of a colour, in channel order. */
  function HexPairs(c: Color): (ps: seq<string>)
    ensures |ps| == 4
    ensures forall k :: 0 <= k < 4 ==> ps[k] == Hex(c.bytes[k])
  {
    seq(4, k requires 0 <= k < 4 => Hex(c.bytes[k]))
  }

  /** A colour's `#` form with the pair of channel `k` replaced by any two
      characters that are no hex byte reads back as the colour with that
      channel alone set to 0xff. */
  lemma {:induction false} BadHexPairIsOpaque(c: Color, k: nat, p: string)
    requires k < 4 && |p| == 2 && Numbers.ParseByte(p, 16).None?
    ensures var ps := HexPairs(c)[k := p];
            FromStr("#" + ps[0] + ps[1] + ps[2] + ps[3]) == Color(c.bytes[k := 0xff])
  {
    var ps := HexPairs(c)[k := p];
    HexFormChannels(ps[0], ps[1], ps[2], ps[3]);
    AlteredChannels(c, k, p);
  }

  /** The channels of the altered pairs: the colour's bytes with channel
      `k` set to 0xff. */
  lemma {:induction false} AlteredChannels(c: Color, k: nat, p: string)
    requires k < 4 && |p| == 2 && Numbers.ParseByte(p, 16).None?
    ensures var ps := HexPairs(c)[k := p];
            [HexChannel(ps[0]), HexChannel(ps[1]), HexChannel(ps[2]), HexChannel(ps[3])] == c.bytes[k := 0xff]
  {
    var ps := HexPairs(c)[k := p];
    ChannelOrOpaque(c, k, p, ps, 0);
    ChannelOrOpaque(c, k, p, ps, 1);
    ChannelOrOpaque(c, k, p, ps, 2);
    ChannelOrOpaque(c, k, p, ps, 3);
  }

  /** Channel `j` of the altered `#` form: 0xff at the bad pair, the
      colour's own byte elsewhere. */
  lemma {:induction false} ChannelOrOpaque(c: Color, k: nat, p: string, ps: seq<string>, j: nat)
    requires k < 4 && j < 4 && Numbers.ParseByte(p, 16).None?
    requires ps == HexPairs(c)[k := p]
    ensures HexChannel(ps[j]) == c.bytes[k := 0xff][j]
  {
    if j != k {
      ParseHex(c.bytes[j]);
    }
  }

  /** With the corrected guard, a whitespace-free body in square
      brackets goes to the channel parser. */
  lemma {:induction false} BracketedIntended(inner: string)
    requires NoWhitespace(inner)
    ensures FromStrIntended("[" + inner + "]") == BracketChannels(inner, Base10)
  {
    var s := "[" + inner + "]";
    assert NoWhitespace(s);
    RemoveWhitespaceOfClean(s);
    assert s[0] == '[' && s[|s| - 1] == ']';
    assert Inner(s) == inner;
  }

  /** A byte in decimal, as the doc comment writes the bracketed form. */
  function Dec(b: bv8): string {
    Numbers.DecimalString(b as nat)
  }

  /** A decimal byte is clean, holding neither a comma nor whitespace,
      and reads back as itself. */
  lemma {:induction false} ParseDec(b: bv8)
    ensures |Dec(b)| > 0 && ',' !in Dec(b) && NoWhitespace(Dec(b))
    ensures Channel(Dec(b), Base10) == b
  {
    Numbers.ParseDecimalByte(b as nat);
  }

  /** The four decimal channels of a colour, in channel order. */
  function DecParts(c: Color): (ps: seq<string>)
    ensures |ps| == 4
    ensures forall k :: 0 <= k < 4 ==> ps[k] == Dec(c.bytes[k])
  {
    seq(4, k requires 0 <= k < 4 => Dec(c.bytes[k]))
  }

  /** With the corrected parse, every colour written as four decimal
      bytes between square brackets, separated by commas, is read back
      unchanged. */
  lemma {:induction false} BracketFormIntended(c: Color)
    ensures FromStrIntended("[" + Join(DecParts(c), ',') + "]") == c
  {
    var parts := DecParts(c);
    var inner := Join(parts, ',');
    DecPartsClean(c);
    JoinNoWhitespace(parts, ',');
    BracketedIntended(inner);
    SplitJoin(parts, ',');
    DecPartsChannels(c);
  }

  /** No decimal part holds a comma or whitespace. */
  lemma {:induction false} DecPartsClean(c: Color)
    ensures forall k :: 0 <= k < |DecParts(c)| ==> ',' !in DecParts(c)[k] && NoWhitespace(DecParts(c)[k])
  {
    ParseDec(R(c));
    ParseDec(G(c));
    ParseDec(B(c));
    ParseDec(A(c));
  }

  /** The decimal parts read back as the colour's bytes. */
  lemma {:induction false} DecPartsChannels(c: Color)
    ensures var ps := DecParts(c);
            Color([Channel(ps[0], Base10), Channel(ps[1], Base10), Channel(ps[2], Base10), Channel(ps[3], Base10)]) == c
  {
    ParseDec(R(c));
    ParseDec(G(c));
    ParseDec(B(c));
    ParseDec(A(c));
    ChannelsMakeColor(c);
  }

  /** Parts separated by a comma and a space, as the doc comment writes
      the channel list. */
  function SpacedList(parts: seq<string>): string {
    if |parts| == 0 then ""
    else if |parts| == 1 then parts[0]
    else parts[0] + ", " + SpacedList(parts[1..])
  }

  /** The form the doc comment shows, `[r, g, b, a]` with a space after
      each comma. */
  function DocForm(c: Color): string {
    "[" + SpacedList(DecParts(c)) + "]"
  }

  /** Every colour written in the doc comment's form is read back
      unchanged by the corrected parse. */
  lemma {:induction false} DocFormIntended(c: Color)
    ensures FromStrIntended(DocForm(c)) == c
  {
    var ps := DecParts(c);
    var clean := "[" + Join(ps, ',') + "]";
    DocFormCleaned(c);
    BracketFormIntended(c);
    JoinNoWhitespace(ps, ',');
    assert NoWhitespace(clean);
    RemoveWhitespaceOfClean(clean);
    assert |clean| != 9 || clean[0] != '#';
  }

  /** Removing the spaces of the doc comment's form leaves the
      comma-separated form. */
  lemma {:induction false} DocFormCleaned(c: Color)
    ensures RemoveWhitespace(DocForm(c)) == "[" + Join(DecParts(c), ',') + "]"
  {
    var ps := DecParts(c);
    var m := SpacedList(ps);
    DecPartsClean(c);
    SpacedListCleaned(ps);
    assert "[" + m + "]" == "[" + (m + "]");
    RemoveWhitespaceAppend(m, "]");
    RemoveWhitespaceAppend("[", m + "]");
    RemoveWhitespaceOfClean("[");
    RemoveWhitespaceOfClean("]");
  }

  /** A list of clean parts written with `", "` between them, without
      its whitespace, is the parts joined by commas. */
  lemma {:induction false} SpacedListCleaned(parts: seq<string>)
    requires forall k :: 0 <= k < |parts| ==> NoWhitespace(parts[k])
    ensures RemoveWhitespace(SpacedList(parts)) == Join(parts, ',')
    decreases |parts|
  {
    if |parts| == 1 {
      RemoveWhitespaceOfClean(parts[0]);
    } else if |parts| > 1 {
      var rest := SpacedList(parts[1..]);
      SpacedListCleaned(parts[1..]);
      RemoveWhitespaceOfClean(parts[0]);
      CommaSpaceCleaned();
      assert parts[0] + ", " + rest == parts[0] + (", " + rest);
      RemoveWhitespaceAppend(", ", rest);
      RemoveWhitespaceAppend(parts[0], ", " + rest);
    }
  }

  lemma {:induction false} CommaSpaceCleaned()
    ensures RemoveWhitespace(", ") == ","
  {
    assert ", "[1..][1..] == "";
  }

  /** The doc comment's example `"[255, 0, 0, 255]"` is red under the
      corrected parse. */
  lemma {:induction false} DocExampleIntended()
    ensures FromStrIntended("[255, 0, 0, 255]") == Red
  {
    DocFormIntended(Red);
    RedDocForm();
  }

  lemma {:induction false} RedDocForm()
    ensures DocForm(Red) == "[255, 0, 0, 255]"
  {
    RedInDecimal();
    var ps := DecParts(Red);
    assert ps[1..][1..] == ["0", "255"] && ps[1..][1..][1..] == ["255"];
  }

  lemma {:induction false} RedInDecimal()
    ensures DecParts(Red) == ["255", "0", "0", "255"]
  {
    assert Numbers.DecimalString(2) == "2";
    assert Numbers.DecimalString(25) == "25";
    assert Numbers.DecimalString(255) == "255";
    assert Numbers.DecimalString(0) == "0";
  }

  /** A channel as the source reads it, in base 16, gives a decimal byte
      back exactly when the byte is a single digit or 255; 255 only by
      accident, since 0x255 overflows to the 0xff fallback. */
  lemma {:induction false} HexChannelOfDecimal(b: bv8)
    ensures Channel(Dec(b), Base16) == b <==> SurvivesHex(b)
  {
    Numbers.DecimalByteInHex(b as nat);
    var v := Numbers.ParseByte(Dec(b), 16).GetOr(0xff);
    Bytes.OfNat(v);
  }

  /** The bracketed decimal form read in base 16, as the source reads it,
      gives the colour back exactly when every channel is a single digit
      or 255: `[128,0,0,255]` comes back as `[255,0,0,255]`. */
  lemma {:induction false} HexBracketOfDecimal(c: Color)
    ensures BracketChannels(Join(DecParts(c), ','), Base16) == c
        <==> forall k :: 0 <= k < 4 ==> SurvivesHex(c.bytes[k])
  {
    DecBracketChannels(c, Base16);
    HexChannelOfDecimal(R(c));
    HexChannelOfDecimal(G(c));
    HexChannelOfDecimal(B(c));
    HexChannelOfDecimal(A(c));
    ChannelsMakeColor(c);
  }

  /** A byte whose decimal form reads back as itself in base 16: a single
      digit, or 255. */
  predicate SurvivesHex(b: bv8) {
    b < 10 || b == 0xff
  }

  /** The bracketed decimal form splits back into the decimal parts, so
      each channel is its part read in the radix. */
  lemma {:induction false} DecBracketChannels(c: Color, radix: Radix)
    ensures BracketChannels(Join(DecParts(c), ','), radix).bytes
         == [Channel(Dec(R(c)), radix), Channel(Dec(G(c)), radix), Channel(Dec(B(c)), radix), Channel(Dec(A(c)), radix)]
  {
    DecPartsClean(c);
    SplitJoin(DecParts(c), ',');
  }
}
