/** The format grammar: its definitions, and the magic byte strings it writes in hex or escaped text. */
module Grammar {
  import opened Wrappers
  import opened Bytes
  import Hex

  datatype GrammarError = InvalidMagicRule

  // ----- Escaped text -----

  /** Rust's cast of a character to a byte keeps the low 8 bits of the code point. */
  function CharToByte(c: char): byte {
    ByteOf(c as nat)
  }

  function CharAt(s: string, i: nat, default: char): char {
    if i < |s| then s[i] else default
  }

  /**
   * `u8::from_str_radix` on two characters: two digits, or a plus sign and one digit. Anything else
   * is an error, and the escape then contributes no byte.
   */
  function RadixPair(h1: char, h2: char): Option<byte> {
    match (Hex.DigitValue(h1), Hex.DigitValue(h2))
    case (Some(h), Some(l)) => Some(Hex.PairValue(h, l))
    case (None, Some(l)) => if h1 == '+' then Some(l) else None
    case _ => None
  }

  /** What one escape sequence stands for; `s` begins after the backslash. */
  function EscapeBytes(s: string): seq<byte> {
    if s == "" then [0x5C]
    else if s[0] == 'x' then
      match RadixPair(CharAt(s, 1, '0'), CharAt(s, 2, '0'))
      case Some(b) => [b]
      case None => []
    else if s[0] == '0' then [0]
    else if s[0] == 'n' then [0x0A]
    else if s[0] == 'r' then [0x0D]
    else if s[0] == 't' then [0x09]
    else if s[0] == '\\' then [0x5C]
    else [0x5C, CharToByte(s[0])]
  }

  /** How many characters the escape sequence uses up, after the backslash. */
  function EscapeLength(s: string): (n: nat)
    ensures n <= |s|
  {
    if s == "" then 0
    else if s[0] == 'x' then if |s| < 3 then |s| else 3
    else 1
  }

  function Unescape(s: string): seq<byte> {
    if s == "" then []
    else if s[0] == '\\' then EscapeBytes(s[1..]) + Unescape(s[1 + EscapeLength(s[1..])..])
    else [CharToByte(s[0])] + Unescape(s[1..])
  }

  /** The inner match: reads the characters of one escape sequence from `from` on. */
  method ReadEscape(input: string, from: nat) returns (bytes: seq<byte>, next: nat)
    requires from <= |input|
    ensures bytes == EscapeBytes(input[from..])
    ensures next == from + EscapeLength(input[from..])
  {
    if from == |input| {
      return [0x5C], from;
    }
    var e := input[from];
    next := from + 1;
    bytes := [];
    if e == 'x' {
      var h1 := CharAt(input, next, '0');
      next := if next < |input| then next + 1 else next;
      var h2 := CharAt(input, next, '0');
      next := if next < |input| then next + 1 else next;
      var b := RadixPair(h1, h2);
      if b.Some? {
        bytes := [b.value];
      }
    } else if e == '0' {
      bytes := [0];
    } else if e == 'n' {
      bytes := [0x0A];
    } else if e == 'r' {
      bytes := [0x0D];
    } else if e == 't' {
      bytes := [0x09];
    } else if e == '\\' {
      bytes := [0x5C];
    } else {
      bytes := [0x5C, CharToByte(e)];
    }
  }

  lemma UnescapeNext(s: string, i: nat)
    requires i < |s|
    ensures s[i] == '\\' ==>
              && i + 1 + EscapeLength(s[i + 1..]) <= |s|
              && Unescape(s[i..]) == EscapeBytes(s[i + 1..]) + Unescape(s[i + 1 + EscapeLength(s[i + 1..])..])
    ensures s[i] != '\\' ==> Unescape(s[i..]) == [CharToByte(s[i])] + Unescape(s[i + 1..])
  {
    var rest := s[i..];
    assert rest[1..] == s[i + 1..];
    assert rest[1 + EscapeLength(rest[1..])..] == s[i + 1 + EscapeLength(s[i + 1..])..];
  }

  /** The loop over the characters: one cursor, advanced by every `next()`. */
  method UnescapeAscii(input: string) returns (bytes: seq<byte>)
    ensures bytes == Unescape(input)
  {
    hide EscapeBytes, EscapeLength, Unescape, CharToByte;
    bytes := [];
    var i := 0;
    assert input[0..] == input;
    while i < |input|
      invariant i <= |input|
      invariant bytes + Unescape(input[i..]) == Unescape(input)
      decreases |input| - i
    {
      UnescapeNext(input, i);
      var c := input[i];
      if c == '\\' {
        var escaped, next := ReadEscape(input, i + 1);
        assert bytes + (escaped + Unescape(input[next..])) == (bytes + escaped) + Unescape(input[next..]);
        bytes := bytes + escaped;
        i := next;
      } else {
        bytes := bytes + [CharToByte(c)];
        i := i + 1;
      }
    }
    UnescapeEmpty(input[i..]);
  }

  lemma UnescapeEmpty(s: string)
    requires s == ""
    ensures Unescape(s) == []
  {
  }

  // ----- Round trip -----

  /** Printable ASCII other than the backslash is written as itself, every other byte as `\xHH`. */
  function EscapeByte(b: byte): string {
    if 0x20 <= b <= 0x7E && b != 0x5C then [(b as nat) as char]
    else ['\\', 'x', Hex.HexDigit(b >> 4), Hex.HexDigit(b & 0xF)]
  }

  function Escape(bytes: seq<byte>): string {
    if bytes == [] then "" else EscapeByte(bytes[0]) + Escape(bytes[1..])
  }

  lemma LiteralIsNotBackslash(b: byte)
    requires b != 0x5C
    ensures b as nat != 0x5C
  {
    assert (b as nat) as byte == b;
  }

  lemma UnescapeByte(b: byte, rest: string)
    ensures Unescape(EscapeByte(b) + rest) == [b] + Unescape(rest)
  {
    var s := EscapeByte(b) + rest;
    if 0x20 <= b <= 0x7E && b != 0x5C {
      ByteOfItself(b);
      LiteralIsNotBackslash(b);
      assert s[1..] == rest;
    } else {
      Hex.DigitRoundTrip(b >> 4);
      Hex.DigitRoundTrip(b & 0xF);
      Hex.PairRoundTrip(b);
      assert s[1..] == ['x', Hex.HexDigit(b >> 4), Hex.HexDigit(b & 0xF)] + rest;
      assert s[4..] == rest;
    }
  }

  /** Writing a byte string in escaped text and reading it back returns it. */
  lemma {:induction false} EscapeRoundTrip(bytes: seq<byte>)
    ensures Unescape(Escape(bytes)) == bytes
  {
    if bytes != [] {
      EscapeRoundTrip(bytes[1..]);
      UnescapeByte(bytes[0], Escape(bytes[1..]));
      assert bytes == [bytes[0]] + bytes[1..];
    }
  }

  /** A text that is one escape sequence stands for what the sequence stands for. */
  lemma UnescapeOne(s: string, text: string)
    requires EscapeLength(s) == |s| && text == ['\\'] + s
    ensures Unescape(text) == EscapeBytes(s)
  {
    hide EscapeBytes;
    assert text[1..] == s;
    assert text[1 + |s|..] == "";
    assert Unescape("") == [];
  }

  /** The escapes, one by one: an unknown one stands for itself, and so does a lone backslash. */
  lemma EscapeTable()
    ensures Unescape("\\0") == [0] && Unescape("\\n") == [10] && Unescape("\\r") == [13] && Unescape("\\t") == [9]
    ensures Unescape("\\\\") == [0x5C] && Unescape("\\") == [0x5C]
    ensures Unescape("\\q") == [0x5C, CharToByte('q')]
  {
    hide Unescape, CharToByte, RadixPair, CharAt;
    UnescapeOne("0", "\\0");
    UnescapeOne("n", "\\n");
    UnescapeOne("r", "\\r");
    UnescapeOne("t", "\\t");
    UnescapeOne("\\", "\\\\");
    UnescapeOne("", "\\");
    UnescapeOne("q", "\\q");
  }

  lemma RadixPairs()
    ensures RadixPair('4', '0') == Some(0x40) && RadixPair('+', '5') == Some(5) && RadixPair('g', '1') == None
  {
  }

  /** A hex escape cut short is filled up with zeros, may carry a plus sign, and is dropped if malformed. */
  lemma HexEscapes()
    ensures Unescape("\\x4") == [0x40] && Unescape("\\x+5") == [5] && Unescape("\\xg1") == []
  {
    hide Unescape, CharToByte, RadixPair;
    RadixPairs();
    UnescapeOne("x4", "\\x4");
    UnescapeOne("x+5", "\\x+5");
    UnescapeOne("xg1", "\\xg1");
  }

  // ----- Definitions -----

  datatype MagicDef = MagicDef(offset: nat, bytesAscii: Option<string>, bytesHex: Option<string>)
  {
    /** The hex form has priority; without either form the definition is invalid. */
    function ExpectedBytes(): Result<seq<byte>, GrammarError> {
      MagicBytes(bytesHex, bytesAscii)
    }
  }

  datatype DetectionRule = DetectionRule(offset: nat, magicAscii: Option<string>, magicHex: Option<string>)
  {
    function ExpectedBytes(): Result<seq<byte>, GrammarError> {
      MagicBytes(magicHex, magicAscii)
    }
  }

  function MagicBytes(hexForm: Option<string>, asciiForm: Option<string>): Result<seq<byte>, GrammarError> {
    if hexForm.Some? then
      match Hex.Decode(hexForm.value)
      case Some(bytes) => Success(bytes)
      case None => Failure(InvalidMagicRule)
    else if asciiForm.Some? then Success(Unescape(asciiForm.value))
    else Failure(InvalidMagicRule)
  }

  /** Without either form, or with text that is not hex, there are no magic bytes. */
  lemma NoMagicBytes(offset: nat, text: string, other: Option<string>)
    ensures MagicDef(offset, None, None).ExpectedBytes() == Failure(InvalidMagicRule)
    ensures DetectionRule(offset, None, None).ExpectedBytes() == Failure(InvalidMagicRule)
    ensures Hex.Decode(text) == None ==>
              && MagicDef(offset, other, Some(text)).ExpectedBytes() == Failure(InvalidMagicRule)
              && DetectionRule(offset, other, Some(text)).ExpectedBytes() == Failure(InvalidMagicRule)
  {
  }

  /** The hex form and the escaped form of a byte string denote the same bytes, in magics and in rules. */
  lemma MagicFormsAgree(offset: nat, bytes: seq<byte>, other: Option<string>)
    ensures MagicDef(offset, Some(Escape(bytes)), None).ExpectedBytes() == Success(bytes)
    ensures MagicDef(offset, other, Some(Hex.Encode(bytes))).ExpectedBytes() == Success(bytes)
    ensures DetectionRule(offset, Some(Escape(bytes)), None).ExpectedBytes() == Success(bytes)
    ensures DetectionRule(offset, other, Some(Hex.Encode(bytes))).ExpectedBytes() == Success(bytes)
  {
    EscapeRoundTrip(bytes);
    Hex.RoundTrip(bytes);
  }

  datatype FieldDef = FieldDef(
    fieldType: string,
    offset: nat,
    endian: Option<string>,
    role: Option<string>,
    encoding: Option<string>,
    timezone: Option<string>,
    flagMasks: Option<map<string, bv32>>)

  datatype VideoBlockDef = VideoBlockDef(
    headerSize: nat,
    magic: MagicDef,
    fields: seq<FieldDef>,
    payloadOffset: nat,
    defaultLength: nat)

  /** The parts of a grammar file that interpreting a block uses. */
  datatype GrammarFile = GrammarFile(
    superblockMagic: Option<MagicDef>,
    partitionTableMagic: Option<MagicDef>,
    videoBlock: VideoBlockDef)
}
