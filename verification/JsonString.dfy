/** Strings of the event stream: JSON escapes decoded to UTF-8, and records sent as hexadecimal
    digits. */
module JsonString {
  import opened Codec
  import opened LogFile

  const QUOTE: Byte := 0x22
  const BACKSLASH: Byte := 0x5C
  const LETTER_U: Byte := 0x75

  /** The value of a digit, or -1. */
  function HexValue(c: Byte): int {
    if 0x30 <= c <= 0x39 then c - 0x30
    else if 0x61 <= c <= 0x66 then c - 0x61 + 10
    else if 0x41 <= c <= 0x46 then c - 0x41 + 10
    else -1
  }

  /** A C string ends in a zero byte. */
  function Peek(s: seq<Byte>, i: nat): Byte {
    if i < |s| then s[i] else 0
  }

  /** The value of four hexadecimal digits, or -1 if they are not all there. */
  function CodeUnit(s: seq<Byte>, i: nat): (u: int)
    ensures -1 <= u < 0x10000
  {
    var h0, h1, h2, h3 := HexValue(Peek(s, i)), HexValue(Peek(s, i + 1)), HexValue(Peek(s, i + 2)),
      HexValue(Peek(s, i + 3));
    if h0 < 0 || h1 < 0 || h2 < 0 || h3 < 0 then -1 else h0 * 0x1000 + h1 * 0x100 + h2 * 0x10 + h3
  }

  // ---------------------------------------------------------------------------
  // UTF-8
  // ---------------------------------------------------------------------------

  predicate IsScalar(cp: int) {
    0 <= cp < 0xD800 || 0xE000 <= cp < 0x110000
  }

  type CodePoint = cp: int | 0 <= cp < 0x110000

  /** The bytes written for a code point; surrogates are not singled out. */
  function Utf8(cp: CodePoint): seq<Byte> {
    if cp < 0x80 then [cp]
    else if cp < 0x800 then [0xC0 + cp / 64, 0x80 + cp % 64]
    else if cp < 0x10000 then [0xE0 + cp / 4096, 0x80 + cp / 64 % 64, 0x80 + cp % 64]
    else [0xF0 + cp / 262144, 0x80 + cp / 4096 % 64, 0x80 + cp / 64 % 64, 0x80 + cp % 64]
  }

  function Utf8All(cps: seq<CodePoint>): seq<Byte> {
    if cps == [] then [] else Utf8(cps[0]) + Utf8All(cps[1..])
  }

  predicate Tail(b: Byte) { 0x80 <= b <= 0xBF }

  /** The well-formed byte sequences of one character: the grammar of section 4 of RFC 3629. */
  predicate WellFormed(b: seq<Byte>) {
    || (|b| == 1 && b[0] <= 0x7F)
    || (|b| == 2 && 0xC2 <= b[0] <= 0xDF && Tail(b[1]))
    || (|b| == 3 && ThreeBytes(b[0], b[1], b[2]))
    || (|b| == 4 && FourBytes(b[0], b[1], b[2], b[3]))
  }

  predicate ThreeBytes(b0: Byte, b1: Byte, b2: Byte) {
    && Tail(b2)
    && (|| (b0 == 0xE0 && 0xA0 <= b1 <= 0xBF)
        || (0xE1 <= b0 <= 0xEC && Tail(b1))
        || (b0 == 0xED && 0x80 <= b1 <= 0x9F)
        || (0xEE <= b0 <= 0xEF && Tail(b1)))
  }

  predicate FourBytes(b0: Byte, b1: Byte, b2: Byte, b3: Byte) {
    && Tail(b2) && Tail(b3)
    && (|| (b0 == 0xF0 && 0x90 <= b1 <= 0xBF)
        || (0xF1 <= b0 <= 0xF3 && Tail(b1))
        || (b0 == 0xF4 && 0x80 <= b1 <= 0x8F))
  }

  /** The payload bits put back together. */
  function CharValue(b: seq<Byte>): int
    requires WellFormed(b)
  {
    if |b| == 1 then b[0]
    else if |b| == 2 then Join(b[0] as int - 0xC0, b[1])
    else if |b| == 3 then Join(Join(b[0] as int - 0xE0, b[1]), b[2])
    else Join(Join(Join(b[0] as int - 0xF0, b[1]), b[2]), b[3])
  }

  /** Six more bits. */
  function Join(high: int, tail: Byte): int {
    high * 64 + (tail as int - 0x80)
  }

  lemma Two(cp: int)
    requires 0x80 <= cp < 0x800
    ensures 0xC2 <= 0xC0 + cp / 64 <= 0xDF && Join(cp / 64, 0x80 + cp % 64) == cp
  {
  }

  lemma Three(cp: int)
    requires 0x800 <= cp < 0x10000 && IsScalar(cp)
    ensures 0xE0 + cp / 4096 < 256
    ensures ThreeBytes(0xE0 + cp / 4096, 0x80 + cp / 64 % 64, 0x80 + cp % 64)
    ensures Join(Join(cp / 4096, 0x80 + cp / 64 % 64), 0x80 + cp % 64) == cp
  {
    assert cp / 64 / 64 == cp / 4096;
  }

  lemma Four(cp: int)
    requires 0x10000 <= cp < 0x110000
    ensures 0xF0 + cp / 262144 < 256
    ensures FourBytes(0xF0 + cp / 262144, 0x80 + cp / 4096 % 64, 0x80 + cp / 64 % 64, 0x80 + cp % 64)
    ensures Join(Join(Join(cp / 262144, 0x80 + cp / 4096 % 64), 0x80 + cp / 64 % 64), 0x80 + cp % 64) == cp
  {
    assert cp / 64 / 64 == cp / 4096 && cp / 4096 / 64 == cp / 262144;
  }

  /** The bytes of a scalar value are well formed and stand for it. */
  lemma Utf8IsWellFormed(cp: CodePoint)
    requires IsScalar(cp)
    ensures WellFormed(Utf8(cp)) && CharValue(Utf8(cp)) == cp
  {
    if cp < 0x80 {
    } else if cp < 0x800 {
      Two(cp);
    } else if cp < 0x10000 {
      Three(cp);
    } else {
      Four(cp);
    }
  }

  lemma JoinParts(high: int, tail: Byte)
    requires Tail(tail)
    ensures Join(high, tail) / 64 == high && Join(high, tail) % 64 == tail as int - 0x80
  {
  }

  lemma TwoAreUnique(b0: Byte, b1: Byte)
    requires 0xC2 <= b0 <= 0xDF && Tail(b1)
    ensures var cp := Join(b0 as int - 0xC0, b1);
            0x80 <= cp < 0x800 && b0 == 0xC0 + cp / 64 && b1 == 0x80 + cp % 64
  {
    JoinParts(b0 as int - 0xC0, b1);
  }

  lemma ThreeIsUnique(b0: Byte, b1: Byte, b2: Byte)
    requires ThreeBytes(b0, b1, b2)
    ensures var cp := Join(Join(b0 as int - 0xE0, b1), b2);
            && 0x800 <= cp < 0x10000 && IsScalar(cp)
            && b0 == 0xE0 + cp / 4096 && b1 == 0x80 + cp / 64 % 64 && b2 == 0x80 + cp % 64
  {
    JoinParts(b0 as int - 0xE0, b1);
    JoinParts(Join(b0 as int - 0xE0, b1), b2);
    var cp := Join(Join(b0 as int - 0xE0, b1), b2);
    assert cp / 64 / 64 == cp / 4096;
  }

  lemma FourIsUnique(b0: Byte, b1: Byte, b2: Byte, b3: Byte)
    requires FourBytes(b0, b1, b2, b3)
    ensures var cp := Join(Join(Join(b0 as int - 0xF0, b1), b2), b3);
            && 0x10000 <= cp < 0x110000
            && b0 == 0xF0 + cp / 262144 && b1 == 0x80 + cp / 4096 % 64
            && b2 == 0x80 + cp / 64 % 64 && b3 == 0x80 + cp % 64
  {
    var high := Join(b0 as int - 0xF0, b1);
    JoinParts(b0 as int - 0xF0, b1);
    JoinParts(high, b2);
    JoinParts(Join(high, b2), b3);
    var cp := Join(Join(high, b2), b3);
    assert cp / 64 / 64 == cp / 4096 && cp / 4096 / 64 == cp / 262144;
  }

  /** And no other bytes do. */
  lemma Utf8IsUnique(b: seq<Byte>)
    requires WellFormed(b)
    ensures IsScalar(CharValue(b)) && b == Utf8(CharValue(b))
  {
    if |b| == 2 {
      TwoAreUnique(b[0], b[1]);
    } else if |b| == 3 {
      ThreeIsUnique(b[0], b[1], b[2]);
    } else if |b| == 4 {
      FourIsUnique(b[0], b[1], b[2], b[3]);
    }
  }

  // ---------------------------------------------------------------------------
  // Decoding
  // ---------------------------------------------------------------------------

  /** What one step of the decoder writes, and how far it moves on. */
  datatype Piece = Piece(bytes: seq<Byte>, used: nat)

  function Unescaped(c: Byte): Byte {
    if c == 0x62 then 0x08
    else if c == 0x66 then 0x0C
    else if c == 0x6E then 0x0A
    else if c == 0x72 then 0x0D
    else if c == 0x74 then 0x09
    else c
  }

  predicate IsHigh(u: int) { 0xD800 <= u <= 0xDBFF }

  predicate IsLow(u: int) { 0xDC00 <= u <= 0xDFFF }

  function Paired(high: int, low: int): (cp: CodePoint)
    requires IsHigh(high) && IsLow(low)
    ensures 0x10000 <= cp
  {
    0x10000 + (high - 0xD800) * 0x400 + (low - 0xDC00)
  }

  /** A backslash, a u and what follows: the letter alone if no four digits do, and two escapes
      at once if they are a surrogate pair. */
  function UnicodePiece(s: seq<Byte>): Piece {
    var u := CodeUnit(s, 2);
    if u < 0 then Piece([LETTER_U], 2)
    else if IsHigh(u) && Peek(s, 6) == BACKSLASH && Peek(s, 7) == LETTER_U && IsLow(CodeUnit(s, 8)) then
      Piece(Utf8(Paired(u, CodeUnit(s, 8))), 12)
    else Piece(Utf8(u), 6)
  }

  function Token(s: seq<Byte>): Piece
    requires s != []
  {
    if s[0] == BACKSLASH && Peek(s, 1) != 0 then
      if Peek(s, 1) == LETTER_U then UnicodePiece(s) else Piece([Unescaped(Peek(s, 1))], 2)
    else Piece([s[0]], 1)
  }

  /** Examples of section 7 of RFC 3629: one character of two, two of three and one of four bytes. */
  lemma KnownUtf8()
    ensures Utf8(0x391) == [0xCE, 0x91]
    ensures Utf8(0x2262) == [0xE2, 0x89, 0xA2] && Utf8(0xD55C) == [0xED, 0x95, 0x9C]
    ensures Utf8(0x233B4) == [0xF0, 0xA3, 0x8E, 0xB4]
  {
  }

  /** The escapes of section 7 of RFC 8259: the letters b, f, n, r and t, and three characters that stand
      for themselves. */
  lemma KnownEscapes(rest: seq<Byte>)
    ensures Token([0x5C, 0x62] + rest) == Piece([0x08], 2) && Token([0x5C, 0x66] + rest) == Piece([0x0C], 2)
    ensures Token([0x5C, 0x6E] + rest) == Piece([0x0A], 2) && Token([0x5C, 0x72] + rest) == Piece([0x0D], 2)
    ensures Token([0x5C, 0x74] + rest) == Piece([0x09], 2) && Token([0x5C, 0x22] + rest) == Piece([0x22], 2)
    ensures Token([0x5C, 0x5C] + rest) == Piece([0x5C], 2) && Token([0x5C, 0x2F] + rest) == Piece([0x2F], 2)
  {
  }

  /** Its example of a surrogate pair, the G clef. */
  lemma KnownPair(s: seq<Byte>)
    requires [0x5C, 0x75, 0x44, 0x38, 0x33, 0x34, 0x5C, 0x75, 0x44, 0x44, 0x31, 0x45] <= s
    ensures Token(s) == Piece([0xF0, 0x9D, 0x84, 0x9E], 12)
  {
    assert CodeUnit(s, 2) == 0xD834 && CodeUnit(s, 8) == 0xDD1E;
  }

  lemma DigitsAreThere(s: seq<Byte>, i: nat)
    requires 0 <= CodeUnit(s, i)
    ensures i + 4 <= |s|
  {
    assert HexValue(Peek(s, i + 3)) >= 0;
  }

  /** No step writes more than it has read. */
  lemma TokenShrinks(s: seq<Byte>)
    requires s != []
    ensures 0 < Token(s).used <= |s| && |Token(s).bytes| <= Token(s).used
  {
    if 0 <= CodeUnit(s, 2) {
      DigitsAreThere(s, 2);
    }
    if IsLow(CodeUnit(s, 8)) {
      DigitsAreThere(s, 8);
    }
  }

  /** The bytes up to the closing quote, or to the end of the line, decoded. */
  function Decode(s: seq<Byte>): seq<Byte>
    decreases |s|
  {
    if s == [] || s[0] == QUOTE then []
    else
      TokenShrinks(s);
      Token(s).bytes + Decode(s[Token(s).used..])
  }

  method PutUtf8(out: array<Byte>, n: nat, cp: CodePoint) returns (n': nat)
    requires n + |Utf8(cp)| <= out.Length
    modifies out
    ensures n' == n + |Utf8(cp)| && out[..n'] == old(out[..n]) + Utf8(cp)
  {
    if cp < 0x80 {
      out[n] := cp;
      n' := n + 1;
    } else if cp < 0x800 {
      out[n] := 0xC0 + cp / 64;
      out[n + 1] := 0x80 + cp % 64;
      n' := n + 2;
    } else if cp < 0x10000 {
      out[n] := 0xE0 + cp / 4096;
      out[n + 1] := 0x80 + cp / 64 % 64;
      out[n + 2] := 0x80 + cp % 64;
      n' := n + 3;
    } else {
      out[n] := 0xF0 + cp / 262144;
      out[n + 1] := 0x80 + cp / 4096 % 64;
      out[n + 2] := 0x80 + cp / 64 % 64;
      out[n + 3] := 0x80 + cp % 64;
      n' := n + 4;
    }
  }

  /** What a backslash and a u at `k` stand for, by positions in the whole string. */
  lemma PieceAt(s: seq<Byte>, k: nat)
    requires k + 1 < |s| && s[k] == BACKSLASH && s[k + 1] == LETTER_U
    ensures var u, low := CodeUnit(s, k + 2), CodeUnit(s, k + 8);
      Token(s[k..]) ==
        if u < 0 then Piece([LETTER_U], 2)
        else if IsHigh(u) && Peek(s, k + 6) == BACKSLASH && Peek(s, k + 7) == LETTER_U && IsLow(low) then
          Piece(Utf8(Paired(u, low)), 12)
        else Piece(Utf8(u), 6)
  {
    UnitsOfRest(s, k);
    assert Peek(s[k..], 1) == LETTER_U;
  }

  /** The case for a u after a backslash, p being at the u. */
  method UnicodeEscape(s: seq<Byte>, p: nat, out: array<Byte>, n: nat) returns (p': nat, n': nat)
    requires 0 < p < |s| && s[p - 1] == BACKSLASH && s[p] == LETTER_U
    requires n <= p - 1 && out.Length == |s| + 1
    modifies out
    ensures p' == p - 1 + Token(s[p - 1..]).used && n' <= p' <= |s|
    ensures out[..n'] == old(out[..n]) + Token(s[p - 1..]).bytes
  {
    TokenShrinks(s[p - 1..]);
    PieceAt(s, p - 1);
    p' := p;
    var u := CodeUnit(s, p + 1);
    if u >= 0 {
      p' := p' + 4;
      var low := CodeUnit(s, p + 7);
      if IsHigh(u) && Peek(s, p' + 1) == BACKSLASH && Peek(s, p' + 2) == LETTER_U && IsLow(low) {
        p' := p' + 6;
        n' := PutUtf8(out, n, Paired(u, low));
      } else {
        n' := PutUtf8(out, n, u);
      }
    } else {
      out[n] := s[p];
      n' := n + 1;
    }
    p' := p' + 1;
  }

  lemma UnitsOfRest(s: seq<Byte>, k: nat)
    requires k <= |s|
    ensures forall i: nat :: Peek(s[k..], i) == Peek(s, k + i)
    ensures CodeUnit(s[k..], 2) == CodeUnit(s, k + 2) && CodeUnit(s[k..], 8) == CodeUnit(s, k + 8)
  {
  }

  method DecodeOne(s: seq<Byte>, p: nat, out: array<Byte>, n: nat) returns (p': nat, n': nat)
    requires n <= p < |s| && out.Length == |s| + 1
    modifies out
    ensures p' == p + Token(s[p..]).used && n' <= p' <= |s|
    ensures out[..n'] == old(out[..n]) + Token(s[p..]).bytes
  {
    UnitsOfRest(s, p);
    p', n' := p, n;
    if s[p] == BACKSLASH && Peek(s, p + 1) != 0 {
      p' := p' + 1;
      if s[p'] == LETTER_U {
        p', n' := UnicodeEscape(s, p', out, n);
        return;
      }
      out[n] := Unescaped(s[p']);
    } else {
      out[n] := s[p];
    }
    n' := n + 1;
    p' := p' + 1;
  }

  lemma DecodeSplits(s: seq<Byte>, p: nat)
    requires p < |s| && s[p] != QUOTE
    ensures 0 < Token(s[p..]).used && p + Token(s[p..]).used <= |s|
    ensures Decode(s[p..]) == Token(s[p..]).bytes + Decode(s[p + Token(s[p..]).used..])
  {
    TokenShrinks(s[p..]);
    assert s[p..][Token(s[p..]).used..] == s[p + Token(s[p..]).used..];
  }

  ghost predicate SoFar(s: seq<Byte>, p: nat, out: seq<Byte>)
    requires p <= |s|
  {
    out + Decode(s[p..]) == Decode(s)
  }

  lemma SoFarGrows(s: seq<Byte>, p: nat, out: seq<Byte>)
    requires p < |s| && s[p] != QUOTE && SoFar(s, p, out)
    ensures 0 < Token(s[p..]).used && p + Token(s[p..]).used <= |s|
    ensures SoFar(s, p + Token(s[p..]).used, out + Token(s[p..]).bytes)
  {
    DecodeSplits(s, p);
    Regroup(out, Token(s[p..]).bytes, Decode(s[p + Token(s[p..]).used..]));
  }

  lemma SoFarEnds(s: seq<Byte>, p: nat, out: seq<Byte>)
    requires p <= |s| && SoFar(s, p, out)
    ensures p == |s| || s[p] == QUOTE ==> out == Decode(s)
  {
    if p == |s| || s[p] == QUOTE {
      assert Decode(s[p..]) == [];
    }
  }

  lemma Regroup(a: seq<Byte>, b: seq<Byte>, c: seq<Byte>)
    ensures (a + b) + c == a + (b + c)
  {
  }

  /** The loop over a string's bytes, s being what follows the opening quote. Its buffer, one
      byte longer than what is left of the line, always suffices. */
  method GetString(s: seq<Byte>) returns (out: array<Byte>, n: nat)
    requires 0 !in s
    ensures fresh(out) && n < out.Length == |s| + 1
    ensures out[..n] == Decode(s) && out[n] == 0
  {
    out := new Byte[|s| + 1];
    n := 0;
    var p := 0;
    assert s[0..] == s;
    while p < |s| && s[p] != QUOTE
      invariant n <= p <= |s|
      invariant SoFar(s, p, out[..n])
    {
      SoFarGrows(s, p, out[..n]);
      p, n := DecodeOne(s, p, out, n);
    }
    SoFarEnds(s, p, out[..n]);
    out[n] := 0;
  }

  // ---------------------------------------------------------------------------
  // Escaping
  // ---------------------------------------------------------------------------

  /** How a producer may write a character in ASCII (section 7 of RFC 8259): as it is, with a
      two-character escape, or with the hexadecimal digits of its UTF-16 code, each digit in
      either case. */
  datatype Form = Raw | Short | Hex(upper: seq<bool>)

  predicate Allowed(cp: CodePoint, form: Form) {
    match form
    case Raw => 0x20 <= cp < 0x80 && cp != QUOTE && cp != BACKSLASH
    case Short => cp == QUOTE || cp == BACKSLASH || cp == 0x2F || cp == 0x08 || cp == 0x0C || cp == 0x0A ||
      cp == 0x0D || cp == 0x09
    case Hex(upper) => |upper| == 8
  }

  function ShortLetter(cp: CodePoint): Byte
    requires Allowed(cp, Short)
  {
    if cp == 0x08 then 0x62
    else if cp == 0x0C then 0x66
    else if cp == 0x0A then 0x6E
    else if cp == 0x0D then 0x72
    else if cp == 0x09 then 0x74
    else cp
  }

  function HexDigit(v: nat, upper: bool): Byte
    requires v < 16
  {
    if v < 10 then 0x30 + v else if upper then 0x41 + v - 10 else 0x61 + v - 10
  }

  function UnitEscape(u: nat, c0: bool, c1: bool, c2: bool, c3: bool): seq<Byte>
    requires u < 0x10000
  {
    [BACKSLASH, LETTER_U, HexDigit(u / 0x1000, c0), HexDigit(u / 0x100 % 16, c1), HexDigit(u / 0x10 % 16, c2),
      HexDigit(u % 16, c3)]
  }

  function HighOf(cp: CodePoint): nat
    requires 0x10000 <= cp
  {
    0xD800 + (cp - 0x10000) / 0x400
  }

  function LowOf(cp: CodePoint): nat
    requires 0x10000 <= cp
  {
    0xDC00 + (cp - 0x10000) % 0x400
  }

  function Escaped(cp: CodePoint, form: Form): seq<Byte>
    requires Allowed(cp, form)
  {
    match form
    case Raw => [cp]
    case Short => [BACKSLASH, ShortLetter(cp)]
    case Hex(upper) =>
      if cp < 0x10000 then UnitEscape(cp, upper[0], upper[1], upper[2], upper[3])
      else
        UnitEscape(HighOf(cp), upper[0], upper[1], upper[2], upper[3]) +
        UnitEscape(LowOf(cp), upper[4], upper[5], upper[6], upper[7])
  }

  ghost predicate AllAllowed(cps: seq<CodePoint>, forms: seq<Form>) {
    |cps| == |forms| && forall i :: 0 <= i < |cps| ==> IsScalar(cps[i]) && Allowed(cps[i], forms[i])
  }

  function EscapedAll(cps: seq<CodePoint>, forms: seq<Form>): seq<Byte>
    requires AllAllowed(cps, forms)
  {
    if cps == [] then [] else Escaped(cps[0], forms[0]) + EscapedAll(cps[1..], forms[1..])
  }

  lemma DigitRead(v: nat, upper: bool)
    requires v < 16
    ensures HexValue(HexDigit(v, upper)) == v
  {
  }

  lemma UnitRead(u: nat, c0: bool, c1: bool, c2: bool, c3: bool, s: seq<Byte>, i: nat)
    requires u < 0x10000 && i + 6 <= |s| && s[i..i + 6] == UnitEscape(u, c0, c1, c2, c3)
    ensures Peek(s, i) == BACKSLASH && Peek(s, i + 1) == LETTER_U && CodeUnit(s, i + 2) == u
  {
    var e := UnitEscape(u, c0, c1, c2, c3);
    var h0, h1, h2, h3 := u / 0x1000, u / 0x100 % 16, u / 0x10 % 16, u % 16;
    assert Peek(s, i) == e[0] && Peek(s, i + 1) == e[1];
    assert Peek(s, i + 2) == HexDigit(h0, c0) && Peek(s, i + 3) == HexDigit(h1, c1);
    assert Peek(s, i + 4) == HexDigit(h2, c2) && Peek(s, i + 5) == HexDigit(h3, c3);
    DigitRead(h0, c0);
    DigitRead(h1, c1);
    DigitRead(h2, c2);
    DigitRead(h3, c3);
    UnitDigits(u);
  }

  lemma UnitDigits(u: nat)
    requires u < 0x10000
    ensures u == u / 0x1000 * 0x1000 + u / 0x100 % 16 * 0x100 + u / 0x10 % 16 * 0x10 + u % 16
  {
    assert u / 0x10 / 16 == u / 0x100 && u / 0x100 / 16 == u / 0x1000;
  }

  lemma PairRead(cp: CodePoint)
    requires 0x10000 <= cp
    ensures IsHigh(HighOf(cp)) && IsLow(LowOf(cp)) && Paired(HighOf(cp), LowOf(cp)) == cp
  {
  }

  lemma PairEscapeRead(cp: CodePoint, upper: seq<bool>, rest: seq<Byte>)
    requires 0x10000 <= cp && |upper| == 8
    ensures var s := Escaped(cp, Hex(upper)) + rest;
            s[0] != QUOTE && Token(s) == Piece(Utf8(cp), 12)
  {
    var e0 := UnitEscape(HighOf(cp), upper[0], upper[1], upper[2], upper[3]);
    var e1 := UnitEscape(LowOf(cp), upper[4], upper[5], upper[6], upper[7]);
    var s := e0 + e1 + rest;
    assert s[0..6] == e0 && s[6..12] == e1;
    UnitRead(HighOf(cp), upper[0], upper[1], upper[2], upper[3], s, 0);
    UnitRead(LowOf(cp), upper[4], upper[5], upper[6], upper[7], s, 6);
    PairRead(cp);
  }

  /** The decoder takes up exactly one escaped character and writes its UTF-8 form. */
  lemma EscapeRead(cp: CodePoint, form: Form, rest: seq<Byte>)
    requires IsScalar(cp) && Allowed(cp, form)
    ensures var s := Escaped(cp, form) + rest;
            s[0] != QUOTE && Token(s) == Piece(Utf8(cp), |Escaped(cp, form)|)
  {
    var s := Escaped(cp, form) + rest;
    match form
    case Raw =>
    case Short =>
      assert Peek(s, 1) == ShortLetter(cp);
    case Hex(upper) =>
      if cp < 0x10000 {
        UnitRead(cp, upper[0], upper[1], upper[2], upper[3], s, 0);
      } else {
        PairEscapeRead(cp, upper, rest);
      }
  }

  /** Every string of Unicode scalar values, escaped in any of the permitted ways and decoded,
      comes out as its UTF-8 encoding. */
  lemma {:induction false} EscapedStringDecodes(cps: seq<CodePoint>, forms: seq<Form>, rest: seq<Byte>)
    requires AllAllowed(cps, forms)
    ensures Decode(EscapedAll(cps, forms) + [QUOTE] + rest) == Utf8All(cps)
  {
    var s := EscapedAll(cps, forms) + [QUOTE] + rest;
    if cps == [] {
      assert s[0] == QUOTE;
    } else {
      var tail := EscapedAll(cps[1..], forms[1..]) + [QUOTE] + rest;
      assert s == Escaped(cps[0], forms[0]) + tail;
      EscapeRead(cps[0], forms[0], tail);
      assert s[|Escaped(cps[0], forms[0])|..] == tail;
      EscapedStringDecodes(cps[1..], forms[1..], rest);
    }
  }

  /** What a C caller sees of the result: the bytes before the first zero byte. */
  function CString(b: seq<Byte>): seq<Byte> {
    if b == [] || b[0] == 0 then [] else [b[0]] + CString(b[1..])
  }

  lemma {:induction false} CStringCutsOff(a: seq<Byte>, b: seq<Byte>)
    requires 0 !in a
    ensures CString(a + [0] + b) == a
  {
    if a == [] {
      assert a + [0] + b == [0] + b;
    } else {
      assert (a + [0] + b)[1..] == a[1..] + [0] + b;
      CStringCutsOff(a[1..], b);
    }
  }

  lemma {:induction false} Utf8AllAppend(a: seq<CodePoint>, b: seq<CodePoint>)
    ensures Utf8All(a + b) == Utf8All(a) + Utf8All(b)
  {
    if a == [] {
      assert a + b == b;
    } else {
      assert (a + b)[1..] == a[1..] + b;
      Utf8AllAppend(a[1..], b);
    }
  }

  lemma {:induction false} CStringWhole(b: seq<Byte>)
    ensures CString(b) == b <==> 0 !in b
  {
    if b != [] {
      if b[0] != 0 {
        CStringWhole(b[1..]);
        assert b == [b[0]] + b[1..];
        if CString(b) == b {
          assert CString(b)[1..] == b[1..];
        }
      } else {
        assert 0 in b;
      }
    }
  }

  lemma {:induction false} ZeroByteIsNul(cps: seq<CodePoint>)
    ensures 0 in Utf8All(cps) <==> 0 in cps
  {
    if cps != [] {
      ZeroByteIsNul(cps[1..]);
      assert 0 in Utf8(cps[0]) <==> cps[0] == 0;
    }
  }

  /** The decoded name reaches the caller whole exactly if the string holds no U+0000. */
  lemma WholeIffNoNul(cps: seq<CodePoint>, forms: seq<Form>, rest: seq<Byte>)
    requires AllAllowed(cps, forms)
    ensures CString(Decode(EscapedAll(cps, forms) + [QUOTE] + rest)) == Utf8All(cps) <==> 0 !in cps
  {
    EscapedStringDecodes(cps, forms, rest);
    CStringWhole(Utf8All(cps));
    ZeroByteIsNul(cps);
  }

  /** It is cut off at the first U+0000, which is written as any other is: by its number. */
  lemma NulCutsOff(before: seq<CodePoint>, forms: seq<Form>, after: seq<CodePoint>, rest: seq<Byte>)
    requires 0 !in before && AllAllowed(before + [0] + after, forms)
    ensures CString(Decode(EscapedAll(before + [0] + after, forms) + [QUOTE] + rest)) == Utf8All(before)
  {
    var cps := before + [0] + after;
    EscapedStringDecodes(cps, forms, rest);
    Utf8AllAppend(before + [0], after);
    Utf8AllAppend(before, [0]);
    assert Utf8All([0]) == [0];
    ZeroByteIsNul(before);
    CStringCutsOff(Utf8All(before), Utf8All(after));
  }

  lemma WellFormedHasOneLength(a: seq<Byte>, b: seq<Byte>, r: seq<Byte>, t: seq<Byte>)
    requires WellFormed(a) && WellFormed(b) && a + r == b + t
    ensures a == b && r == t
  {
    assert a[0] == (a + r)[0] == b[0];
    assert |a| == |b|;
    assert a == (a + r)[..|a|] && r == (a + r)[|a|..];
    assert b == (b + t)[..|b|] && t == (b + t)[|b|..];
  }

  /** Different strings have different encodings. */
  lemma {:induction false} EncodingsDiffer(cps: seq<CodePoint>, dps: seq<CodePoint>)
    requires forall i :: 0 <= i < |cps| ==> IsScalar(cps[i])
    requires forall i :: 0 <= i < |dps| ==> IsScalar(dps[i])
    requires Utf8All(cps) == Utf8All(dps)
    ensures cps == dps
  {
    if cps != [] { Utf8IsWellFormed(cps[0]); }
    if dps != [] { Utf8IsWellFormed(dps[0]); }
    if cps != [] && dps != [] {
      WellFormedHasOneLength(Utf8(cps[0]), Utf8(dps[0]), Utf8All(cps[1..]), Utf8All(dps[1..]));
      EncodingsDiffer(cps[1..], dps[1..]);
      assert cps == [cps[0]] + cps[1..] && dps == [dps[0]] + dps[1..];
    }
  }

  // ---------------------------------------------------------------------------
  // Records in hexadecimal
  // ---------------------------------------------------------------------------

  predicate AllHex(hex: seq<Byte>) {
    forall i :: 0 <= i < |hex| ==> 0 <= HexValue(hex[i])
  }

  /** What a record of the expected size must look like; size zero means any. */
  predicate Decodable(hex: seq<Byte>, expected: nat) {
    |hex| % 2 == 0 && (expected > 0 ==> |hex| / 2 == expected) && AllHex(hex)
  }

  /** The bytes that pairs of digits stand for. */
  ghost predicate StandsFor(hex: seq<Byte>, bytes: seq<Byte>) {
    && |hex| == 2 * |bytes|
    && forall i :: 0 <= i < |bytes| ==> bytes[i] == HexValue(hex[2 * i]) * 16 + HexValue(hex[2 * i + 1])
  }

  method DecodeHex(hex: Option<seq<Byte>>, expected: nat) returns (r: Option<seq<Byte>>)
    ensures r.Some? <==> hex.Some? && Decodable(hex.value, expected)
    ensures r.Some? ==> StandsFor(hex.value, r.value)
  {
    if hex.None? { return None; }
    var digits := hex.value;
    if |digits| % 2 != 0 { return None; }
    var n := |digits| / 2;
    if expected > 0 && n != expected { return None; }
    var buf: seq<Byte> := [];
    for i := 0 to n
      invariant |buf| == i && AllHex(digits[..2 * i])
      invariant forall k :: 0 <= k < i ==> buf[k] == HexValue(digits[2 * k]) * 16 + HexValue(digits[2 * k + 1])
    {
      var hi, lo := HexValue(digits[2 * i]), HexValue(digits[2 * i + 1]);
      if hi < 0 || lo < 0 { return None; }
      assert digits[..2 * (i + 1)] == digits[..2 * i] + [digits[2 * i], digits[2 * i + 1]];
      buf := buf + [hi * 16 + lo];
    }
    assert digits[..2 * n] == digits;
    r := Some(buf);
  }

  /** A record written out in digits of either case. */
  ghost predicate WrittenAs(bytes: seq<Byte>, hex: seq<Byte>) {
    && |hex| == 2 * |bytes|
    && forall i :: 0 <= i < |bytes| ==>
         (exists c, d :: hex[2 * i] == HexDigit(bytes[i] / 16, c) && hex[2 * i + 1] == HexDigit(bytes[i] % 16, d))
  }

  /** A record written in hexadecimal is accepted exactly at the expected size, and decodes to
      itself and nothing else. */
  lemma HexRoundTrip(bytes: seq<Byte>, hex: seq<Byte>, expected: nat)
    requires WrittenAs(bytes, hex)
    ensures Decodable(hex, expected) <==> expected == 0 || expected == |bytes|
    ensures forall b :: StandsFor(hex, b) <==> b == bytes
  {
    forall i | 0 <= i < |bytes|
      ensures HexValue(hex[2 * i]) == bytes[i] / 16 && HexValue(hex[2 * i + 1]) == bytes[i] % 16
    {
      var c, d :| hex[2 * i] == HexDigit(bytes[i] / 16, c) && hex[2 * i + 1] == HexDigit(bytes[i] % 16, d);
      DigitRead(bytes[i] / 16, c);
      DigitRead(bytes[i] % 16, d);
    }
    forall k | 0 <= k < |hex| ensures 0 <= HexValue(hex[k]) {
      var i := k / 2;
      assert k == 2 * i || k == 2 * i + 1;
      assert HexValue(hex[2 * i]) == bytes[i] / 16;
    }
    assert StandsFor(hex, bytes);
    forall b | StandsFor(hex, b) ensures b == bytes {
      forall i | 0 <= i < |bytes| ensures b[i] == bytes[i] {
        assert HexValue(hex[2 * i]) == bytes[i] / 16;
      }
    }
  }
}
