/** The base64 encoding of section 4 of RFC 4648 (the standard alphabet, with
    `=` padding), as Node's `Buffer.prototype.toString("base64")` produces it. */
module Base64 {

  newtype byte = x: int | 0 <= x < 256

  /** A character of the 64-symbol alphabet (not the pad character). */
  predicate IsSymbol(c: char) {
    'A' <= c <= 'Z' || 'a' <= c <= 'z' || '0' <= c <= '9' || c == '+' || c == '/'
  }

  /** The value a symbol encodes (Table 1 of RFC 4648). */
  function Index(c: char): (k: nat)
    requires IsSymbol(c)
    ensures k < 64
  {
    if 'A' <= c <= 'Z' then c as int - 'A' as int
    else if 'a' <= c <= 'z' then c as int - 'a' as int + 26
    else if '0' <= c <= '9' then c as int - '0' as int + 52
    else if c == '+' then 62
    else 63
  }

  /** The symbol for a 6-bit value. */
  function Symbol(k: nat): (c: char)
    requires k < 64
    ensures IsSymbol(c)
  {
    if k < 26 then ('A' as int + k) as char
    else if k < 52 then ('a' as int + k - 26) as char
    else if k < 62 then ('0' as int + k - 52) as char
    else if k == 62 then '+'
    else '/'
  }

  /** `Index` inverts `Symbol`, and `Symbol` inverts `Index` on the alphabet. */
  lemma IndexSymbol(k: nat)
    requires k < 64
    ensures Index(Symbol(k)) == k
  {
  }

  lemma SymbolIndex(c: char)
    requires IsSymbol(c)
    ensures Symbol(Index(c)) == c
  {
  }

  /** A final group of one byte: two symbols and two pads. */
  function Group1(b0: byte): string {
    [Symbol(b0 as int / 4), Symbol((b0 as int % 4) * 16), '=', '=']
  }

  /** A final group of two bytes: three symbols and one pad. */
  function Group2(b0: byte, b1: byte): string {
    [Symbol(b0 as int / 4), Symbol((b0 as int % 4) * 16 + b1 as int / 16), Symbol((b1 as int % 16) * 4), '=']
  }

  /** A full group of three bytes: four symbols of six bits each. */
  function Group3(b0: byte, b1: byte, b2: byte): string {
    [Symbol(b0 as int / 4), Symbol((b0 as int % 4) * 16 + b1 as int / 16),
     Symbol((b1 as int % 16) * 4 + b2 as int / 64), Symbol(b2 as int % 64)]
  }

  /** Each group of three bytes becomes four symbols; a final group of one or two
      bytes becomes two or three symbols followed by `=` padding to four. */
  function Encode(b: seq<byte>): string {
    if |b| == 0 then []
    else if |b| == 1 then Group1(b[0])
    else if |b| == 2 then Group2(b[0], b[1])
    else Group3(b[0], b[1], b[2]) + Encode(b[3..])
  }

  /** n bytes encode to 4 * ceil(n / 3) characters. */
  lemma {:induction false} EncodeLength(b: seq<byte>)
    ensures |Encode(b)| == 4 * ((|b| + 2) / 3)
  {
    if |b| > 2 {
      EncodeLength(b[3..]);
      assert (|b| + 2) / 3 == (|b[3..]| + 2) / 3 + 1;
    }
  }

  /** Canonical encoded text: quads of symbols, where only the last quad may end in
      one `=` or two, and the bits a final symbol carries beyond the last byte are
      zero (section 3.5 of RFC 4648), as `Buffer` produces it. */
  predicate WellFormed(s: string)
    decreases |s|
  {
    if |s| == 0 then true
    else if |s| < 4 then false
    else if |s| == 4 then
      && IsSymbol(s[0]) && IsSymbol(s[1])
      && ((IsSymbol(s[2]) && IsSymbol(s[3]))
          || (IsSymbol(s[2]) && s[3] == '=' && Index(s[2]) % 4 == 0)
          || (s[2] == '=' && s[3] == '=' && Index(s[1]) % 16 == 0))
    else
      IsSymbol(s[0]) && IsSymbol(s[1]) && IsSymbol(s[2]) && IsSymbol(s[3]) && WellFormed(s[4..])
  }

  /** The bytes a quad carries, from the 6-bit values of its symbols: the first
      from the first two, the second from the second and third, the third from
      the last two. */
  function Byte0(x0: nat, x1: nat): byte
    requires x0 < 64 && x1 < 64
  {
    (x0 * 4 + x1 / 16) as byte
  }

  function Byte1(x1: nat, x2: nat): byte
    requires x1 < 64 && x2 < 64
  {
    ((x1 % 16) * 16 + x2 / 4) as byte
  }

  function Byte2(x2: nat, x3: nat): byte
    requires x2 < 64 && x3 < 64
  {
    ((x2 % 4) * 64 + x3) as byte
  }

  /** The bytes a well-formed text encodes. */
  function Decode(s: string): (b: seq<byte>)
    requires WellFormed(s)
    decreases |s|
  {
    if |s| == 0 then []
    else
      var x0, x1 := Index(s[0]), Index(s[1]);
      if s[2] == '=' then [Byte0(x0, x1)]
      else
        var x2 := Index(s[2]);
        if s[3] == '=' then [Byte0(x0, x1), Byte1(x1, x2)]
        else [Byte0(x0, x1), Byte1(x1, x2), Byte2(x2, Index(s[3]))] + Decode(s[4..])
  }

  /** The 6-bit pieces of one, two or three bytes reassemble into those bytes. */
  lemma Regroup(b0: int, b1: int, b2: int)
    requires 0 <= b0 < 256 && 0 <= b1 < 256 && 0 <= b2 < 256
    ensures (b0 / 4) * 4 + ((b0 % 4) * 16) / 16 == b0
    ensures (b0 / 4) * 4 + ((b0 % 4) * 16 + b1 / 16) / 16 == b0
    ensures (((b0 % 4) * 16 + b1 / 16) % 16) * 16 + ((b1 % 16) * 4) / 4 == b1
    ensures (((b0 % 4) * 16 + b1 / 16) % 16) * 16 + ((b1 % 16) * 4 + b2 / 64) / 4 == b1
    ensures (((b1 % 16) * 4 + b2 / 64) % 4) * 64 + b2 % 64 == b2
  {
  }

  lemma DecodeOne(b0: byte)
    ensures WellFormed(Group1(b0)) && Decode(Group1(b0)) == [b0]
  {
    var x0, x1 := b0 as int / 4, (b0 as int % 4) * 16;
    IndexSymbol(x0);
    IndexSymbol(x1);
    Regroup(b0 as int, 0, 0);
    assert Byte0(x0, x1) == b0;
  }

  lemma DecodeTwo(b0: byte, b1: byte)
    ensures WellFormed(Group2(b0, b1)) && Decode(Group2(b0, b1)) == [b0, b1]
  {
    var x0, x1, x2 := b0 as int / 4, (b0 as int % 4) * 16 + b1 as int / 16, (b1 as int % 16) * 4;
    IndexSymbol(x0);
    IndexSymbol(x1);
    IndexSymbol(x2);
    Regroup(b0 as int, b1 as int, 0);
    assert Byte0(x0, x1) == b0 && Byte1(x1, x2) == b1;
  }

  lemma DecodeThree(b0: byte, b1: byte, b2: byte, rest: string)
    requires WellFormed(rest)
    ensures WellFormed(Group3(b0, b1, b2) + rest)
    ensures Decode(Group3(b0, b1, b2) + rest) == [b0, b1, b2] + Decode(rest)
  {
    var x0, x1 := b0 as int / 4, (b0 as int % 4) * 16 + b1 as int / 16;
    var x2, x3 := (b1 as int % 16) * 4 + b2 as int / 64, b2 as int % 64;
    IndexSymbol(x0);
    IndexSymbol(x1);
    IndexSymbol(x2);
    IndexSymbol(x3);
    Regroup(b0 as int, b1 as int, b2 as int);
    assert Byte0(x0, x1) == b0 && Byte1(x1, x2) == b1 && Byte2(x2, x3) == b2;
    assert (Group3(b0, b1, b2) + rest)[4..] == rest;
  }

  /** One step of the round trip: a full group in front of an encoding that round-trips. */
  lemma DecodeEncodeStep(b: seq<byte>)
    requires |b| > 2
    requires WellFormed(Encode(b[3..])) && Decode(Encode(b[3..])) == b[3..]
    ensures WellFormed(Encode(b)) && Decode(Encode(b)) == b
  {
    var rest := Encode(b[3..]);
    assert Encode(b) == Group3(b[0], b[1], b[2]) + rest;
    DecodeThree(b[0], b[1], b[2], rest);
    assert b == [b[0], b[1], b[2]] + b[3..];
  }

  /** Every encoding is well formed and decodes back to the bytes encoded. */
  lemma {:induction false} DecodeEncode(b: seq<byte>)
    ensures WellFormed(Encode(b))
    ensures Decode(Encode(b)) == b
  {
    if |b| == 1 {
      DecodeOne(b[0]);
    } else if |b| == 2 {
      DecodeTwo(b[0], b[1]);
    } else if |b| > 2 {
      DecodeEncode(b[3..]);
      DecodeEncodeStep(b);
    }
  }

  /** The bytes of up to four 6-bit values, cut back into 6-bit pieces, give those values. */
  lemma Ungroup(x0: int, x1: int, x2: int, x3: int)
    requires 0 <= x0 < 64 && 0 <= x1 < 64 && 0 <= x2 < 64 && 0 <= x3 < 64
    ensures (x0 * 4 + x1 / 16) / 4 == x0
    ensures ((x0 * 4 + x1 / 16) % 4) * 16 + ((x1 % 16) * 16 + x2 / 4) / 16 == x1
    ensures x1 % 16 == 0 ==> ((x0 * 4 + x1 / 16) % 4) * 16 == x1
    ensures (((x1 % 16) * 16 + x2 / 4) % 16) * 4 + ((x2 % 4) * 64 + x3) / 64 == x2
    ensures x2 % 4 == 0 ==> (((x1 % 16) * 16 + x2 / 4) % 16) * 4 == x2
    ensures ((x2 % 4) * 64 + x3) % 64 == x3
  {
    var h1, l1 := x1 / 16, x1 % 16;
    var h2, l2 := x2 / 4, x2 % 4;
    assert (x0 * 4 + h1) / 4 == x0 && (x0 * 4 + h1) % 4 == h1;
    assert (l1 * 16 + h2) / 16 == l1 && (l1 * 16 + h2) % 16 == h2;
    assert (l2 * 64 + x3) / 64 == l2 && (l2 * 64 + x3) % 64 == x3;
  }

  /** The byte of two 6-bit values whose spare bits are zero re-encodes to their symbols. */
  lemma JoinOne(x0: nat, x1: nat)
    requires x0 < 64 && x1 < 64 && x1 % 16 == 0
    ensures Encode([Byte0(x0, x1)]) == [Symbol(x0), Symbol(x1), '=', '=']
  {
    Ungroup(x0, x1, 0, 0);
    var b0 := Byte0(x0, x1);
    assert b0 as int / 4 == x0;
    assert (b0 as int % 4) * 16 == x1;
  }

  /** The two bytes of three 6-bit values whose spare bits are zero re-encode to their symbols. */
  lemma JoinTwo(x0: nat, x1: nat, x2: nat)
    requires x0 < 64 && x1 < 64 && x2 < 64 && x2 % 4 == 0
    ensures Encode([Byte0(x0, x1), Byte1(x1, x2)]) == [Symbol(x0), Symbol(x1), Symbol(x2), '=']
  {
    Ungroup(x0, x1, x2, 0);
    var b0, b1 := Byte0(x0, x1), Byte1(x1, x2);
    assert b0 as int / 4 == x0;
    assert (b0 as int % 4) * 16 + b1 as int / 16 == x1;
    assert (b1 as int % 16) * 4 == x2;
  }

  /** The three bytes of four 6-bit values re-encode to their symbols. */
  lemma JoinThree(x0: nat, x1: nat, x2: nat, x3: nat)
    requires x0 < 64 && x1 < 64 && x2 < 64 && x3 < 64
    ensures Group3(Byte0(x0, x1), Byte1(x1, x2), Byte2(x2, x3)) == [Symbol(x0), Symbol(x1), Symbol(x2), Symbol(x3)]
  {
    Ungroup(x0, x1, x2, x3);
    var b0, b1, b2 := Byte0(x0, x1), Byte1(x1, x2), Byte2(x2, x3);
    assert b0 as int / 4 == x0;
    assert (b0 as int % 4) * 16 + b1 as int / 16 == x1;
    assert (b1 as int % 16) * 4 + b2 as int / 64 == x2;
    assert b2 as int % 64 == x3;
  }

  /** A final quad with two pads re-encodes to itself. */
  lemma EncodeDecodeOne(s: string)
    requires |s| == 4 && WellFormed(s) && s[2] == '='
    ensures Encode(Decode(s)) == s
  {
    JoinOne(Index(s[0]), Index(s[1]));
    SymbolIndex(s[0]);
    SymbolIndex(s[1]);
    assert s == [s[0], s[1], '=', '='];
  }

  /** A final quad with one pad re-encodes to itself. */
  lemma EncodeDecodeTwo(s: string)
    requires |s| == 4 && WellFormed(s) && s[2] != '=' && s[3] == '='
    ensures Encode(Decode(s)) == s
  {
    JoinTwo(Index(s[0]), Index(s[1]), Index(s[2]));
    SymbolIndex(s[0]);
    SymbolIndex(s[1]);
    SymbolIndex(s[2]);
    assert s == [s[0], s[1], s[2], '='];
  }

  /** The first quad of four symbols re-encodes from the three bytes it carries. */
  lemma ReencodeFull(s: string)
    requires |s| >= 4 && IsSymbol(s[0]) && IsSymbol(s[1]) && IsSymbol(s[2]) && IsSymbol(s[3])
    ensures Group3(Byte0(Index(s[0]), Index(s[1])), Byte1(Index(s[1]), Index(s[2])), Byte2(Index(s[2]), Index(s[3])))
      == [s[0], s[1], s[2], s[3]]
  {
    JoinThree(Index(s[0]), Index(s[1]), Index(s[2]), Index(s[3]));
    SymbolIndex(s[0]);
    SymbolIndex(s[1]);
    SymbolIndex(s[2]);
    SymbolIndex(s[3]);
  }

  /** Encoding three bytes in front of more bytes encodes them as one full group. */
  lemma EncodeFront(b0: byte, b1: byte, b2: byte, rest: seq<byte>)
    ensures Encode([b0, b1, b2] + rest) == Group3(b0, b1, b2) + Encode(rest)
  {
    assert ([b0, b1, b2] + rest)[3..] == rest;
  }

  /** A text whose first quad re-encodes three bytes, and whose rest re-encodes
      the bytes after them, is the encoding of all of them. */
  lemma EncodeJoin(s: string, b: seq<byte>, b0: byte, b1: byte, b2: byte, rest: seq<byte>)
    requires |s| >= 4 && b == [b0, b1, b2] + rest
    requires Group3(b0, b1, b2) == [s[0], s[1], s[2], s[3]] && Encode(rest) == s[4..]
    ensures Encode(b) == s
  {
    EncodeFront(b0, b1, b2, rest);
    assert s == [s[0], s[1], s[2], s[3]] + s[4..];
  }

  /** One step of the reverse round trip: a quad of four symbols in front of a
      text that round-trips. */
  lemma EncodeDecodeStep(s: string)
    requires |s| >= 4 && WellFormed(s) && s[2] != '=' && s[3] != '='
    requires WellFormed(s[4..]) && Encode(Decode(s[4..])) == s[4..]
    ensures Encode(Decode(s)) == s
  {
    ReencodeFull(s);
    EncodeJoin(s, Decode(s), Byte0(Index(s[0]), Index(s[1])), Byte1(Index(s[1]), Index(s[2])),
      Byte2(Index(s[2]), Index(s[3])), Decode(s[4..]));
  }

  /** Decoding loses nothing: a canonical text is the encoding of the bytes it
      decodes to, so it is the one text `Encode` produces for them. */
  lemma {:induction false} EncodeDecode(s: string)
    requires WellFormed(s)
    ensures Encode(Decode(s)) == s
    decreases |s|
  {
    if |s| == 4 && s[2] == '=' {
      EncodeDecodeOne(s);
    } else if |s| == 4 && s[3] == '=' {
      EncodeDecodeTwo(s);
    } else if |s| >= 4 {
      EncodeDecode(s[4..]);
      EncodeDecodeStep(s);
    }
  }
}
