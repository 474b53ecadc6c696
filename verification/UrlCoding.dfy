/** Percent-encoding of byte strings, as in sections 2.1 and 2.3 of RFC 3986. */
module UrlCoding {
  import opened Basics

  const PERCENT: Byte := 0x25

  predicate IsDigit(c: Byte) { 0x30 <= c <= 0x39 }

  predicate IsUpper(c: Byte) { 0x41 <= c <= 0x5A }

  predicate IsLower(c: Byte) { 0x61 <= c <= 0x7A }

  /** Unreserved characters: letters, digits, '-', '_', '.', '~'. */
  predicate Unreserved(c: Byte) {
    IsDigit(c) || IsUpper(c) || IsLower(c) || c == 0x2D || c == 0x5F || c == 0x2E || c == 0x7E
  }

  /** They are the unreserved characters of section 2.3 of RFC 3986, and no others. */
  lemma UnreservedCharacters(c: Byte)
    ensures var x := c as char;
            Unreserved(c) <==> 'A' <= x <= 'Z' || 'a' <= x <= 'z' || '0' <= x <= '9' || x in {'-', '.', '_', '~'}
  {
  }

  /** The character of HEX_DIGIT at an index. */
  function HexDigit(n: nat): (r: Byte)
    requires n < 16
  {
    if n < 10 then 0x30 + n else 0x41 + (n - 10)
  }

  predicate UpperHex(c: Byte) {
    IsDigit(c) || 0x41 <= c <= 0x46
  }

  function Hex2Char(c: Byte): (v: nat)
    ensures v < 16
  {
    if IsDigit(c) then c - 0x30
    else if 0x41 <= c <= 0x46 then c - 0x41 + 10
    else if 0x61 <= c <= 0x66 then c - 0x61 + 10
    else 0
  }

  function EncodeByte(c: Byte): (r: seq<Byte>) {
    if Unreserved(c) then [c] else [PERCENT, HexDigit(c / 16), HexDigit(c % 16)]
  }

  function Encoded(input: seq<Byte>): (r: seq<Byte>) {
    if input == [] then [] else EncodeByte(input[0]) + Encoded(input[1..])
  }

  /** Every '%' the decoder comes to has two characters behind it. */
  predicate Complete(input: seq<Byte>) {
    input == [] ||
    if input[0] == PERCENT then |input| >= 3 && Complete(input[3..]) else Complete(input[1..])
  }

  function Decoded(input: seq<Byte>): (r: seq<Byte>)
    requires Complete(input)
  {
    if input == [] then []
    else if input[0] == PERCENT then [Hex2Char(input[1]) * 16 + Hex2Char(input[2])] + Decoded(input[3..])
    else [input[0]] + Decoded(input[1..])
  }

  method URLEncode(input: seq<Byte>) returns (result: seq<Byte>)
    ensures result == Encoded(input)
  {
    hide Encoded;
    result := [];
    EncodedEnds(input);
    for i := 0 to |input|
      invariant result + Encoded(input[i..]) == Encoded(input)
    {
      var c := input[i];
      EncodedNext(input, result, i);
      if Unreserved(c) {
        result := result + [c];
      } else {
        Triplet(result, PERCENT, HexDigit(c / 16), HexDigit(c % 16));
        result := result + [PERCENT];
        result := result + [HexDigit(c / 16)];
        result := result + [HexDigit(c % 16)];
      }
    }
  }

  lemma EncodedEnds(input: seq<Byte>)
    ensures [] + Encoded(input[0..]) == Encoded(input) && Encoded(input[|input|..]) == []
  {
    assert input[0..] == input;
  }

  lemma EncodedNext(input: seq<Byte>, done: seq<Byte>, i: nat)
    requires i < |input|
    ensures done + Encoded(input[i..]) == (done + EncodeByte(input[i])) + Encoded(input[i + 1..])
  {
    assert input[i..][1..] == input[i + 1..];
  }

  lemma Triplet(s: seq<Byte>, a: Byte, b: Byte, c: Byte)
    ensures s + [a] + [b] + [c] == s + [a, b, c]
  {
  }

  /** From position i on the decoder reads only inside the block that holds its input. The input is
      the first `length` bytes; a C string has at least its terminator behind them. */
  predicate Readable(block: seq<Byte>, length: nat, i: nat)
    requires length <= |block|
    decreases length - i
  {
    i >= length ||
    if block[i] == PERCENT then i + 2 < |block| && Readable(block, length, i + 3)
    else Readable(block, length, i + 1)
  }

  /** What the decoder makes of the input from position i on: a triplet that the end of the input cuts
      is completed with what lies behind it. */
  function DecodedFrom(block: seq<Byte>, length: nat, i: nat): (r: seq<Byte>)
    requires length <= |block| && Readable(block, length, i)
    decreases length - i
  {
    if i >= length then []
    else if block[i] == PERCENT then
      [Hex2Char(block[i + 1]) * 16 + Hex2Char(block[i + 2])] + DecodedFrom(block, length, i + 3)
    else [block[i]] + DecodedFrom(block, length, i + 1)
  }

  method URLDecode(block: seq<Byte>, length: nat) returns (result: seq<Byte>)
    requires length <= |block| && Readable(block, length, 0)
    ensures result == DecodedFrom(block, length, 0)
  {
    hide DecodedFrom;
    result := [];
    var i := 0;
    DecodedEnds(block, length, 0);
    while i < length
      invariant Readable(block, length, i)
      invariant result + DecodedFrom(block, length, i) == DecodedFrom(block, length, 0)
      decreases length - i
    {
      DecodedNext(block, length, result, i);
      if block[i] == PERCENT {
        result := result + [Hex2Char(block[i + 1]) * 16 + Hex2Char(block[i + 2])];
        i := i + 2;
      } else {
        result := result + [block[i]];
      }
      i := i + 1;
    }
    DecodedEnds(block, length, i);
  }

  lemma DecodedEnds(block: seq<Byte>, length: nat, i: nat)
    requires length <= |block| && Readable(block, length, i)
    ensures [] + DecodedFrom(block, length, i) == DecodedFrom(block, length, i)
    ensures i >= length ==> DecodedFrom(block, length, i) == []
  {
  }

  lemma DecodedNext(block: seq<Byte>, length: nat, done: seq<Byte>, i: nat)
    requires i < length <= |block| && Readable(block, length, i)
    ensures var n := if block[i] == PERCENT then 3 else 1;
            && (n == 3 ==> i + 2 < |block|) && Readable(block, length, i + n)
            && var c: Byte := if n == 3 then Hex2Char(block[i + 1]) * 16 + Hex2Char(block[i + 2]) else block[i];
               done + DecodedFrom(block, length, i) == (done + [c]) + DecodedFrom(block, length, i + n)
  {
  }

  /** When every triplet is complete, what lies behind the input does not matter. */
  lemma {:induction false} DecodedWithin(block: seq<Byte>, length: nat, i: nat)
    requires i <= length <= |block| && Complete(block[i..length])
    ensures Readable(block, length, i) && DecodedFrom(block, length, i) == Decoded(block[i..length])
    decreases length - i
  {
    if i < length {
      var n := if block[i] == PERCENT then 3 else 1;
      assert block[i..length][n..] == block[i + n..length];
      DecodedWithin(block, length, i + n);
    }
  }

  /** A C string that ends in '%' and one character: the terminator counts as the digit 0. */
  lemma {:induction false} CutTriplet(block: seq<Byte>, length: nat, i: nat)
    requires i + 2 <= length < |block| && block[length] == 0 && block[length - 2] == PERCENT
    requires Complete(block[i..length - 2])
    ensures Readable(block, length, i)
    ensures DecodedFrom(block, length, i) == Decoded(block[i..length - 2]) + [Hex2Char(block[length - 1]) * 16]
    decreases length - i
  {
    if i < length - 2 {
      var rest := block[i..length - 2];
      var n := if block[i] == PERCENT then 3 else 1;
      var next := block[i + n..length - 2];
      assert rest[n..] == next;
      CutTriplet(block, length, i + n);
      FirstByte(block, length, i, n);
      FirstDecoded(rest, n);
      var c: Byte := if n == 3 then Hex2Char(block[i + 1]) * 16 + Hex2Char(block[i + 2]) else block[i];
      hide Decoded, DecodedFrom;
      assert [c] + (Decoded(next) + [Hex2Char(block[length - 1]) * 16])
          == ([c] + Decoded(next)) + [Hex2Char(block[length - 1]) * 16];
    } else {
      assert block[i..length - 2] == [];
      assert DecodedFrom(block, length, i + 3) == [];
    }
  }

  lemma FirstByte(block: seq<Byte>, length: nat, i: nat, n: nat)
    requires i < length <= |block| && n == (if block[i] == PERCENT then 3 else 1)
    requires i + n <= |block| && Readable(block, length, i + n)
    ensures Readable(block, length, i)
    ensures DecodedFrom(block, length, i)
            == [if n == 3 then Hex2Char(block[i + 1]) * 16 + Hex2Char(block[i + 2]) else block[i]]
               + DecodedFrom(block, length, i + n)
  {
  }

  lemma FirstDecoded(s: seq<Byte>, n: nat)
    requires s != [] && Complete(s) && n == (if s[0] == PERCENT then 3 else 1)
    ensures n <= |s| && Complete(s[n..])
    ensures Decoded(s) == [if n == 3 then Hex2Char(s[1]) * 16 + Hex2Char(s[2]) else s[0]] + Decoded(s[n..])
  {
  }

  lemma HexRoundTrip(c: Byte)
    ensures Hex2Char(HexDigit(c / 16)) * 16 + Hex2Char(HexDigit(c % 16)) == c
    ensures UpperHex(HexDigit(c / 16)) && UpperHex(HexDigit(c % 16))
  {
  }

  /** A hex digit with value v, in either case. */
  predicate IsHexOf(c: Byte, v: nat)
    requires v < 16
  {
    (c as char) == "0123456789ABCDEF"[v] || (c as char) == "0123456789abcdef"[v]
  }

  /** hex2char gives the value of every hex digit, in either case, and 0 for any other character. */
  lemma HexValues(c: Byte)
    ensures forall v: nat :: v < 16 && IsHexOf(c, v) ==> Hex2Char(c) == v
    ensures (forall v: nat :: v < 16 ==> !IsHexOf(c, v)) ==> Hex2Char(c) == 0
  {
    assert Hex2Char(c) != 0 ==> IsHexOf(c, Hex2Char(c));
  }

  /** A triplet decodes to its byte in upper, lower and mixed case. */
  lemma TripletAnyCase(c: Byte, high: Byte, low: Byte)
    requires IsHexOf(high, c / 16) && IsHexOf(low, c % 16)
    ensures Complete([PERCENT, high, low]) && Decoded([PERCENT, high, low]) == [c]
  {
    HexValues(high);
    HexValues(low);
    assert [PERCENT, high, low][3..] == [];
  }

  function UpperCase(c: Byte): (u: Byte) {
    if 0x61 <= c <= 0x66 then c - 0x20 else c
  }

  /** The input with the letters of its triplets in upper case. */
  function UpperTriplets(s: seq<Byte>): (r: seq<Byte>)
    requires Complete(s)
  {
    if s == [] then []
    else if s[0] == PERCENT then [PERCENT, UpperCase(s[1]), UpperCase(s[2])] + UpperTriplets(s[3..])
    else [s[0]] + UpperTriplets(s[1..])
  }

  /** The case of the digits does not matter. */
  lemma {:induction false} CaseDoesNotMatter(s: seq<Byte>)
    requires Complete(s)
    ensures Complete(UpperTriplets(s)) && Decoded(UpperTriplets(s)) == Decoded(s)
  {
    if s != [] {
      var u := UpperTriplets(s);
      if s[0] == PERCENT {
        CaseDoesNotMatter(s[3..]);
        assert u[3..] == UpperTriplets(s[3..]);
      } else {
        CaseDoesNotMatter(s[1..]);
        assert u[1..] == UpperTriplets(s[1..]);
      }
    }
  }

  /** Decoding undoes encoding on every byte string. */
  lemma {:induction false} DecodeOfEncode(b: seq<Byte>)
    ensures Complete(Encoded(b)) && Decoded(Encoded(b)) == b
  {
    if b != [] {
      DecodeOfEncode(b[1..]);
      HexRoundTrip(b[0]);
      var rest := Encoded(b[1..]);
      if Unreserved(b[0]) {
        assert ([b[0]] + rest)[1..] == rest;
      } else {
        assert Encoded(b)[3..] == rest;
      }
    }
  }

  /** URLDecode of URLEncode gives every byte string back, whatever lies behind it in memory. */
  lemma UrlRoundTrip(b: seq<Byte>, behind: seq<Byte>)
    ensures var block, length := Encoded(b) + behind, |Encoded(b)|;
            Readable(block, length, 0) && DecodedFrom(block, length, 0) == b
  {
    DecodeOfEncode(b);
    var block := Encoded(b) + behind;
    assert block[0..|Encoded(b)|] == Encoded(b);
    DecodedWithin(block, |Encoded(b)|, 0);
  }

  /** Different byte strings have different encodings. */
  lemma EncodeInjective(a: seq<Byte>, b: seq<Byte>)
    requires Encoded(a) == Encoded(b)
    ensures a == b
  {
    DecodeOfEncode(a);
    DecodeOfEncode(b);
  }

  /** The output is made of unreserved characters and of '%' with two upper-case hex digits. */
  predicate PercentEncoded(s: seq<Byte>) {
    s == [] ||
    if s[0] == PERCENT then |s| >= 3 && UpperHex(s[1]) && UpperHex(s[2]) && PercentEncoded(s[3..])
    else Unreserved(s[0]) && PercentEncoded(s[1..])
  }

  lemma {:induction false} EncodedIsPercentEncoded(b: seq<Byte>)
    ensures PercentEncoded(Encoded(b))
  {
    if b != [] {
      EncodedIsPercentEncoded(b[1..]);
      HexRoundTrip(b[0]);
      var rest := Encoded(b[1..]);
      if Unreserved(b[0]) {
        assert ([b[0]] + rest)[1..] == rest;
      } else {
        assert Encoded(b)[3..] == rest;
      }
    }
  }

  /** Decoding a percent-encoded string and encoding it again gives it back exactly when none of its
      triplets stands for an unreserved character. */
  lemma {:induction false} EncodeOfDecode(s: seq<Byte>)
    requires PercentEncoded(s)
    ensures Complete(s)
    ensures Encoded(Decoded(s)) == s <==> NoNeedlessTriplet(s)
  {
    if s != [] {
      if s[0] == PERCENT {
        EncodeOfDecode(s[3..]);
        var c := Hex2Char(s[1]) * 16 + Hex2Char(s[2]);
        assert Decoded(s) == [c] + Decoded(s[3..]);
        assert HexDigit(c / 16) == s[1] && HexDigit(c % 16) == s[2];
        assert s == [PERCENT, s[1], s[2]] + s[3..];
        assert Encoded(Decoded(s)) == EncodeByte(c) + Encoded(Decoded(s[3..]));
        if !Unreserved(c) {
          assert Encoded(Decoded(s))[3..] == Encoded(Decoded(s[3..]));
        } else {
          assert Encoded(Decoded(s))[0] == c;
        }
      } else {
        EncodeOfDecode(s[1..]);
        assert Decoded(s) == [s[0]] + Decoded(s[1..]);
        assert Encoded(Decoded(s))[1..] == Encoded(Decoded(s[1..]));
        assert s == [s[0]] + s[1..];
      }
    }
  }

  predicate NoNeedlessTriplet(s: seq<Byte>)
    requires PercentEncoded(s)
  {
    s == [] ||
    if s[0] == PERCENT then !Unreserved(Hex2Char(s[1]) * 16 + Hex2Char(s[2])) && NoNeedlessTriplet(s[3..])
    else NoNeedlessTriplet(s[1..])
  }

  // ----- against encodeURIComponent

  /** The punctuation that JavaScript's encodeURIComponent leaves alone and URLEncode escapes. */
  predicate OnlyMarks(c: Byte) {
    c == 0x21 || c == 0x27 || c == 0x28 || c == 0x29 || c == 0x2A // ! ' ( ) *
  }

  /** encodeURIComponent on the bytes of a UTF-8 string. */
  function EncodedComponent(input: seq<Byte>): (r: seq<Byte>) {
    if input == [] then []
    else (if OnlyMarks(input[0]) then [input[0]] else EncodeByte(input[0])) + EncodedComponent(input[1..])
  }

  /** The two encodings agree exactly on the strings without any of these five characters. */
  lemma {:induction false} SameAsComponentIff(b: seq<Byte>)
    ensures Encoded(b) == EncodedComponent(b) <==> forall i :: 0 <= i < |b| ==> !OnlyMarks(b[i])
  {
    if b != [] {
      SameAsComponentIff(b[1..]);
      assert forall i :: 1 <= i < |b| ==> b[i] == b[1..][i - 1];
      var code := EncodeByte(b[0]);
      if OnlyMarks(b[0]) {
        assert Encoded(b)[0] == PERCENT && EncodedComponent(b)[0] == b[0];
      } else {
        assert Encoded(b)[|code|..] == Encoded(b[1..]);
        assert EncodedComponent(b)[|code|..] == EncodedComponent(b[1..]);
        assert (forall i :: 0 <= i < |b| ==> !OnlyMarks(b[i])) <==>
               (forall i :: 0 <= i < |b[1..]| ==> !OnlyMarks(b[1..][i])) by {
          forall i | 0 <= i < |b[1..]| ensures b[1..][i] == b[i + 1] {}
        }
      }
    }
  }
}
