/** Strict Base64 and Base64URL, RFC 4648 sections 3.2, 3.5, 4 and 5.

    Octets, sextets and the decoder's 32-bit accumulator are bit vectors, so
    shifts, masks and the wrap-around of the accumulator are the program's own. */
module Base64 {

  type Bytes = seq<bv8>
  type Sextet = bv6

  // ----- The alphabet -----

  const ALPHABET :=
    "ABCDEFGHIJKLM" + "NOPQRSTUVWXYZ" + "abcdefghijklm" + "nopqrstuvwxyz" + "0123456789+/"

  function Base64Value(c: char): int {
    if 'A' <= c <= 'Z' then c as int - 'A' as int
    else if 'a' <= c <= 'z' then c as int - 'a' as int + 26
    else if '0' <= c <= '9' then c as int - '0' as int + 52
    else if c == '+' then 62
    else if c == '/' then 63
    else -1
  }

  function Letter(v: Sextet): char {
    var n := v as int;
    if n < 26 then 'A' + n as char
    else if n < 52 then 'a' + (n - 26) as char
    else if n < 62 then '0' + (n - 52) as char
    else if n == 62 then '+' else '/'
  }

  lemma AlphabetIsLetter(v: Sextet)
    ensures |ALPHABET| == 64 && ALPHABET[v as int] == Letter(v)
  {
  }

  /** The lookup and the alphabet are inverse to each other. */
  lemma ValueInvertsLetter(v: Sextet)
    ensures 0 <= Base64Value(Letter(v)) < 64 && Base64Value(Letter(v)) as Sextet == v
  {
  }

  lemma LetterInvertsValue(c: char)
    requires Base64Value(c) >= 0
    ensures Base64Value(c) < 64 && Letter(Base64Value(c) as Sextet) == c
  {
  }

  // ----- Groups: three octets against four sextets -----

  function Field0(a: bv8): Sextet { (a >> 2) as Sextet }
  function Field1(a: bv8, b: bv8): Sextet { (((a & 3) << 4) | (b >> 4)) as Sextet }
  function Field2(b: bv8, c: bv8): Sextet { (((b & 15) << 2) | (c >> 6)) as Sextet }
  function Field3(c: bv8): Sextet { (c & 63) as Sextet }

  function Octet1(p: Sextet, q: Sextet): bv8 { (p as bv8 << 2) | (q as bv8 >> 4) }
  function Octet2(p: Sextet, q: Sextet): bv8 { (p as bv8 << 4) | (q as bv8 >> 2) }
  function Octet3(p: Sextet, q: Sextet): bv8 { (p as bv8 << 6) | q as bv8 }

  lemma FieldsInvert(a: bv8, b: bv8, c: bv8)
    ensures Octet1(Field0(a), Field1(a, b)) == a
    ensures Octet2(Field1(a, b), Field2(b, c)) == b
    ensures Octet3(Field2(b, c), Field3(c)) == c
    ensures Field1(a, 0) & 15 == 0 && Field2(b, 0) & 3 == 0
  {
  }

  lemma OctetsInvertFields(p: Sextet, q: Sextet, r: Sextet, s: Sextet)
    ensures Field0(Octet1(p, q)) == p
    ensures Field1(Octet1(p, q), Octet2(q, r)) == q
    ensures Field2(Octet2(q, r), Octet3(r, s)) == r
    ensures Field3(Octet3(r, s)) == s
    ensures q & 15 == 0 ==> Field1(Octet1(p, q), 0) == q
    ensures r & 3 == 0 ==> Field2(Octet2(q, r), 0) == r
  {
  }

  /** The sextets of a string of octets; missing octets of the last group are zero. */
  function Sextets(b: Bytes): seq<Sextet> {
    if |b| == 0 then []
    else if |b| == 1 then [Field0(b[0]), Field1(b[0], 0)]
    else if |b| == 2 then [Field0(b[0]), Field1(b[0], b[1]), Field2(b[1], 0)]
    else [Field0(b[0]), Field1(b[0], b[1]), Field2(b[1], b[2]), Field3(b[2])] + Sextets(b[3..])
  }

  /** The whole octets of a string of sextets. */
  function Octets(v: seq<Sextet>): Bytes {
    if |v| < 2 then []
    else if |v| == 2 then [Octet1(v[0], v[1])]
    else if |v| == 3 then [Octet1(v[0], v[1]), Octet2(v[1], v[2])]
    else [Octet1(v[0], v[1]), Octet2(v[1], v[2]), Octet3(v[2], v[3])] + Octets(v[4..])
  }

  /** The sextets after the last whole group of four. */
  function Rest(v: seq<Sextet>): (r: seq<Sextet>)
    ensures |r| < 4
  {
    if |v| < 4 then v else Rest(v[4..])
  }

  lemma {:induction false} RestIsRemainder(v: seq<Sextet>)
    ensures |Rest(v)| == |v| % 4
    ensures Rest(v) != [] ==> v[|v| - 1] == Rest(v)[|Rest(v)| - 1]
  {
    if |v| >= 4 {
      RestIsRemainder(v[4..]);
    }
  }

  /** RFC 4648 section 3.5: the bits after the last whole octet are zero. */
  predicate Canonical(v: seq<Sextet>) {
    var r := Rest(v);
    && (|r| == 2 ==> r[1] & 15 == 0)
    && (|r| == 3 ==> r[2] & 3 == 0)
  }

  lemma {:induction false} OctetsInvertSextets(b: Bytes)
    ensures Octets(Sextets(b)) == b
  {
    if |b| >= 3 {
      OctetsInvertSextets(b[3..]);
      assert Sextets(b)[4..] == Sextets(b[3..]);
      FieldsInvert(b[0], b[1], b[2]);
    } else if |b| == 2 {
      FieldsInvert(b[0], b[1], 0);
    } else if |b| == 1 {
      FieldsInvert(b[0], 0, 0);
    }
  }

  lemma {:induction false} SextetsAreCanonical(b: Bytes)
    ensures Canonical(Sextets(b)) && |Rest(Sextets(b))| != 1
    ensures 4 * |b| <= 3 * |Sextets(b)| <= 4 * |b| + 2
  {
    if |b| >= 3 {
      SextetsAreCanonical(b[3..]);
      assert Sextets(b)[4..] == Sextets(b[3..]);
    } else if |b| == 2 {
      FieldsInvert(b[0], b[1], 0);
    } else if |b| == 1 {
      FieldsInvert(b[0], 0, 0);
    }
  }

  lemma {:induction false} SextetsInvertOctets(v: seq<Sextet>)
    requires |Rest(v)| != 1 && Canonical(v)
    ensures Sextets(Octets(v)) == v
    ensures v != [] ==> Octets(v) != []
  {
    if |v| >= 4 {
      SextetsInvertOctets(v[4..]);
      assert Octets(v)[3..] == Octets(v[4..]);
      OctetsInvertFields(v[0], v[1], v[2], v[3]);
    } else if |v| == 3 {
      OctetsInvertFields(v[0], v[1], v[2], 0);
    } else if |v| == 2 {
      OctetsInvertFields(v[0], v[1], 0, 0);
    }
  }

  // ----- What an encoding is: the same bit string cut into sextets or octets -----

  /** Bit k of an octet, most significant bit first. */
  predicate Has(x: bv8, k: nat)
    requires k < 8
  {
    if k == 0 then x & 0x80 != 0
    else if k == 1 then x & 0x40 != 0
    else if k == 2 then x & 0x20 != 0
    else if k == 3 then x & 0x10 != 0
    else if k == 4 then x & 0x08 != 0
    else if k == 5 then x & 0x04 != 0
    else if k == 6 then x & 0x02 != 0
    else x & 0x01 != 0
  }

  /** Bit i of a string of octets. */
  predicate OctetBit(b: Bytes, i: nat)
    requires i < 8 * |b|
  {
    if i < 8 then Has(b[0], i) else OctetBit(b[1..], i - 8)
  }

  /** Bit i of a string of sextets. */
  predicate SextetBit(v: seq<Sextet>, i: nat)
    requires i < 6 * |v|
  {
    if i < 6 then Has(v[0] as bv8, i + 2) else SextetBit(v[1..], i - 6)
  }

  lemma OctetBits(p: Sextet, q: Sextet, k: nat)
    requires k < 8
    ensures Has(Octet1(p, q), k) == if k < 6 then Has(p as bv8, k + 2) else Has(q as bv8, k - 4)
    ensures Has(Octet2(p, q), k) == if k < 4 then Has(p as bv8, k + 4) else Has(q as bv8, k - 2)
    ensures Has(Octet3(p, q), k) == if k < 2 then Has(p as bv8, k + 6) else Has(q as bv8, k)
  {
  }

  lemma FieldBits(a: bv8, b: bv8, k: nat)
    requires k < 6
    ensures Has(Field0(a) as bv8, k + 2) == Has(a, k)
    ensures Has(Field1(a, b) as bv8, k + 2) == if k < 2 then Has(a, k + 6) else Has(b, k - 2)
    ensures Has(Field2(a, b) as bv8, k + 2) == if k < 4 then Has(a, k + 4) else Has(b, k - 4)
    ensures Has(Field3(a) as bv8, k + 2) == Has(a, k + 2)
  {
  }

  lemma NoBits(k: nat)
    requires k < 8
    ensures !Has(0, k)
  {
  }

  /** The bits of a group of up to three octets, then those of what follows. */
  lemma OctetBitSteps(b: Bytes, i: nat)
    requires i < 8 * |b|
    ensures OctetBit(b, i) ==
      if i < 8 then Has(b[0], i) else if i < 16 then Has(b[1], i - 8)
      else if i < 24 then Has(b[2], i - 16) else OctetBit(b[3..], i - 24)
  {
    if i >= 8 {
      assert OctetBit(b, i) == OctetBit(b[1..], i - 8);
      if i >= 16 {
        assert b[1..][1..] == b[2..] && b[2..][1..] == b[3..];
        assert OctetBit(b[1..], i - 8) == OctetBit(b[2..], i - 16);
      }
    }
  }

  /** The bits of a group of up to four sextets, then those of what follows. */
  lemma SextetBitSteps(v: seq<Sextet>, i: nat)
    requires i < 6 * |v|
    ensures SextetBit(v, i) ==
      if i < 6 then Has(v[0] as bv8, i + 2) else if i < 12 then Has(v[1] as bv8, i - 4)
      else if i < 18 then Has(v[2] as bv8, i - 10) else if i < 24 then Has(v[3] as bv8, i - 16)
      else SextetBit(v[4..], i - 24)
  {
    if i >= 6 {
      assert SextetBit(v, i) == SextetBit(v[1..], i - 6);
      if i >= 12 {
        assert v[1..][1..] == v[2..] && v[2..][1..] == v[3..];
        assert SextetBit(v[1..], i - 6) == SextetBit(v[2..], i - 12);
        if i >= 18 {
          assert v[3..][1..] == v[4..];
          assert SextetBit(v[2..], i - 12) == SextetBit(v[3..], i - 18);
        }
      }
    }
  }

  /** RFC 4648 section 4: the octets carry exactly the leading bits of the sextets. */
  lemma {:induction false} OctetsCarryTheSextetBits(v: seq<Sextet>, i: nat)
    requires i < 8 * |Octets(v)|
    ensures i < 6 * |v| && OctetBit(Octets(v), i) == SextetBit(v, i)
  {
    OctetBitSteps(Octets(v), i);
    if i >= 24 {
      OctetsCarryTheSextetBits(v[4..], i - 24);
      assert Octets(v)[3..] == Octets(v[4..]);
    } else if i < 8 {
      OctetBits(v[0], v[1], i);
    } else if i < 16 {
      OctetBits(v[1], v[2], i - 8);
    } else {
      OctetBits(v[2], v[3], i - 16);
    }
    SextetBitSteps(v, i);
  }

  function OctetOrZero(b: Bytes, n: nat): bv8 { if n < |b| then b[n] else 0 }

  /** RFC 4648 section 4: the sextets carry the bits of the octets, then zeros. */
  lemma {:induction false} SextetsCarryTheOctetBits(b: Bytes, i: nat)
    requires i < 6 * |Sextets(b)|
    ensures SextetBit(Sextets(b), i) == (i < 8 * |b| && OctetBit(b, i))
  {
    SextetBitSteps(Sextets(b), i);
    if i >= 24 {
      SextetsCarryTheOctetBits(b[3..], i - 24);
      assert Sextets(b)[4..] == Sextets(b[3..]);
    } else if i < 6 {
      FieldBits(b[0], 0, i);
    } else if i < 12 {
      FieldBits(b[0], OctetOrZero(b, 1), i - 6);
      NoBits(if i < 8 then 0 else i - 8);
    } else if i < 18 {
      FieldBits(b[1], OctetOrZero(b, 2), i - 12);
      NoBits(if i < 16 then 0 else i - 16);
    } else {
      FieldBits(b[2], 0, i - 18);
    }
    if i < 8 * |b| { OctetBitSteps(b, i); }
  }

  // ----- Encoding -----

  function Text(v: seq<Sextet>): (s: string)
    ensures |s| == |v|
  {
    seq(|v|, i requires 0 <= i < |v| => Letter(v[i]))
  }

  function Padding(octets: nat): string {
    if octets % 3 == 0 then "" else if octets % 3 == 1 then "==" else "="
  }

  function Encode(b: Bytes, padded: bool): string {
    Text(Sextets(b)) + if padded then Padding(|b|) else ""
  }

  /** Convert.cpp, Base64Encode: three octets at a time. */
  method Base64Encode(data: Bytes, padded: bool) returns (result: string)
    ensures result == Encode(data, padded)
  {
    result := "";
    var index := 0;
    while index < |data|
      invariant 0 <= index < |data| + 3
      invariant result + Encode(From(data, index), padded) == Encode(data, padded)
    {
      GroupText(From(data, index), padded);
      var piece := EncodeGroup(data[index], OctetOrZero(data, index + 1), OctetOrZero(data, index + 2),
                               |data| - index, padded);
      AppendText(result, piece, Encode(From(data, index + 3), padded));
      result := result + piece;
      assert From(From(data, index), 3) == From(data, index + 3);
      index := index + 3;
    }
  }

  function From(b: Bytes, n: nat): Bytes { if n <= |b| then b[n..] else [] }

  lemma AppendText(a: string, b: string, c: string)
    ensures (a + b) + c == a + (b + c)
  {
  }

  lemma GroupText(b: Bytes, padded: bool)
    requires b != []
    ensures Encode(b, padded) ==
      GroupPiece(b[0], OctetOrZero(b, 1), OctetOrZero(b, 2), |b|, padded) + Encode(From(b, 3), padded)
  {
    var pad := if padded then Padding(|b|) else "";
    if |b| >= 3 {
      assert Padding(|b|) == Padding(|b| - 3);
      PieceIsText(b[0], b[1], b[2], |b|, padded);
      TextOfConcat(Sextets(b)[..4], Sextets(b[3..]));
      AppendText(Text(Sextets(b)[..4]), Text(Sextets(b[3..])), pad);
    } else {
      PieceIsText(b[0], OctetOrZero(b, 1), 0, |b|, padded);
    }
  }

  lemma PieceIsText(a: bv8, b: bv8, c: bv8, left: nat, padded: bool)
    ensures left >= 3 ==>
      GroupPiece(a, b, c, left, padded) == Text([Field0(a), Field1(a, b), Field2(b, c), Field3(c)])
    ensures left == 2 ==>
      GroupPiece(a, b, c, left, padded) == Text([Field0(a), Field1(a, b), Field2(b, c)]) + if padded then "=" else ""
    ensures left == 1 ==>
      GroupPiece(a, b, c, left, padded) == Text([Field0(a), Field1(a, b)]) + if padded then "==" else ""
  {
  }

  lemma TextOfConcat(u: seq<Sextet>, w: seq<Sextet>)
    ensures Text(u + w) == Text(u) + Text(w)
  {
  }

  /** The body of the encoding loop: the four fields of a 24-bit block, of which
      only those that carry bits of the `left` remaining octets are letters. */
  method EncodeGroup(first: bv8, second: bv8, third: bv8, left: nat, padded: bool) returns (piece: string)
    ensures piece == GroupPiece(first, second, third, left, padded)
  {
    var f0, f1, f2, f3 := SplitBlock(first, second, third);
    var c0 := AlphabetAt(f0);
    var c1 := AlphabetAt(f1);
    piece := [c0, c1];
    if 1 < left {
      var c2 := AlphabetAt(f2);
      piece := piece + [c2];
    } else if padded {
      piece := piece + ['='];
    }
    if 2 < left {
      var c3 := AlphabetAt(f3);
      piece := piece + [c3];
    } else if padded {
      piece := piece + ['='];
    }
  }

  method AlphabetAt(field: Sextet) returns (c: char)
    ensures c == Letter(field)
  {
    AlphabetIsLetter(field);
    c := ALPHABET[field as int];
  }

  method SplitBlock(first: bv8, second: bv8, third: bv8) returns (f0: Sextet, f1: Sextet, f2: Sextet, f3: Sextet)
    ensures f0 == Field0(first) && f1 == Field1(first, second) && f2 == Field2(second, third) && f3 == Field3(third)
  {
    var block: bv32 := (first as bv32 << 16) | (second as bv32 << 8) | third as bv32;
    f0 := ((block >> 18) & 0x3f) as Sextet;
    f1 := ((block >> 12) & 0x3f) as Sextet;
    f2 := ((block >> 6) & 0x3f) as Sextet;
    f3 := (block & 0x3f) as Sextet;
  }

  function GroupPiece(a: bv8, b: bv8, c: bv8, left: nat, padded: bool): string {
    [Letter(Field0(a)), Letter(Field1(a, b))]
    + (if 1 < left then [Letter(Field2(b, c))] else if padded then "=" else "")
    + (if 2 < left then [Letter(Field3(c))] else if padded then "=" else "")
  }

  function UrlLetter(c: char): char {
    if c == '+' then '-' else if c == '/' then '_' else c
  }

  function ToUrl(s: string): (t: string)
    ensures |t| == |s|
  {
    seq(|s|, i requires 0 <= i < |s| => UrlLetter(s[i]))
  }

  function UrlEncode(b: Bytes, padded: bool): string {
    ToUrl(Encode(b, padded))
  }

  method Base64UrlEncode(data: Bytes, padded: bool) returns (result: string)
    ensures result == UrlEncode(data, padded)
  {
    var plain := Base64Encode(data, padded);
    result := plain;
    for i := 0 to |result|
      invariant |result| == |plain|
      invariant forall k :: 0 <= k < |plain| ==> result[k] == if k < i then UrlLetter(plain[k]) else plain[k]
    {
      result := result[i := UrlLetter(result[i])];
    }
  }

  // ----- Decoding -----

  function TrailingPadding(s: string): (n: nat)
    ensures n <= |s|
    ensures forall i :: |s| - n <= i < |s| ==> s[i] == '='
    ensures n < |s| ==> s[|s| - 1 - n] != '='
  {
    if s != "" && s[|s| - 1] == '=' then 1 + TrailingPadding(s[..|s| - 1]) else 0
  }

  predicate InAlphabet(s: string) {
    forall i :: 0 <= i < |s| ==> Base64Value(s[i]) >= 0
  }

  function ValueOf(c: char): Sextet
    requires Base64Value(c) >= 0
  {
    LetterInvertsValue(c);
    Base64Value(c) as Sextet
  }

  function Values(s: string): (v: seq<Sextet>)
    requires InAlphabet(s)
    ensures |v| == |s|
  {
    seq(|s|, i requires 0 <= i < |s| => ValueOf(s[i]))
  }

  function RequiredPadding(encodedLength: nat): nat { (4 - encodedLength % 4) % 4 }

  /** Padding is absent, or completes the last group of four characters. */
  predicate PaddingFits(length: nat, padding: nat)
    requires padding <= length
  {
    var n := length - padding;
    && padding <= 2 && n % 4 != 1
    && (padding != 0 ==> length % 4 == 0 && RequiredPadding(n) == padding)
  }

  /** The octets of an unpadded text; nothing when a character or the bits
      after the last whole octet are wrong. */
  function DecodeBody(text: string): Bytes {
    if InAlphabet(text) && Canonical(Values(text)) then Octets(Values(text)) else []
  }

  /** Rejection and the empty string both decode to nothing. */
  function Decode(s: string): Bytes {
    var padding := TrailingPadding(s);
    if s != "" && PaddingFits(|s|, padding) then DecodeBody(s[..|s| - padding]) else []
  }

  method CountPadding(input: string) returns (padding: nat)
    ensures padding == TrailingPadding(input)
  {
    padding := 0;
    while padding < |input| && input[|input| - 1 - padding] == '='
      invariant 0 <= padding <= |input|
      invariant TrailingPadding(input) == padding + TrailingPadding(input[..|input| - padding])
    {
      assert input[..|input| - padding][..|input| - padding - 1] == input[..|input| - padding - 1];
      padding := padding + 1;
    }
  }

  /** Convert.cpp, DecodeBase64Strict. */
  method DecodeBase64Strict(input: string) returns (decoded: Bytes)
    ensures decoded == Decode(input)
  {
    if |input| == 0 {
      return [];
    }
    var padding := CountPadding(input);
    if padding > 2 {
      return [];
    }
    var encodedLength := |input| - padding;
    if encodedLength % 4 == 1 {
      return [];
    }
    if padding != 0 {
      if |input| % 4 != 0 {
        return [];
      }
      if RequiredPadding(encodedLength) != padding {
        return [];
      }
    }
    assert PaddingFits(|input|, padding);
    decoded := DecodeUnpadded(input[..encodedLength]);
  }

  /** One more sextet completes an octet unless it starts a group of four. */
  lemma {:induction false} NextOctet(v: seq<Sextet>, value: Sextet)
    ensures Octets(v + [value]) == Octets(v) + Completed(Rest(v), value)
    ensures Rest(v + [value]) == NextRest(Rest(v), value)
  {
    if |v| >= 4 {
      NextOctet(v[4..], value);
      assert (v + [value])[4..] == v[4..] + [value];
    }
  }

  function Completed(r: seq<Sextet>, value: Sextet): Bytes
    requires |r| < 4
  {
    if |r| == 0 then []
    else if |r| == 1 then [Octet1(r[0], value)]
    else if |r| == 2 then [Octet2(r[1], value)]
    else [Octet3(r[2], value)]
  }

  function NextRest(r: seq<Sextet>, value: Sextet): (next: seq<Sextet>)
    requires |r| < 4
    ensures |next| < 4
  {
    if |r| == 3 then [] else r + [value]
  }

  /** How many bits wait in the accumulator in the middle of a group. */
  function Waiting(sextets: nat): nat {
    if sextets == 0 then 0 else if sextets == 1 then 6 else if sextets == 2 then 4 else 2
  }

  /** The waiting bits are the low bits of the last sextet. */
  predicate Holds(accumulator: bv32, r: seq<Sextet>)
    requires |r| < 4
  {
    && (|r| == 1 ==> accumulator & 0x3f == r[0] as bv32)
    && (|r| == 2 ==> accumulator & 0x0f == r[1] as bv32 & 0x0f)
    && (|r| == 3 ==> accumulator & 0x03 == r[2] as bv32 & 0x03)
  }

  /** One step of the accumulator: the bits it needs survive in the wrapped word. */
  method ShiftIn(accumulator: bv32, bits: nat, value: Sextet, ghost r: seq<Sextet>)
    returns (word: bv32, left: nat, octets: Bytes)
    requires |r| < 4 && Holds(accumulator, r) && bits == Waiting(|r|)
    ensures Holds(word, NextRest(r, value)) && left == Waiting(|NextRest(r, value)|)
    ensures octets == Completed(r, value)
  {
    word := (accumulator << 6) | value as bv32;
    left := bits + 6;
    octets := [];
    if left >= 8 {
      left := left - 8;
      octets := [((word >> left) & 0xff) as bv8];
    }
  }

  lemma ValuesOfPrefix(s: string, index: nat)
    requires index < |s| && InAlphabet(s[..index]) && Base64Value(s[index]) >= 0
    ensures InAlphabet(s[..index + 1]) && Values(s[..index + 1]) == Values(s[..index]) + [ValueOf(s[index])]
  {
    assert s[..index + 1] == s[..index] + [s[index]];
  }

  /** The accumulator loop of DecodeBase64Strict. The accumulator wraps at 32
      bits; only its low `bits` bits are ever read again. */
  method DecodeUnpadded(input: string) returns (decoded: Bytes)
    ensures decoded == DecodeBody(input)
  {
    decoded := [];
    var accumulator: bv32, lastValue: Sextet := 0, 0;
    var bits := 0;
    for index := 0 to |input|
      invariant InAlphabet(input[..index])
      invariant bits == Waiting(|Rest(Values(input[..index]))|)
      invariant index > 0 ==> lastValue == Values(input[..index])[index - 1]
      invariant Holds(accumulator, Rest(Values(input[..index])))
      invariant decoded == Octets(Values(input[..index]))
    {
      var value := Base64Value(input[index]);
      if value < 0 {
        return [];
      }
      ValuesOfPrefix(input, index);
      lastValue := ValueOf(input[index]);
      NextOctet(Values(input[..index]), lastValue);
      var octets;
      accumulator, bits, octets := ShiftIn(accumulator, bits, lastValue, Rest(Values(input[..index])));
      decoded := decoded + octets;
    }
    assert input[..|input|] == input;
    RestIsRemainder(Values(input));
    if (|input| % 4 == 2 && lastValue & 0x0f != 0) || (|input| % 4 == 3 && lastValue & 0x03 != 0) {
      return [];
    }
  }

  predicate IsUrlChar(c: char) {
    'A' <= c <= 'Z' || 'a' <= c <= 'z' || '0' <= c <= '9' || c == '-' || c == '_'
  }

  predicate UrlText(s: string) {
    forall i :: 0 <= i < |s| ==> IsUrlChar(s[i])
  }

  function PlainLetter(c: char): char {
    if c == '-' then '+' else if c == '_' then '/' else c
  }

  function FromUrl(s: string): (t: string)
    ensures |t| == |s|
  {
    seq(|s|, i requires 0 <= i < |s| => PlainLetter(s[i]))
  }

  function UrlDecode(value: string): Bytes {
    if value == "" || |value| % 4 == 1 || !UrlText(value) then [] else Decode(FromUrl(value))
  }

  /** Convert.cpp, Base64URLDecode: padding is never accepted. */
  method Base64UrlDecode(value: string) returns (decoded: Bytes)
    ensures decoded == UrlDecode(value)
  {
    if |value| == 0 || |value| % 4 == 1 {
      return [];
    }
    var base64 := "";
    for i := 0 to |value|
      invariant UrlText(value[..i])
      invariant base64 == FromUrl(value[..i])
    {
      var c := value[i];
      assert value[..i + 1] == value[..i] + [c];
      if 'A' <= c <= 'Z' || 'a' <= c <= 'z' || '0' <= c <= '9' {
        base64 := base64 + [c];
      } else if c == '-' {
        base64 := base64 + ['+'];
      } else if c == '_' {
        base64 := base64 + ['/'];
      } else {
        return [];
      }
    }
    assert value[..|value|] == value;
    decoded := DecodeBase64Strict(base64);
  }

  // ----- Round trips and canonicity -----

  lemma ValuesInvertText(v: seq<Sextet>)
    ensures InAlphabet(Text(v)) && Values(Text(v)) == v
  {
    forall i | 0 <= i < |v|
      ensures Base64Value(Text(v)[i]) >= 0 && ValueOf(Text(v)[i]) == v[i]
    {
      ValueInvertsLetter(v[i]);
    }
  }

  lemma TextInvertsValues(s: string)
    requires InAlphabet(s)
    ensures Text(Values(s)) == s
  {
    forall i | 0 <= i < |s|
      ensures Letter(ValueOf(s[i])) == s[i]
    {
      LetterInvertsValue(s[i]);
    }
  }

  lemma AlphabetHasNoPadding(s: string, padding: string)
    requires InAlphabet(s) && forall i :: 0 <= i < |padding| ==> padding[i] == '='
    ensures TrailingPadding(s + padding) == |padding|
  {
    if padding == [] {
      assert s + padding == s;
    } else {
      AlphabetHasNoPadding(s, padding[..|padding| - 1]);
      assert (s + padding)[..|s + padding| - 1] == s + padding[..|padding| - 1];
    }
  }

  /** Letters of `n` octets. */
  function LetterCount(n: nat): nat { (4 * n + 2) / 3 }

  lemma OneGroupMore(n: nat)
    requires n >= 3
    ensures LetterCount(n) == 4 + LetterCount(n - 3)
  {
  }

  lemma LettersInGroups(q: nat, r: nat)
    requires r < 3
    ensures LetterCount(3 * q + r) == 4 * q + if r == 0 then 0 else r + 1
  {
  }

  lemma CountLetters(n: nat)
    ensures LetterCount(n) % 4 == (if n % 3 == 0 then 0 else n % 3 + 1)
    ensures |Padding(n)| == RequiredPadding(LetterCount(n))
    ensures (LetterCount(n) + |Padding(n)|) % 4 == 0
  {
    LettersInGroups(n / 3, n % 3);
  }

  lemma {:induction false} SextetCount(b: Bytes)
    ensures |Sextets(b)| == LetterCount(|b|)
  {
    if |b| >= 3 {
      SextetCount(b[3..]);
      OneGroupMore(|b|);
    }
  }

  /** The number of letters and padding of an encoding. */
  lemma EncodedLength(b: Bytes)
    ensures |Sextets(b)| % 4 == (if |b| % 3 == 0 then 0 else |b| % 3 + 1)
    ensures (|Sextets(b)| + |Padding(|b|)|) % 4 == 0
    ensures |Padding(|b|)| == RequiredPadding(|Sextets(b)|)
    ensures |Sextets(b)| == (4 * |b| + 2) / 3
  {
    SextetCount(b);
    CountLetters(|b|);
  }

  lemma RequiredPaddingFits(n: nat, padding: nat)
    requires n % 4 != 1 && padding <= 2 && (padding == 0 || padding == RequiredPadding(n))
    ensures PaddingFits(n + padding, padding)
  {
  }

  lemma BodyDecodes(v: seq<Sextet>)
    requires Canonical(v)
    ensures DecodeBody(Text(v)) == Octets(v)
  {
    ValuesInvertText(v);
  }

  lemma PaddedBodyDecodes(body: string, padding: string)
    requires InAlphabet(body) && PaddingFits(|body| + |padding|, |padding|)
    requires forall i :: 0 <= i < |padding| ==> padding[i] == '='
    ensures Decode(body + padding) == DecodeBody(body)
  {
    var s := body + padding;
    AlphabetHasNoPadding(body, padding);
    DecodeIsOfBody(s, |padding|);
    assert s[..|s| - |padding|] == body;
  }

  lemma DecodeOfText(v: seq<Sextet>, padding: string)
    requires Canonical(v) && |v| % 4 != 1 && |padding| <= 2
    requires forall i :: 0 <= i < |padding| ==> padding[i] == '='
    requires padding == "" || |padding| == RequiredPadding(|v|)
    ensures Decode(Text(v) + padding) == Octets(v)
  {
    RequiredPaddingFits(|v|, |padding|);
    ValuesInvertText(v);
    PaddedBodyDecodes(Text(v), padding);
    BodyDecodes(v);
  }

  lemma DecodeIsOfBody(s: string, padding: nat)
    requires padding <= |s| && TrailingPadding(s) == padding && PaddingFits(|s|, padding)
    ensures Decode(s) == DecodeBody(s[..|s| - padding])
  {
    if s == "" {
      assert s[..|s| - padding] == "" && Values("") == [];
    }
  }

  /** Decoding inverts encoding, padded or not. */
  lemma DecodeInvertsEncode(b: Bytes, padded: bool)
    ensures Decode(Encode(b, padded)) == b
  {
    OctetsInvertSextets(b);
    SextetsAreCanonical(b);
    EncodedLength(b);
    DecodeOfText(Sextets(b), if padded then Padding(|b|) else "");
  }

  /** What acceptance says about the letters before the padding. */
  lemma DecodedBody(s: string)
    requires Decode(s) != []
    ensures
      var padding := TrailingPadding(s);
      var body := s[..|s| - padding];
      && InAlphabet(body) && Canonical(Values(body)) && |body| % 4 != 1
      && Decode(s) == Octets(Values(body))
      && (padding != 0 ==> padding == RequiredPadding(|body|))
  {
  }

  lemma BodyIsText(body: string)
    requires InAlphabet(body) && Canonical(Values(body)) && |body| % 4 != 1
    ensures Encode(Octets(Values(body)), false) == body
    ensures |Padding(|Octets(Values(body))|)| == RequiredPadding(|body|)
  {
    var v := Values(body);
    RestIsRemainder(v);
    SextetsInvertOctets(v);
    TextInvertsValues(body);
    EncodedLength(Octets(v));
  }

  /** A non-empty result has one text with padding and one without. */
  lemma EncodeInvertsDecode(s: string)
    requires Decode(s) != []
    ensures s == Encode(Decode(s), TrailingPadding(s) > 0)
  {
    DecodedBody(s);
    var n := |s| - TrailingPadding(s);
    BodyIsText(s[..n]);
    PaddedAgain(s, Decode(s), n);
  }

  lemma PaddedAgain(s: string, b: Bytes, n: nat)
    requires n <= |s| && s[..n] == Encode(b, false)
    requires forall i :: n <= i < |s| ==> s[i] == '='
    requires n < |s| ==> |s| - n == |Padding(|b|)|
    ensures s == Encode(b, n < |s|)
  {
    assert s == s[..n] + s[n..];
    if n < |s| {
      SamePadding(s[n..], Padding(|b|), |s| - n);
    }
  }

  lemma SamePadding(s: string, t: string, n: nat)
    requires |s| == n && forall i :: 0 <= i < n ==> s[i] == '='
    requires forall i :: 0 <= i < |t| ==> t[i] == '='
    ensures n > 0 && |t| == n ==> s == t
    ensures n == 0 ==> s == ""
  {
  }

  lemma UrlLettersInvert(s: string)
    requires InAlphabet(s)
    ensures UrlText(ToUrl(s)) && FromUrl(ToUrl(s)) == s
  {
    forall i | 0 <= i < |s|
      ensures IsUrlChar(ToUrl(s)[i]) && PlainLetter(ToUrl(s)[i]) == s[i]
    {
      assert Base64Value(s[i]) >= 0;
    }
  }

  lemma PlainLettersInvert(s: string)
    requires UrlText(s)
    ensures InAlphabet(FromUrl(s)) && ToUrl(FromUrl(s)) == s
    ensures TrailingPadding(FromUrl(s)) == 0
  {
    forall i | 0 <= i < |s|
      ensures Base64Value(FromUrl(s)[i]) >= 0 && UrlLetter(FromUrl(s)[i]) == s[i]
    {
      assert IsUrlChar(s[i]);
    }
    assert FromUrl(s) + "" == FromUrl(s);
    AlphabetHasNoPadding(FromUrl(s), "");
  }

  /** Unpadded Base64URL: decoding inverts encoding. */
  lemma UrlDecodeInvertsUrlEncode(b: Bytes)
    ensures UrlDecode(UrlEncode(b, false)) == b
    ensures |UrlEncode(b, false)| == (4 * |b| + 2) / 3
  {
    EncodedLength(b);
    ValuesInvertText(Sextets(b));
    assert Encode(b, false) == Text(Sextets(b));
    UrlLettersInvert(Text(Sextets(b)));
    DecodeInvertsEncode(b, false);
  }

  /** Every text with a non-empty decoding is the encoding of it. */
  lemma UrlEncodeInvertsUrlDecode(s: string)
    requires UrlDecode(s) != []
    ensures s == UrlEncode(UrlDecode(s), false)
  {
    PlainLettersInvert(s);
    EncodeInvertsDecode(FromUrl(s));
  }

  /** Comparing Base64URL texts is comparing the octets they stand for. */
  lemma UrlTextsAreCanonicalNames(s: string, t: string)
    requires UrlDecode(s) != [] && UrlDecode(t) != []
    ensures s == t <==> UrlDecode(s) == UrlDecode(t)
  {
    UrlEncodeInvertsUrlDecode(s);
    UrlEncodeInvertsUrlDecode(t);
  }
}
