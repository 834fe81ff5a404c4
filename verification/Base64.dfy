/** Base64 (section 4 of RFC 4648) and the program's length arithmetic around it. */
module Base64 {
  import opened CLib

  // ---- The encoding itself ---------------------------------------------------------------------------

  type Sextet = x: int | 0 <= x < 64

  function SextetChar(x: Sextet): char {
    if x < 26 then ('A' as int + x) as char
    else if x < 52 then ('a' as int + (x - 26)) as char
    else if x < 62 then ('0' as int + (x - 52)) as char
    else if x == 62 then '+' else '/'
  }

  predicate IsAlphabetChar(c: char) {
    'A' <= c <= 'Z' || 'a' <= c <= 'z' || '0' <= c <= '9' || c == '+' || c == '/'
  }

  function CharSextet(c: char): Sextet
    requires IsAlphabetChar(c)
  {
    if 'A' <= c <= 'Z' then c as int - 'A' as int
    else if 'a' <= c <= 'z' then c as int - 'a' as int + 26
    else if '0' <= c <= '9' then c as int - '0' as int + 52
    else if c == '+' then 62 else 63
  }

  type Octet = x: int | 0 <= x < 256

  /** The second and third sextet of a group straddle octets. */
  function Sextet1(a: Octet, b: Octet): Sextet { a % 4 * 16 + b / 16 }
  function Sextet2(b: Octet, c: Octet): Sextet { b % 16 * 4 + c / 64 }

  function EncodeTriple(a: Octet, b: Octet, c: Octet): (e: string)
    ensures |e| == 4
  {
    [SextetChar(a / 4), SextetChar(Sextet1(a, b)), SextetChar(Sextet2(b, c)), SextetChar(c % 64)]
  }

  predicate IsOctets(s: string) {
    forall k :: 0 <= k < |s| ==> s[k] as int < 256
  }

  /** The bits of the input six at a time, the last group filled up with `=`. */
  function Encode(s: string): string
    requires IsOctets(s)
  {
    if s == "" then ""
    else if |s| == 1 then EncodeTriple(s[0] as int, 0, 0)[..2] + "=="
    else if |s| == 2 then EncodeTriple(s[0] as int, s[1] as int, 0)[..3] + "="
    else EncodeTriple(s[0] as int, s[1] as int, s[2] as int) + Encode(s[3..])
  }

  function DecodeQuad(w: Sextet, x: Sextet, y: Sextet, z: Sextet): (d: string)
    ensures |d| == 3
  {
    [(w * 4 + x / 16) as char, (x % 16 * 16 + y / 4) as char, (y % 4 * 64 + z) as char]
  }

  /** `None` for text that is not groups of four alphabet characters, the last one possibly padded. */
  function Decode(s: string): Option<string> {
    if s == "" then Some("")
    else if |s| < 4 || !IsAlphabetChar(s[0]) || !IsAlphabetChar(s[1]) then None
    else if |s| == 4 && s[2] == '=' && s[3] == '=' then
      Some(DecodeQuad(CharSextet(s[0]), CharSextet(s[1]), 0, 0)[..1])
    else if !IsAlphabetChar(s[2]) then None
    else if |s| == 4 && s[3] == '=' then
      Some(DecodeQuad(CharSextet(s[0]), CharSextet(s[1]), CharSextet(s[2]), 0)[..2])
    else if !IsAlphabetChar(s[3]) then None
    else
      match Decode(s[4..])
      case None => None
      case Some(rest) => Some(DecodeQuad(CharSextet(s[0]), CharSextet(s[1]), CharSextet(s[2]), CharSextet(s[3])) + rest)
  }

  lemma SextetRoundTrip(x: Sextet)
    ensures IsAlphabetChar(SextetChar(x)) && CharSextet(SextetChar(x)) == x
  {
  }

  lemma OctetsFromSextets(a: Octet, b: Octet, c: Octet)
    ensures DecodeQuad(a / 4, Sextet1(a, b), Sextet2(b, c), c % 64) == [a as char, b as char, c as char]
  {
    var x, y := Sextet1(a, b), Sextet2(b, c);
    assert x / 16 == a % 4 && x % 16 == b / 16;
    assert y / 4 == b % 16 && y % 4 == c / 64;
    assert a / 4 * 4 + a % 4 == a && b / 16 * 16 + b % 16 == b && c / 64 * 64 + c % 64 == c;
  }

  /** The four sextets are the 24 bits of the group, most significant first. */
  lemma SextetsAreTheBits(a: Octet, b: Octet, c: Octet)
    ensures (a * 256 + b) * 256 + c == (((a / 4) * 64 + Sextet1(a, b)) * 64 + Sextet2(b, c)) * 64 + c % 64
  {
    assert a / 4 * 4 + a % 4 == a && b / 16 * 16 + b % 16 == b && c / 64 * 64 + c % 64 == c;
  }

  /** One group of three octets, through four characters and back. */
  lemma TripleRoundTrip(a: Octet, b: Octet, c: Octet)
    ensures var e := EncodeTriple(a, b, c);
            && IsAlphabetChar(e[0]) && IsAlphabetChar(e[1]) && IsAlphabetChar(e[2]) && IsAlphabetChar(e[3])
            && DecodeQuad(CharSextet(e[0]), CharSextet(e[1]), CharSextet(e[2]), CharSextet(e[3]))
               == [a as char, b as char, c as char]
            && CharSextet(e[2]) == Sextet2(b, c) && CharSextet(e[3]) == c % 64
  {
    hide SextetChar, CharSextet, IsAlphabetChar, DecodeQuad, Sextet1, Sextet2;
    OctetsFromSextets(a, b, c);
    var w: Sextet, z: Sextet := a / 4, c % 64;
    SextetRoundTrip(w);
    SextetRoundTrip(Sextet1(a, b));
    SextetRoundTrip(Sextet2(b, c));
    SextetRoundTrip(z);
  }

  function CeilThirds(n: nat): nat { (n + 2) / 3 }

  lemma CeilThirdsStep(n: nat)
    ensures CeilThirds(n + 3) == CeilThirds(n) + 1
  {
  }

  lemma CeilThirdsBound(n: nat)
    requires n <= 3072
    ensures 4 * CeilThirds(n) <= MAX_LEN
  {
  }

  /** The illustrations of section 9 of RFC 4648. */
  lemma Illustrations()
    ensures Encode([0x14 as char, 0xfb as char, 0x9c as char, 0x03 as char, 0xd9 as char, 0x7e as char]) == "FPucA9l+"
    ensures Encode([0x14 as char, 0xfb as char, 0x9c as char, 0x03 as char, 0xd9 as char]) == "FPucA9k="
    ensures Encode([0x14 as char, 0xfb as char, 0x9c as char, 0x03 as char]) == "FPucAw=="
  {
    var head := [0x14 as char, 0xfb as char, 0x9c as char];
    var t1, t2, t3: string := [0x03 as char, 0xd9 as char, 0x7e as char], [0x03 as char, 0xd9 as char], [0x03 as char];
    assert (head + t1)[3..] == t1 && (head + t2)[3..] == t2 && (head + t3)[3..] == t3 && t1[3..] == "";
    assert head + t1 == [0x14 as char, 0xfb as char, 0x9c as char, 0x03 as char, 0xd9 as char, 0x7e as char];
    assert head + t2 == [0x14 as char, 0xfb as char, 0x9c as char, 0x03 as char, 0xd9 as char];
    assert head + t3 == [0x14 as char, 0xfb as char, 0x9c as char, 0x03 as char];
    assert Encode("") == "";
    assert EncodeTriple(0x14, 0xfb, 0x9c) == "FPuc";
    assert Encode(t1) == "A9l+" && Encode(t2) == "A9k=" && Encode(t3) == "Aw==";
  }

  /** A test vector of its section 10, and the last character of the alphabet. */
  lemma TestVectors()
    ensures Encode("foobar") == "Zm9vYmFy"
    ensures Encode([0xff as char, 0xff as char, 0xff as char]) == "////"
  {
    assert "foobar"[3..] == "bar" && "bar"[3..] == "";
    assert Encode("bar") == "YmFy" && EncodeTriple('f' as int, 'o' as int, 'o' as int) == "Zm9v";
    assert [0xff as char, 0xff as char, 0xff as char][3..] == "";
  }

  lemma {:induction false} EncodeLength(s: string)
    requires IsOctets(s)
    ensures |Encode(s)| == 4 * CeilThirds(|s|)
  {
    hide EncodeTriple;
    if |s| > 2 {
      EncodeLength(s[3..]);
      CeilThirdsStep(|s| - 3);
    }
  }

  lemma EncodeHead(s: string)
    requires IsOctets(s) && |s| >= 3
    ensures |Encode(s)| >= 4 && Encode(s)[4..] == Encode(s[3..])
    ensures Encode(s)[..4] == EncodeTriple(s[0] as int, s[1] as int, s[2] as int)
  {
    hide EncodeTriple;
  }

  lemma EncodeShort(s: string)
    requires IsOctets(s) && 1 <= |s| <= 2
    ensures |s| == 1 ==> var t := EncodeTriple(s[0] as int, 0, 0); Encode(s) == [t[0], t[1], '=', '=']
    ensures |s| == 2 ==> var t := EncodeTriple(s[0] as int, s[1] as int, 0); Encode(s) == [t[0], t[1], t[2], '=']
  {
    hide EncodeTriple;
  }

  lemma DecodePadded(c0: char, c1: char, c2: char)
    requires IsAlphabetChar(c0) && IsAlphabetChar(c1)
    ensures Decode([c0, c1, '=', '=']) == Some(DecodeQuad(CharSextet(c0), CharSextet(c1), 0, 0)[..1])
    ensures IsAlphabetChar(c2) ==>
              Decode([c0, c1, c2, '=']) == Some(DecodeQuad(CharSextet(c0), CharSextet(c1), CharSextet(c2), 0)[..2])
  {
    hide DecodeQuad, CharSextet;
  }

  lemma DecodeOfShort(s: string)
    requires IsOctets(s) && 1 <= |s| <= 2
    ensures Decode(Encode(s)) == Some(s)
  {
    hide EncodeTriple, DecodeQuad, CharSextet, IsAlphabetChar, Encode, Decode;
    EncodeShort(s);
    var a, b := s[0] as int, if |s| == 1 then 0 else s[1] as int;
    TripleRoundTrip(a, b, 0);
    var t := EncodeTriple(a, b, 0);
    DecodePadded(t[0], t[1], t[2]);
    var three := [a as char, b as char, 0 as char];
    assert three[..1] == [a as char] && three[..2] == [a as char, b as char];
    assert s == three[..|s|];
  }

  lemma NotPadding(c: char)
    requires IsAlphabetChar(c)
    ensures c != '='
  {
  }

  lemma DecodeGroup(t: string, rest: string)
    requires |t| == 4 && IsAlphabetChar(t[0]) && IsAlphabetChar(t[1]) && IsAlphabetChar(t[2]) && IsAlphabetChar(t[3])
    requires Decode(rest).Some?
    ensures Decode(t + rest)
         == Some(DecodeQuad(CharSextet(t[0]), CharSextet(t[1]), CharSextet(t[2]), CharSextet(t[3]))
                 + Decode(rest).value)
  {
    NotPadding(t[2]);
    NotPadding(t[3]);
    hide DecodeQuad, CharSextet, IsAlphabetChar;
    assert (t + rest)[4..] == rest;
  }

  /** The first group of a longer string, through its four characters and back. */
  lemma HeadRoundTrip(s: string)
    requires IsOctets(s) && |s| >= 3
    ensures var t := EncodeTriple(s[0] as int, s[1] as int, s[2] as int);
            && IsAlphabetChar(t[0]) && IsAlphabetChar(t[1]) && IsAlphabetChar(t[2]) && IsAlphabetChar(t[3])
            && DecodeQuad(CharSextet(t[0]), CharSextet(t[1]), CharSextet(t[2]), CharSextet(t[3])) == s[..3]
  {
    hide EncodeTriple, DecodeQuad, CharSextet, IsAlphabetChar, Encode, Decode;
    var a, b, c := s[0] as int, s[1] as int, s[2] as int;
    TripleRoundTrip(a, b, c);
    assert s[..3] == [a as char, b as char, c as char];
  }

  /** Decoding undoes encoding, for every octet string. */
  lemma {:induction false} DecodeOfEncode(s: string)
    requires IsOctets(s)
    ensures Decode(Encode(s)) == Some(s)
  {
    if |s| < 3 {
      if s != "" {
        DecodeOfShort(s);
      }
    } else {
      hide EncodeTriple, DecodeQuad, CharSextet, IsAlphabetChar, Encode, Decode;
      var t := EncodeTriple(s[0] as int, s[1] as int, s[2] as int);
      HeadRoundTrip(s);
      EncodeHead(s);
      DecodeOfEncode(s[3..]);
      var e := Encode(s);
      assert e == e[..4] + e[4..];
      DecodeGroup(t, e[4..]);
      assert s == s[..3] + s[3..];
    }
  }

  // ---- The program's wrappers ------------------------------------------------------------------------

  /** `calcDecodeLength`: the product with 0.75 is cut to an integer after the padding is taken off. */
  function CalcDecodeLength(b64input: string): int {
    var len := |CStrN(b64input)|;
    if len < 4 then 0
    else
      var padding := if b64input[len - 1] == '=' && b64input[len - 2] == '=' then 2
                     else if b64input[len - 1] == '=' then 1 else 0;
      (3 * len - 4 * padding) / 4
  }

  /** The `encodedSize` arithmetic of `Base64EncodeWithLength`. */
  function EncodedSize(length: nat): nat { 4 * CeilThirds(length) }

  /** `Base64Encode`, which looks at the first `MAX_LEN` characters only. */
  function Base64Encode(message: string): string
    requires IsOctets(message)
  {
    Encode(CStrN(message))
  }

  /** `Base64Decode`: `None` is its error return. */
  function Base64Decode(b64message: string): Option<string> {
    var decodeLen := CalcDecodeLength(b64message);
    if decodeLen == 0 then Some("")
    else
      match Decode(CStrN(b64message))
      case None => None
      case Some(d) => if |d| == decodeLen then Some(d) else None
  }

  lemma CStrNOfText(s: string)
    requires forall k :: 0 <= k < |s| ==> s[k] != NUL
    ensures CStrN(s) == s[..Min(|s|, MAX_LEN)]
  {
    var t := s[..Min(|s|, MAX_LEN)];
    CStrOfTerminated(t, "");
    assert t + "" == t;
  }

  /** Whatever text decodes has the length the padding announces. */
  lemma {:induction false} DecodedLength(s: string)
    requires Decode(s).Some?
    ensures |s| % 4 == 0
    ensures |s| > 0 ==>
            4 * |Decode(s).value|
              == 3 * |s| - (if s[|s| - 1] == '=' && s[|s| - 2] == '=' then 8 else if s[|s| - 1] == '=' then 4 else 0)
    ensures |s| == 0 ==> Decode(s).value == ""
  {
    hide IsAlphabetChar, CharSextet, DecodeQuad;
    if |s| > 4 {
      DecodedLength(s[4..]);
      assert s[4..][|s| - 5] == s[|s| - 1];
      assert |s| > 5 ==> s[4..][|s| - 6] == s[|s| - 2];
    }
  }

  lemma {:induction false} DecodableHasNoNul(s: string)
    requires Decode(s).Some?
    ensures forall k :: 0 <= k < |s| ==> s[k] != NUL
  {
    if |s| > 4 {
      DecodableHasNoNul(s[4..]);
      assert forall k :: 4 <= k < |s| ==> s[k] == s[4..][k - 4];
    }
  }

  /** The anticipated-length check never rejects well-formed text that fits the 4096-character limit. */
  lemma LengthCheckAccepts(s: string)
    requires |s| <= MAX_LEN && Decode(s).Some?
    ensures CalcDecodeLength(s) == |Decode(s).value|
    ensures Base64Decode(s) == Decode(s)
  {
    DecodableHasNoNul(s);
    CStrNOfText(s);
    assert s[..|s|] == s;
    DecodedLength(s);
  }

  /** Splitting the encoding after whole triples. */
  lemma {:induction false} EncodePrefix(s: string, n: nat)
    requires IsOctets(s) && 3 * n <= |s|
    ensures 4 * n <= |Encode(s)| && Encode(s)[..4 * n] == Encode(s[..3 * n])
  {
    if n == 0 {
      assert s[..0] == "";
    } else {
      EncodeHead(s);
      EncodePrefix(s[3..], n - 1);
      EncodeHead(s[..3 * n]);
      assert s[..3 * n][3..] == s[3..][..3 * (n - 1)];
      assert s[..3 * n][0] == s[0] && s[..3 * n][1] == s[1] && s[..3 * n][2] == s[2];
      var e := Encode(s);
      assert e[..4 * n] == e[..4] + e[4..][..4 * (n - 1)];
      assert Encode(s[..3 * n]) == Encode(s[..3 * n])[..4] + Encode(s[..3 * n])[4..];
    }
  }

  /**
   * The two limits together: what `Base64Decode` recovers from `Base64Encode` is the first 3072
   * characters, for every C string.
   */
  lemma CappedRoundTrip(x: string)
    requires IsCString(x)
    ensures Base64Decode(Base64Encode(x)) == Some(x[..Min(|x|, 3072)])
  {
    hide Encode, Decode;
    CStrNOfText(x);
    var y := x[..Min(|x|, MAX_LEN)];
    var e := Encode(y);
    EncodeLength(y);
    var z := x[..Min(|x|, 3072)];
    if |x| <= 3072 {
      assert y == x && z == x;
    } else {
      EncodePrefix(y, 1024);
      assert y[..3072] == z;
    }
    EncodeLength(z);
    DecodeOfEncode(z);
    assert e[..Min(|e|, MAX_LEN)] == Encode(z);
    LengthCheckAccepts(Encode(z));
    SameUnderLimit(e, Encode(z));
  }

  /** Text beyond the limit is not looked at. */
  lemma SameUnderLimit(e: string, f: string)
    requires f == e[..Min(|e|, MAX_LEN)]
    ensures Base64Decode(e) == Base64Decode(f)
  {
    assert f[..Min(|f|, MAX_LEN)] == f;
    assert CStrN(e) == CStrN(f);
    assert |CStrN(e)| <= |f|;
  }

  /** Hence exactly the strings of at most 3072 characters survive. */
  lemma SurvivesIffShort(x: string)
    requires IsCString(x)
    ensures Base64Decode(Base64Encode(x)) == Some(x) <==> |x| <= 3072
  {
    CappedRoundTrip(x);
    hide Encode, Decode, Base64Decode, Base64Encode;
    if |x| <= 3072 {
      assert x[..|x|] == x;
    } else {
      assert |x[..3072]| != |x|;
    }
  }

  /** The buffer `Base64EncodeWithLength` allocates is the size of the encoding, padding included. */
  lemma EncodedSizeIsExact(x: string)
    requires IsOctets(x)
    ensures |Encode(x)| == EncodedSize(|x|)
    ensures |x| <= 3072 ==> CalcDecodeLength(Encode(x)) == |x|
  {
    EncodeLength(x);
    DecodeOfEncode(x);
    hide Encode, Decode, CalcDecodeLength, CeilThirds;
    if |x| <= 3072 {
      CeilThirdsBound(|x|);
      LengthCheckAccepts(Encode(x));
    }
  }
}
