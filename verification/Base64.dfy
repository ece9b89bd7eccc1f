/**
 Base64 as the witness code uses it, and its armour of fixed-length lines.  Bit masks and
 shifts on 8-bit values are written as quotients and remainders.
 */
module Base64 {
  import opened EventLog
  import opened Sequences
  import opened Characters

  type Byte = b: nat | b < 256
  type Sextet = x: nat | x < 64

  // ------------------------------------------------------------------------ characters

  /** The alphabet: upper case, lower case, digits, plus and slash. */
  function CharOf(x: Sextet): char {
    if x < 26 then ('A' as int + x) as char
    else if x < 52 then ('a' as int + x - 26) as char
    else if x < 62 then ('0' as int + x - 52) as char
    else if x == 62 then '+'
    else '/'
  }

  predicate IsBase64(c: char) {
    'A' <= c <= 'Z' || 'a' <= c <= 'z' || '0' <= c <= '9' || c == '+' || c == '/'
  }

  /** The position of a character in the alphabet. */
  function ValueOf(c: char): Sextet
    requires IsBase64(c)
  {
    if 'A' <= c <= 'Z' then c as int - 'A' as int
    else if 'a' <= c <= 'z' then c as int - 'a' as int + 26
    else if '0' <= c <= '9' then c as int - '0' as int + 52
    else if c == '+' then 62
    else 63
  }

  lemma CharRoundTrip(x: Sextet)
    ensures IsBase64(CharOf(x)) && ValueOf(CharOf(x)) == x
  {
  }

  /** The alphabet, written out. */
  const ALPHABET: string := UPPER + LOWER + DIGITS + "+/"

  /** A sextet is written as the character at its place in the alphabet. */
  lemma CharOfIsEntry(x: Sextet)
    ensures |ALPHABET| == 64 && CharOf(x) == ALPHABET[x]
  {
    RowsAre();
    assert ALPHABET == Row(65, 26) + Row(97, 26) + Row(48, 10) + "+/";
    if x < 26 {
      RowAt(65, 26, x);
    } else if x < 52 {
      RowAt(97, 26, x - 26);
    } else if x < 62 {
      RowAt(48, 10, x - 52);
    }
  }

  /** The characters read are those of the alphabet, each as its place. */
  lemma ValueOfIsPlace(c: char)
    ensures IsBase64(c) <==> c in ALPHABET
    ensures |ALPHABET| == 64 && (IsBase64(c) ==> ALPHABET[ValueOf(c)] == c && forall x: Sextet :: ALPHABET[x] == c ==> x == ValueOf(c))
  {
    var entries := ALPHABET;
    CharOfIsEntry(0);
    if IsBase64(c) {
      CharOfIsEntry(ValueOf(c));
      assert entries[ValueOf(c)] == c;
    }
    forall x: Sextet | entries[x] == c ensures IsBase64(c) && x == ValueOf(c) {
      CharOfIsEntry(x);
      CharRoundTrip(x);
    }
  }

  function Text(xs: seq<Sextet>): (s: string)
    ensures |s| == |xs|
  {
    seq(|xs|, i requires 0 <= i < |xs| => CharOf(xs[i]))
  }

  predicate AllBase64(s: string) {
    forall i | 0 <= i < |s| :: IsBase64(s[i])
  }

  function Values(s: string): (xs: seq<Sextet>)
    requires AllBase64(s)
    ensures |xs| == |s|
  {
    seq(|s|, i requires 0 <= i < |s| => ValueOf(s[i]))
  }

  lemma TextRoundTrip(xs: seq<Sextet>)
    ensures AllBase64(Text(xs)) && Values(Text(xs)) == xs
  {
    forall i | 0 <= i < |xs| ensures IsBase64(Text(xs)[i]) && ValueOf(Text(xs)[i]) == xs[i] {
      CharRoundTrip(xs[i]);
    }
  }

  // ------------------------------------------------------------------------ groups

  // three bytes as four sextets, and back
  function S0(a: Byte): Sextet { a / 4 }
  function S1(a: Byte, b: Byte): Sextet { a % 4 * 16 + b / 16 }
  function S2(b: Byte, c: Byte): Sextet { b % 16 * 4 + c / 64 }
  function S3(c: Byte): Sextet { c % 64 }

  function B0(p: Sextet, q: Sextet): Byte { p * 4 + q / 16 }
  function B1(q: Sextet, r: Sextet): Byte { q % 16 * 16 + r / 4 }
  function B2(r: Sextet, s: Sextet): Byte { r % 4 * 64 + s }

  lemma FirstByte(a: Byte, b: Byte)
    ensures B0(S0(a), S1(a, b)) == a
  {
  }

  lemma SecondByte(a: Byte, b: Byte, c: Byte)
    ensures B1(S1(a, b), S2(b, c)) == b
  {
    assert S1(a, b) % 16 == b / 16;
    assert S2(b, c) / 4 == b % 16;
  }

  lemma ThirdByte(b: Byte, c: Byte)
    ensures B2(S2(b, c), S3(c)) == c
  {
    assert S2(b, c) % 4 == c / 64;
  }

  /** A missing byte counts as zero, and its sextets are left away. */
  function Sextets(bytes: seq<Byte>): seq<Sextet> {
    if |bytes| == 0 then []
    else if |bytes| == 1 then [S0(bytes[0]), S1(bytes[0], 0)]
    else if |bytes| == 2 then [S0(bytes[0]), S1(bytes[0], bytes[1]), S2(bytes[1], 0)]
    else [S0(bytes[0]), S1(bytes[0], bytes[1]), S2(bytes[1], bytes[2]), S3(bytes[2])] + Sextets(bytes[3..])
  }

  /** A sextet left alone at the end stands for nothing. */
  function BytesOf(xs: seq<Sextet>): seq<Byte> {
    if |xs| < 2 then []
    else if |xs| == 2 then [B0(xs[0], xs[1])]
    else if |xs| == 3 then [B0(xs[0], xs[1]), B1(xs[1], xs[2])]
    else [B0(xs[0], xs[1]), B1(xs[1], xs[2]), B2(xs[2], xs[3])] + BytesOf(xs[4..])
  }

  lemma BytesOfGroup(p: Sextet, q: Sextet, r: Sextet, s: Sextet, xs: seq<Sextet>)
    ensures BytesOf([p, q, r, s] + xs) == [B0(p, q), B1(q, r), B2(r, s)] + BytesOf(xs)
  {
    assert ([p, q, r, s] + xs)[4..] == xs;
  }

  lemma SextetsOfGroup(a: Byte, b: Byte, c: Byte, bytes: seq<Byte>)
    ensures Sextets([a, b, c] + bytes) == [S0(a), S1(a, b), S2(b, c), S3(c)] + Sextets(bytes)
  {
    assert ([a, b, c] + bytes)[3..] == bytes;
  }

  lemma BytesOfPart(p: Sextet, q: Sextet, r: Sextet)
    ensures BytesOf([p, q]) == [B0(p, q)] && BytesOf([p, q, r]) == [B0(p, q), B1(q, r)]
  {
  }

  lemma OneByte(a: Byte)
    ensures BytesOf(Sextets([a])) == [a] && |Sextets([a])| < 4
  {
    var z: Byte := 0;
    FirstByte(a, z);
    BytesOfPart(S0(a), S1(a, z), z);
  }

  lemma TwoBytes(a: Byte, b: Byte)
    ensures BytesOf(Sextets([a, b])) == [a, b] && |Sextets([a, b])| < 4
  {
    FirstByte(a, b);
    SecondByte(a, b, 0);
    BytesOfPart(S0(a), S1(a, b), S2(b, 0));
  }

  lemma {:induction false} SextetsRoundTrip(bytes: seq<Byte>)
    ensures BytesOf(Sextets(bytes)) == bytes
    ensures |Sextets(bytes)| >= 4 <==> |bytes| >= 3
    decreases |bytes|
  {
    if |bytes| == 1 {
      OneByte(bytes[0]);
      assert bytes == [bytes[0]];
    } else if |bytes| == 2 {
      TwoBytes(bytes[0], bytes[1]);
      assert bytes == [bytes[0], bytes[1]];
    } else if |bytes| >= 3 {
      var a, b, c, rest := bytes[0], bytes[1], bytes[2], bytes[3..];
      assert bytes == [a, b, c] + rest;
      SextetsOfGroup(a, b, c, rest);
      BytesOfGroup(S0(a), S1(a, b), S2(b, c), S3(c), Sextets(rest));
      FirstByte(a, b);
      SecondByte(a, b, c);
      ThirdByte(b, c);
      SextetsRoundTrip(rest);
    }
  }

  // -------------------------------------------------------------- encoding and decoding

  function Padding(n: nat): string {
    if n % 3 == 1 then "==" else if n % 3 == 2 then "=" else ""
  }

  /** `base64_encode`. */
  function Encode(bytes: seq<Byte>): string {
    Text(Sextets(bytes)) + Padding(|bytes|)
  }

  /** Everything before the first character that is not of the alphabet. */
  function Prefix(s: string): (p: string)
    ensures AllBase64(p) && p <= s && (|p| == |s| || !IsBase64(s[|p|]))
  {
    if s != "" && IsBase64(s[0]) then [s[0]] + Prefix(s[1..]) else ""
  }

  /** `base64_decode`: too short a prefix is an error. */
  function Decode(s: string): Option<seq<Byte>> {
    if |Prefix(s)| < 4 then None else Some(BytesOf(Values(Prefix(s))))
  }

  lemma {:induction false} PrefixOfGood(s: string, t: string)
    requires AllBase64(s) && (t == "" || !IsBase64(t[0]))
    ensures Prefix(s + t) == s
  {
    if s == "" {
      assert s + t == t;
    } else {
      assert AllBase64(s[1..]) && (s + t)[1..] == s[1..] + t;
      PrefixOfGood(s[1..], t);
    }
  }

  /** Decoding undoes encoding exactly for three bytes or more; anything shorter is refused. */
  lemma RoundTripIff(bytes: seq<Byte>)
    ensures Decode(Encode(bytes)) == if |bytes| >= 3 then Some(bytes) else None
  {
    var xs := Sextets(bytes);
    SextetsRoundTrip(bytes);
    TextRoundTrip(xs);
    PrefixOfGood(Text(xs), Padding(|bytes|));
  }

  // ------------------------------------------------- character by character, byte by byte

  /** A byte that is missing counts as zero. */
  function ByteAt(bytes: seq<Byte>, i: nat): Byte {
    if i < |bytes| then bytes[i] else 0
  }

  /** The 24-bit number of the `g`-th three bytes. */
  function Number(bytes: seq<Byte>, g: nat): nat {
    65536 * ByteAt(bytes, 3 * g) + 256 * ByteAt(bytes, 3 * g + 1) + ByteAt(bytes, 3 * g + 2)
  }

  /** The `i`-th digit of `n` to the base 64, counted from the right, and to the base 256. */
  function Digit64(n: nat, i: nat): Sextet
    decreases i
  {
    if i == 0 then n % 64 else Digit64(n / 64, i - 1)
  }

  function Digit256(n: nat, i: nat): Byte
    decreases i
  {
    if i == 0 then n % 256 else Digit256(n / 256, i - 1)
  }

  lemma FourDigits(p: Sextet, q: Sextet, r: Sextet, s: Sextet, n: nat)
    requires n == 64 * (64 * (64 * p + q) + r) + s
    ensures Digit64(n, 3) == p && Digit64(n, 2) == q && Digit64(n, 1) == r && Digit64(n, 0) == s
  {
    var n1 := 64 * (64 * p + q) + r;
    var n2 := 64 * p + q;
    assert n / 64 == n1 && n % 64 == s;
    assert n1 / 64 == n2 && n1 % 64 == r;
    assert n2 / 64 == p && n2 % 64 == q;
    assert Digit64(n, 1) == Digit64(n1, 0);
    assert Digit64(n, 2) == Digit64(n1, 1) == Digit64(n2, 0);
    assert Digit64(n, 3) == Digit64(n1, 2) == Digit64(n2, 1) == Digit64(p, 0);
  }

  /** The sextets of three bytes are the digits of their number to the base 64. */
  lemma GroupDigits(a: Byte, b: Byte, c: Byte)
    ensures var n := 65536 * a + 256 * b + c;
            Digit64(n, 3) == S0(a) && Digit64(n, 2) == S1(a, b) && Digit64(n, 1) == S2(b, c) && Digit64(n, 0) == S3(c)
  {
    assert a == 4 * S0(a) + a % 4 && b == 16 * (b / 16) + b % 16 && c == 64 * (c / 64) + S3(c);
    FourDigits(S0(a), S1(a, b), S2(b, c), S3(c), 65536 * a + 256 * b + c);
  }

  /** As many sextets as the bits of the bytes need. */
  lemma {:induction false} SextetCount(bytes: seq<Byte>)
    ensures |Sextets(bytes)| == (8 * |bytes| + 5) / 6
    decreases |bytes|
  {
    if |bytes| >= 3 { SextetCount(bytes[3..]); }
  }

  /** The first four sextets, as far as there are four. */
  lemma {:induction false} FirstSextets(bytes: seq<Byte>, k: nat)
    requires k < |Sextets(bytes)| && k < 4
    ensures Sextets(bytes)[k] == Digit64(Number(bytes, 0), 3 - k)
  {
    var a, b, c := ByteAt(bytes, 0), ByteAt(bytes, 1), ByteAt(bytes, 2);
    GroupDigits(a, b, c);
    SextetIs(bytes, k);
  }

  lemma {:induction false} SextetIs(bytes: seq<Byte>, k: nat)
    requires k < |Sextets(bytes)| && k < 4
    ensures var a, b, c := ByteAt(bytes, 0), ByteAt(bytes, 1), ByteAt(bytes, 2);
            Sextets(bytes)[k] == if k == 0 then S0(a) else if k == 1 then S1(a, b) else if k == 2 then S2(b, c) else S3(c)
  {
  }

  lemma {:induction false} SextetAt(bytes: seq<Byte>, k: nat)
    requires k < |Sextets(bytes)|
    ensures Sextets(bytes)[k] == Digit64(Number(bytes, k / 4), 3 - k % 4)
    decreases |bytes|
  {
    if k < 4 {
      FirstSextets(bytes, k);
      assert k / 4 == 0 && k % 4 == k;
    } else {
      var rest := bytes[3..];
      assert Sextets(bytes)[k] == Sextets(rest)[k - 4];
      SextetAt(rest, k - 4);
      GroupsOf(k, 4);
      NumberShift(bytes, (k - 4) / 4);
    }
  }

  lemma GroupsOf(k: nat, n: nat)
    requires (n == 3 || n == 4) && k >= n
    ensures k / n == (k - n) / n + 1 && k % n == (k - n) % n
  {
  }

  lemma NumberShift(bytes: seq<Byte>, g: nat)
    requires |bytes| >= 3
    ensures Number(bytes, g + 1) == Number(bytes[3..], g)
  {
  }

  /** Position by position: digits of the three-byte numbers in the alphabet, then padding to a whole group. */
  ghost predicate EncodedAs(bytes: seq<Byte>, text: string) {
    && |text| == 4 * ((|bytes| + 2) / 3)
    && forall k | 0 <= k < |text| :: EncodedAt(bytes, text[k], k)
  }

  ghost predicate EncodedAt(bytes: seq<Byte>, c: char, k: nat) {
    if 6 * k < 8 * |bytes| then
      |ALPHABET| == 64 && c == ALPHABET[Digit64(Number(bytes, k / 4), 3 - k % 4)]
    else c == '='
  }

  lemma EncodeIs(bytes: seq<Byte>)
    ensures EncodedAs(bytes, Encode(bytes))
  {
    var text := Encode(bytes);
    SextetCount(bytes);
    forall k | 0 <= k < |text| ensures EncodedAt(bytes, text[k], k) {
      if k < |Sextets(bytes)| {
        SextetAt(bytes, k);
        CharOfIsEntry(Sextets(bytes)[k]);
      }
    }
  }

  /** The 24-bit number of the `g`-th four sextets; one that is missing counts as zero. */
  function Code(xs: seq<Sextet>, g: nat): nat {
    262144 * SextetOf(xs, 4 * g) + 4096 * SextetOf(xs, 4 * g + 1) + 64 * SextetOf(xs, 4 * g + 2) + SextetOf(xs, 4 * g + 3)
  }

  function SextetOf(xs: seq<Sextet>, i: nat): Sextet {
    if i < |xs| then xs[i] else 0
  }

  lemma ThreeDigits(a: Byte, b: Byte, c: Byte, n: nat)
    requires n == 256 * (256 * a + b) + c
    ensures Digit256(n, 2) == a && Digit256(n, 1) == b && Digit256(n, 0) == c
  {
    var n1 := 256 * a + b;
    assert n / 256 == n1 && n % 256 == c;
    assert n1 / 256 == a && n1 % 256 == b;
    assert Digit256(n, 1) == Digit256(n1, 0);
    assert Digit256(n, 2) == Digit256(n1, 1) == Digit256(a, 0);
  }

  lemma CodeDigits(p: Sextet, q: Sextet, r: Sextet, s: Sextet)
    ensures var n := 262144 * p + 4096 * q + 64 * r + s;
            Digit256(n, 2) == B0(p, q) && Digit256(n, 1) == B1(q, r) && Digit256(n, 0) == B2(r, s)
  {
    assert q == 16 * (q / 16) + q % 16 && r == 4 * (r / 4) + r % 4;
    ThreeDigits(B0(p, q), B1(q, r), B2(r, s), 262144 * p + 4096 * q + 64 * r + s);
  }

  /** As many bytes as the sextets fill. */
  lemma {:induction false} ByteCount(xs: seq<Sextet>)
    ensures |BytesOf(xs)| == 6 * |xs| / 8
    decreases |xs|
  {
    if |xs| >= 4 { ByteCount(xs[4..]); }
  }

  /** The first three bytes, as far as there are three. */
  lemma FirstCode(xs: seq<Sextet>)
    ensures var p, q, r, s := SextetOf(xs, 0), SextetOf(xs, 1), SextetOf(xs, 2), SextetOf(xs, 3);
            Digit256(Code(xs, 0), 2) == B0(p, q) && Digit256(Code(xs, 0), 1) == B1(q, r) && Digit256(Code(xs, 0), 0) == B2(r, s)
  {
    CodeDigits(SextetOf(xs, 0), SextetOf(xs, 1), SextetOf(xs, 2), SextetOf(xs, 3));
  }

  lemma {:induction false} ByteIs(xs: seq<Sextet>, k: nat)
    requires k < |BytesOf(xs)| && k < 3
    ensures var p, q, r, s := SextetOf(xs, 0), SextetOf(xs, 1), SextetOf(xs, 2), SextetOf(xs, 3);
            BytesOf(xs)[k] == if k == 0 then B0(p, q) else if k == 1 then B1(q, r) else B2(r, s)
  {
  }

  lemma {:induction false} ByteOfSextets(xs: seq<Sextet>, k: nat)
    requires k < |BytesOf(xs)|
    ensures BytesOf(xs)[k] == Digit256(Code(xs, k / 3), 2 - k % 3)
    decreases |xs|
  {
    if k < 3 {
      ByteIs(xs, k);
      FirstCode(xs);
      assert k / 3 == 0 && k % 3 == k;
    } else {
      var rest := xs[4..];
      assert BytesOf(xs)[k] == BytesOf(rest)[k - 3];
      ByteOfSextets(rest, k - 3);
      GroupsOf(k, 3);
      CodeShift(xs, (k - 3) / 3);
    }
  }

  lemma CodeShift(xs: seq<Sextet>, g: nat)
    requires |xs| >= 4
    ensures Code(xs, g + 1) == Code(xs[4..], g)
  {
  }

  /** The sextets are the places in the alphabet of the characters before the first foreign one. */
  ghost predicate ReadAs(s: string, xs: seq<Sextet>) {
    && |xs| <= |s| && |ALPHABET| == 64 && (forall i | 0 <= i < |xs| :: ALPHABET[xs[i]] == s[i])
    && (|xs| < |s| ==> s[|xs|] !in ALPHABET)
  }

  /** Byte by byte: digits of the four-sextet numbers; fewer than four sextets are an error. */
  ghost predicate DecodedAs(s: string, r: Option<seq<Byte>>) {
    exists xs: seq<Sextet> :: ReadAs(s, xs) &&
      if |xs| < 4 then r.None?
      else
        && r.Some? && |r.value| == 6 * |xs| / 8
        && forall k | 0 <= k < |r.value| :: r.value[k] == Digit256(Code(xs, k / 3), 2 - k % 3)
  }

  lemma DecodeIs(s: string)
    ensures DecodedAs(s, Decode(s))
  {
    var p := Prefix(s);
    var xs := Values(p);
    forall i | 0 <= i < |xs| ensures ALPHABET[xs[i]] == s[i] { ValueOfIsPlace(p[i]); }
    if |p| < |s| { ValueOfIsPlace(s[|p|]); }
    assert ReadAs(s, xs);
    ByteCount(xs);
    forall k | 0 <= k < |BytesOf(xs)| ensures BytesOf(xs)[k] == Digit256(Code(xs, k / 3), 2 - k % 3) { ByteOfSextets(xs, k); }
  }

  // --------------------------------------------------------------------- the two loops

  lemma TextConcat(x: seq<Sextet>, y: seq<Sextet>)
    ensures Text(x + y) == Text(x) + Text(y)
  {
  }

  /** The four characters of a full buffer. */
  function GroupText(a: Byte, b: Byte, c: Byte): string {
    [CharOf(S0(a)), CharOf(S1(a, b)), CharOf(S2(b, c)), CharOf(S3(c))]
  }

  lemma GroupEncodes(a: Byte, b: Byte, c: Byte, rest: seq<Byte>)
    ensures Text(Sextets([a, b, c] + rest)) == GroupText(a, b, c) + Text(Sextets(rest))
  {
    var g: seq<Sextet> := [S0(a), S1(a, b), S2(b, c), S3(c)];
    SextetsOfGroup(a, b, c, rest);
    TextConcat(g, Sextets(rest));
    assert Text(g) == GroupText(a, b, c);
  }

  /** What a buffer that is not full adds at the end. */
  function Tail(buf: seq<Byte>): string
    requires |buf| < 3
  {
    if |buf| == 0 then ""
    else if |buf| == 1 then GroupText(buf[0], 0, 0)[..2] + "=="
    else GroupText(buf[0], buf[1], 0)[..3] + "="
  }

  lemma TextOfPart(x: Sextet, y: Sextet, z: Sextet)
    ensures Text([x, y]) == [CharOf(x), CharOf(y)] && Text([x, y, z]) == [CharOf(x), CharOf(y), CharOf(z)]
  {
  }

  lemma TailOfOne(a: Byte)
    ensures Encode([a]) == Tail([a])
  {
    TextOfPart(S0(a), S1(a, 0), 0);
    assert GroupText(a, 0, 0)[..2] == [CharOf(S0(a)), CharOf(S1(a, 0))];
  }

  lemma TailOfTwo(a: Byte, b: Byte)
    ensures Encode([a, b]) == Tail([a, b])
  {
    TextOfPart(S0(a), S1(a, b), S2(b, 0));
    assert GroupText(a, b, 0)[..3] == [CharOf(S0(a)), CharOf(S1(a, b)), CharOf(S2(b, 0))];
  }

  lemma TailEncodes(buf: seq<Byte>)
    requires |buf| < 3
    ensures Encode(buf) == Tail(buf)
  {
    if |buf| == 1 {
      TailOfOne(buf[0]);
      assert buf == [buf[0]];
    } else if |buf| == 2 {
      TailOfTwo(buf[0], buf[1]);
      assert buf == [buf[0], buf[1]];
    }
  }

  lemma PaddingOfGroup(n: nat)
    ensures Padding(n + 3) == Padding(n)
  {
  }

  lemma EncodeGroup(buf: seq<Byte>, rest: seq<Byte>)
    requires |buf| == 3
    ensures Encode(buf + rest) == GroupText(buf[0], buf[1], buf[2]) + Encode(rest)
  {
    var a, b, c := buf[0], buf[1], buf[2];
    GroupEncodes(a, b, c, rest);
    PaddingOfGroup(|rest|);
    Regroup(GroupText(a, b, c), Text(Sextets(rest)), Padding(|rest|));
    assert buf + rest == [a, b, c] + rest by { assert buf == [a, b, c]; }
  }

  lemma Shift(buf: seq<Byte>, rest: seq<Byte>)
    requires rest != []
    ensures buf + rest == (buf + [rest[0]]) + rest[1..]
  {
  }

  /** `base64_encode`: a buffer of three bytes that is emptied whenever it is full. */
  method EncodeBytes(bytes: seq<Byte>) returns (ret: string)
    ensures ret == Encode(bytes) && EncodedAs(bytes, ret)
  {
    EncodeIs(bytes);
    var buf: seq<Byte>, rest := [], bytes;
    ret := "";
    assert buf + rest == bytes && ret + Encode(bytes) == Encode(bytes);
    while rest != []
      invariant |buf| < 3 && Encode(bytes) == ret + Encode(buf + rest)
      decreases |rest|
    {
      Shift(buf, rest);
      buf, rest := buf + [rest[0]], rest[1..];
      if |buf| == 3 {
        EncodeGroup(buf, rest);
        Regroup(ret, GroupText(buf[0], buf[1], buf[2]), Encode(rest));
        ret := ret + GroupText(buf[0], buf[1], buf[2]);
        buf := [];
        assert buf + rest == rest;
      }
    }
    assert buf + rest == buf;
    TailEncodes(buf);
    ret := ret + Tail(buf);
  }

  // ------------------------------------------------------------------------- decoding

  lemma ValuesConcat(x: string, y: string)
    requires AllBase64(x) && AllBase64(y)
    ensures AllBase64(x + y) && Values(x + y) == Values(x) + Values(y)
  {
  }

  /** The three bytes of a full buffer. */
  function GroupBytes(buf: string): seq<Byte>
    requires |buf| == 4 && AllBase64(buf)
  {
    var p, q, r, s := ValueOf(buf[0]), ValueOf(buf[1]), ValueOf(buf[2]), ValueOf(buf[3]);
    [B0(p, q), B1(q, r), B2(r, s)]
  }

  /** The bytes of a buffer that is not full; one character alone adds nothing. */
  function TailBytes(buf: string): seq<Byte>
    requires |buf| < 4 && AllBase64(buf)
  {
    if |buf| < 2 then []
    else if |buf| == 2 then [B0(ValueOf(buf[0]), ValueOf(buf[1]))]
    else [B0(ValueOf(buf[0]), ValueOf(buf[1])), B1(ValueOf(buf[1]), ValueOf(buf[2]))]
  }

  lemma TailDecodes(buf: string)
    requires |buf| < 4 && AllBase64(buf)
    ensures BytesOf(Values(buf)) == TailBytes(buf)
  {
  }

  lemma DecodeGroup(buf: string, rest: string)
    requires |buf| == 4 && AllBase64(buf) && AllBase64(rest)
    ensures AllBase64(buf + rest) && BytesOf(Values(buf + rest)) == GroupBytes(buf) + BytesOf(Values(rest))
  {
    ValuesConcat(buf, rest);
    var v := Values(buf);
    assert v == [v[0], v[1], v[2], v[3]];
    BytesOfGroup(v[0], v[1], v[2], v[3], Values(rest));
  }

  /** What the buffer and the text still unread stand for. */
  ghost function Ahead(buf: string, rest: string): seq<Byte>
    requires AllBase64(buf)
  {
    ValuesConcat(buf, Prefix(rest));
    BytesOf(Values(buf + Prefix(rest)))
  }

  lemma AheadShift(buf: string, rest: string)
    requires AllBase64(buf) && rest != "" && IsBase64(rest[0])
    ensures AllBase64(buf + [rest[0]]) && Ahead(buf, rest) == Ahead(buf + [rest[0]], rest[1..])
    ensures |Prefix(rest)| == 1 + |Prefix(rest[1..])|
  {
    var p := Prefix(rest[1..]);
    assert Prefix(rest) == [rest[0]] + p;
    Regroup(buf, [rest[0]], p);
    ValuesConcat(buf, [rest[0]]);
  }

  lemma AheadGroup(buf: string, rest: string)
    requires AllBase64(buf) && |buf| == 4
    ensures Ahead(buf, rest) == GroupBytes(buf) + Ahead("", rest)
  {
    DecodeGroup(buf, Prefix(rest));
    assert "" + Prefix(rest) == Prefix(rest);
  }

  lemma AheadEnds(buf: string, rest: string)
    requires AllBase64(buf) && |buf| < 4 && (rest == "" || !IsBase64(rest[0]))
    ensures Ahead(buf, rest) == TailBytes(buf)
  {
    assert buf + Prefix(rest) == buf;
    TailDecodes(buf);
  }

  /** `base64_decode`: a buffer of four characters that is emptied whenever it is full. */
  method DecodeText(s: string) returns (r: Option<seq<Byte>>)
    ensures r == Decode(s) && DecodedAs(s, r)
  {
    DecodeIs(s);
    var buf: string, rest, ret: seq<Byte>, n := "", s, [], 0;
    assert buf + Prefix(s) == Prefix(s);
    while rest != "" && IsBase64(rest[0])
      invariant |buf| < 4 && AllBase64(buf)
      invariant BytesOf(Values(Prefix(s))) == ret + Ahead(buf, rest)
      invariant |Prefix(s)| == n + |Prefix(rest)|
      decreases |rest|
    {
      AheadShift(buf, rest);
      buf, rest, n := buf + [rest[0]], rest[1..], n + 1;
      if |buf| == 4 {
        AheadGroup(buf, rest);
        Regroup(ret, GroupBytes(buf), Ahead("", rest));
        ret := ret + GroupBytes(buf);
        buf := "";
      }
    }
    if n < 4 {
      return None;
    }
    AheadEnds(buf, rest);
    r := Some(ret + TailBytes(buf));
  }
}
