/** Standard base64 (section 4 of RFC 4648) as Go's
    `base64.StdEncoding` applies it: the alphabet `A-Z a-z 0-9 + /`, `=`
    padding to a multiple of four characters, and a decoder that skips
    `\r`/`\n`, demands correct padding, and ignores unused low bits of the
    last character (Go's non-strict mode). */
module Base64 {
  import opened Results

  /** Go's `byte`. */
  type byte = bv8
  /** A six-bit group, the value one alphabet character stands for. */
  type sextet = bv6

  const Pad: char := '='

  /** The 64 characters of the standard alphabet. */
  predicate IsAlphabet(c: char) {
    ('A' <= c <= 'Z') || ('a' <= c <= 'z') || ('0' <= c <= '9') || c == '+' || c == '/'
  }

  predicate IsLineBreak(c: char) {
    c == '\r' || c == '\n'
  }

  /** The character at position `n` of the alphabet (Table 1 of RFC 4648). */
  function AlphabetChar(n: int): (c: char)
    requires 0 <= n < 64
    ensures IsAlphabet(c)
  {
    if n < 26 then ('A' as int + n) as char
    else if n < 52 then ('a' as int + (n - 26)) as char
    else if n < 62 then ('0' as int + (n - 52)) as char
    else if n == 62 then '+'
    else '/'
  }

  /** The position of an alphabet character in the alphabet. */
  function AlphabetIndex(c: char): (n: int)
    requires IsAlphabet(c)
    ensures 0 <= n < 64
  {
    if 'A' <= c <= 'Z' then c as int - 'A' as int
    else if 'a' <= c <= 'z' then c as int - 'a' as int + 26
    else if '0' <= c <= '9' then c as int - '0' as int + 52
    else if c == '+' then 62
    else 63
  }

  lemma AlphabetBijection(n: int, c: char)
    requires 0 <= n < 64 && IsAlphabet(c)
    ensures AlphabetIndex(AlphabetChar(n)) == n
    ensures AlphabetChar(AlphabetIndex(c)) == c
  {
  }

  function EncodeSextet(x: sextet): (c: char)
    ensures IsAlphabet(c)
  {
    AlphabetChar(x as int)
  }

  /** The six-bit value of an alphabet character; nothing for any other. */
  function DecodeSextet(c: char): (r: Option<sextet>)
    ensures r.Some? <==> IsAlphabet(c)
  {
    if IsAlphabet(c) then Some(AlphabetIndex(c) as sextet) else None
  }

  lemma SextetToIntRoundTrip(x: sextet)
    ensures (x as int) as sextet == x
  {
  }

  lemma IntToSextetRoundTrip(n: int)
    requires 0 <= n < 64
    ensures (n as sextet) as int == n
  {
  }

  lemma SextetRoundTrip(x: sextet)
    ensures DecodeSextet(EncodeSextet(x)) == Some(x)
  {
    AlphabetBijection(x as int, 'A');
    SextetToIntRoundTrip(x);
  }

  lemma SextetInverse(c: char)
    requires IsAlphabet(c)
    ensures EncodeSextet(DecodeSextet(c).value) == c
  {
    AlphabetBijection(0, c);
    IntToSextetRoundTrip(AlphabetIndex(c));
  }

  /** The high six bits of `b0`. */
  function Sextet0(b0: byte): sextet {
    (b0 >> 2) as sextet
  }

  /** The low two bits of `b0` and the high four bits of `b1`. */
  function Sextet1(b0: byte, b1: byte): sextet {
    (((b0 & 3) << 4) | (b1 >> 4)) as sextet
  }

  /** The low four bits of `b1` and the high two bits of `b2`. */
  function Sextet2(b1: byte, b2: byte): sextet {
    (((b1 & 15) << 2) | (b2 >> 6)) as sextet
  }

  /** The low six bits of `b2`. */
  function Sextet3(b2: byte): sextet {
    (b2 & 63) as sextet
  }

  /** Three bytes as four characters. */
  function EncodeGroup(b0: byte, b1: byte, b2: byte): string {
    [EncodeSextet(Sextet0(b0)), EncodeSextet(Sextet1(b0, b1)),
     EncodeSextet(Sextet2(b1, b2)), EncodeSextet(Sextet3(b2))]
  }

  /** `EncodeToString`: each full group of three bytes becomes four
      characters; a final single byte becomes two characters and `==`, a
      final pair three characters and `=`. */
  function Encode(data: seq<byte>): (r: string)
    ensures r == "" <==> data == []
    decreases |data|
  {
    if |data| == 0 then ""
    else if |data| == 1 then
      [EncodeSextet(Sextet0(data[0])), EncodeSextet(Sextet1(data[0], 0)), Pad, Pad]
    else if |data| == 2 then
      [EncodeSextet(Sextet0(data[0])), EncodeSextet(Sextet1(data[0], data[1])),
       EncodeSextet(Sextet2(data[1], 0)), Pad]
    else
      EncodeGroup(data[0], data[1], data[2]) + Encode(data[3..])
  }

  /** `s` with every `\r` and `\n` removed, which Go's decoder skips. */
  function StripLineBreaks(s: string): (r: string)
    ensures forall c :: c in r <==> c in s && !IsLineBreak(c)
    ensures (forall i :: 0 <= i < |s| ==> !IsLineBreak(s[i])) ==> r == s
    decreases |s|
  {
    if |s| == 0 then ""
    else
      var rest := StripLineBreaks(s[1..]);
      assert forall c :: c in s <==> c == s[0] || c in s[1..];
      if IsLineBreak(s[0]) then rest else [s[0]] + rest
  }

  /** Removing line breaks distributes over concatenation, so the kept
      characters stay in their order and each appears as often as in the
      input. */
  lemma {:induction false} StripLineBreaksAppend(a: string, b: string)
    ensures StripLineBreaks(a + b) == StripLineBreaks(a) + StripLineBreaks(b)
    decreases |a|
  {
    if |a| == 0 {
      assert a + b == b;
    } else {
      assert (a + b)[0] == a[0];
      assert (a + b)[1..] == a[1..] + b;
      StripLineBreaksAppend(a[1..], b);
    }
  }

  /** A single character is kept exactly when it is not a line break. */
  lemma StripLineBreaksSingle(c: char)
    ensures StripLineBreaks([c]) == if IsLineBreak(c) then "" else [c]
  {
    assert [c][1..] == "";
  }

  /** The byte made of the six bits of `c0` and the high two bits of `c1`. */
  function Byte01(c0: sextet, c1: sextet): byte {
    ((c0 as byte) << 2) | ((c1 as byte) >> 4)
  }

  /** The byte made of the low four bits of `c1` and the high four of `c2`. */
  function Byte12(c1: sextet, c2: sextet): byte {
    ((c1 as byte) << 4) | ((c2 as byte) >> 2)
  }

  /** The byte made of the low two bits of `c2` and the six bits of `c3`. */
  function Byte23(c2: sextet, c3: sextet): byte {
    ((c2 as byte) << 6) | (c3 as byte)
  }

  /** Four alphabet characters as three bytes. */
  function DecodeGroup(q: string): Option<seq<byte>>
    requires |q| == 4
  {
    match (DecodeSextet(q[0]), DecodeSextet(q[1]), DecodeSextet(q[2]), DecodeSextet(q[3]))
    case (Some(c0), Some(c1), Some(c2), Some(c3)) =>
      Some([Byte01(c0, c1), Byte12(c1, c2), Byte23(c2, c3)])
    case _ => None
  }

  /** The last group, which may end in `==` (one byte) or `=` (two bytes).
      Low bits of the last character that carry no byte are ignored. */
  function DecodeLastGroup(q: string): Option<seq<byte>>
    requires |q| == 4
  {
    if q[2] == Pad && q[3] == Pad then
      match (DecodeSextet(q[0]), DecodeSextet(q[1]))
      case (Some(c0), Some(c1)) => Some([Byte01(c0, c1)])
      case _ => None
    else if q[3] == Pad then
      match (DecodeSextet(q[0]), DecodeSextet(q[1]), DecodeSextet(q[2]))
      case (Some(c0), Some(c1), Some(c2)) => Some([Byte01(c0, c1), Byte12(c1, c2)])
      case _ => None
    else DecodeGroup(q)
  }

  /** Consecutive groups of four, the last one allowed to be padded. */
  function DecodeGroups(t: string): Option<seq<byte>>
    decreases |t|
  {
    if |t| == 0 then Some([])
    else if |t| < 4 then None
    else if |t| == 4 then DecodeLastGroup(t)
    else
      match DecodeGroup(t[..4])
      case None => None
      case Some(head) =>
        match DecodeGroups(t[4..])
        case None => None
        case Some(tail) => Some(head + tail)
  }

  /** `DecodeString`: line breaks are skipped, the rest must be whole
      groups of four; nothing is returned for corrupt input. */
  function Decode(s: string): (r: Option<seq<byte>>)
    ensures r.Some? ==> |StripLineBreaks(s)| % 4 == 0
    ensures StripLineBreaks(s) == "" ==> r == Some([])
  {
    var t := StripLineBreaks(s);
    if |t| % 4 != 0 then None else DecodeGroups(t)
  }

  /** Text the decoder accepts once line breaks are gone: whole groups of
      four alphabet characters, except that the last group may end in `=`
      or `==`. */
  ghost predicate WellFormed(t: string) {
    && |t| % 4 == 0
    && (forall i :: 0 <= i < |t| - 2 ==> IsAlphabet(t[i]))
    && (|t| >= 4 ==>
          && (IsAlphabet(t[|t| - 2]) || (t[|t| - 2] == Pad && t[|t| - 1] == Pad))
          && (IsAlphabet(t[|t| - 1]) || t[|t| - 1] == Pad))
  }

  // ---------------------------------------------------------------------
  // Template functions

  /** `base64Encode` / the `b64enc` template function. */
  function B64Enc(v: seq<byte>): (r: string)
    ensures WellFormed(r)
    ensures Canonical(r)
    ensures Decode(r) == Some(v)
  {
    EncodeWellFormed(v);
    EncodeCanonical(v);
    RoundTrip(v);
    Encode(v)
  }

  /** `base64Decode` / the `b64dec` template function: the decoded bytes, or
      an abort of the render when the input is not valid base64. */
  function B64Dec(v: string): (r: Render<seq<byte>>)
    ensures r.Done? <==> WellFormed(StripLineBreaks(v))
    ensures r.Done? ==> Decode(v) == Some(r.value)
    ensures r.Abort? ==> r.message == "Error decoding base64: illegal base64 data"
  {
    DecodeAcceptsIff(v);
    match Decode(v)
    case Some(data) => Done(data)
    case None => Abort("Error decoding base64: illegal base64 data")
  }

  // ---------------------------------------------------------------------
  // Bit arithmetic

  /** Splitting three bytes into sextets and joining them back is the
      identity. */
  lemma BytesFromSextets(b0: byte, b1: byte, b2: byte)
    ensures Byte01(Sextet0(b0), Sextet1(b0, b1)) == b0
    ensures Byte12(Sextet1(b0, b1), Sextet2(b1, b2)) == b1
    ensures Byte23(Sextet2(b1, b2), Sextet3(b2)) == b2
  {
  }

  /** Joining four sextets into bytes and splitting them back is the
      identity. */
  lemma SextetsFromBytes(c0: sextet, c1: sextet, c2: sextet, c3: sextet)
    ensures Sextet0(Byte01(c0, c1)) == c0
    ensures Sextet1(Byte01(c0, c1), Byte12(c1, c2)) == c1
    ensures Sextet2(Byte12(c1, c2), Byte23(c2, c3)) == c2
    ensures Sextet3(Byte23(c2, c3)) == c3
  {
  }

  /** With its low four bits zero, `c1` is recovered from one byte. */
  lemma SextetsFromOneByte(c0: sextet, c1: sextet)
    requires c1 & 15 == 0
    ensures Sextet0(Byte01(c0, c1)) == c0
    ensures Sextet1(Byte01(c0, c1), 0) == c1
  {
  }

  /** With its low two bits zero, `c2` is recovered from two bytes. */
  lemma SextetsFromTwoBytes(c0: sextet, c1: sextet, c2: sextet)
    requires c2 & 3 == 0
    ensures Sextet0(Byte01(c0, c1)) == c0
    ensures Sextet1(Byte01(c0, c1), Byte12(c1, c2)) == c1
    ensures Sextet2(Byte12(c1, c2), 0) == c2
  {
  }

  // ---------------------------------------------------------------------
  // Encoder properties

  lemma GroupRoundTrip(b0: byte, b1: byte, b2: byte)
    ensures DecodeGroup(EncodeGroup(b0, b1, b2)) == Some([b0, b1, b2])
  {
    BytesFromSextets(b0, b1, b2);
    SextetRoundTrip(Sextet0(b0));
    SextetRoundTrip(Sextet1(b0, b1));
    SextetRoundTrip(Sextet2(b1, b2));
    SextetRoundTrip(Sextet3(b2));
  }

  lemma OneByteRoundTrip(b0: byte)
    ensures DecodeLastGroup(Encode([b0])) == Some([b0])
  {
    var r := Encode([b0]);
    var c0 := Sextet0(b0);
    var c1 := Sextet1(b0, 0);
    BytesFromSextets(b0, 0, 0);
    SextetRoundTrip(c0);
    SextetRoundTrip(c1);
    assert r == [EncodeSextet(c0), EncodeSextet(c1), Pad, Pad];
    assert DecodeLastGroup(r) == Some([Byte01(c0, c1)]);
  }

  lemma TwoBytesRoundTrip(b0: byte, b1: byte)
    ensures DecodeLastGroup(Encode([b0, b1])) == Some([b0, b1])
  {
    var r := Encode([b0, b1]);
    var c0 := Sextet0(b0);
    var c1 := Sextet1(b0, b1);
    var c2 := Sextet2(b1, 0);
    BytesFromSextets(b0, b1, 0);
    SextetRoundTrip(c0);
    SextetRoundTrip(c1);
    SextetRoundTrip(c2);
    assert r == [EncodeSextet(c0), EncodeSextet(c1), EncodeSextet(c2), Pad];
    assert r[2] != Pad;
    assert DecodeLastGroup(r) == Some([Byte01(c0, c1), Byte12(c1, c2)]);
  }

  /** A full group that decodes, followed by text that decodes. */
  lemma DecodeGroupsAppend(g: string, u: string, head: seq<byte>, tail: seq<byte>)
    requires |g| == 4 && |u| >= 4
    requires DecodeGroup(g) == Some(head) && DecodeGroups(u) == Some(tail)
    ensures DecodeGroups(g + u) == Some(head + tail)
  {
    DecodeGroupsCons(g, u);
  }

  /** Decoding a full group followed by more text. */
  lemma DecodeGroupsCons(g: string, u: string)
    requires |g| == 4 && |u| >= 4
    ensures DecodeGroups(g + u) ==
      match DecodeGroup(g)
      case None => None
      case Some(head) =>
        match DecodeGroups(u)
        case None => None
        case Some(tail) => Some(head + tail)
  {
    assert (g + u)[..4] == g;
    assert (g + u)[4..] == u;
  }

  lemma ThreeBytesRoundTrip(b0: byte, b1: byte, b2: byte)
    ensures DecodeGroups(Encode([b0, b1, b2])) == Some([b0, b1, b2])
  {
    var g := EncodeGroup(b0, b1, b2);
    GroupRoundTrip(b0, b1, b2);
    assert [b0, b1, b2][3..] == [];
    assert Encode([b0, b1, b2]) == g;
    assert g[2] != Pad && g[3] != Pad;
  }

  lemma SplitFirstThree(data: seq<byte>)
    requires |data| >= 3
    ensures data == [data[0], data[1], data[2]] + data[3..]
  {
  }

  /** One more group in front of an encoding that decodes back. */
  lemma GroupConsRoundTrip(data: seq<byte>)
    requires |data| > 3
    requires DecodeGroups(Encode(data[3..])) == Some(data[3..])
    ensures DecodeGroups(Encode(data)) == Some(data)
  {
    SplitFirstThree(data);
    var g := EncodeGroup(data[0], data[1], data[2]);
    var u := Encode(data[3..]);
    assert Encode(data) == g + u;
    assert |u| >= 4;
    GroupRoundTrip(data[0], data[1], data[2]);
    DecodeGroupsAppend(g, u, [data[0], data[1], data[2]], data[3..]);
  }

  /** The encoder's output decodes back to its input. */
  lemma {:induction false} EncodeDecodesBack(data: seq<byte>)
    ensures DecodeGroups(Encode(data)) == Some(data)
    decreases |data|
  {
    if |data| == 1 {
      OneByteRoundTrip(data[0]);
      assert data == [data[0]];
    } else if |data| == 2 {
      TwoBytesRoundTrip(data[0], data[1]);
      assert data == [data[0], data[1]];
    } else if |data| == 3 {
      ThreeBytesRoundTrip(data[0], data[1], data[2]);
      assert data == [data[0], data[1], data[2]];
    } else if |data| > 3 {
      EncodeDecodesBack(data[3..]);
      GroupConsRoundTrip(data);
    }
  }

  /** `base64Decode(base64Encode(b)) == b` for every byte sequence. */
  lemma RoundTrip(data: seq<byte>)
    ensures Decode(Encode(data)) == Some(data)
  {
    EncodeWellFormed(data);
    var r := Encode(data);
    assert forall i :: 0 <= i < |r| ==> !IsLineBreak(r[i]) by {
      forall i | 0 <= i < |r| ensures !IsLineBreak(r[i]) {
        assert IsAlphabet(r[i]) || r[i] == Pad;
      }
    }
    EncodeDecodesBack(data);
  }

  /** Every character of the encoding but the last two is in the alphabet. */
  lemma {:induction false} EncodeAlphabet(data: seq<byte>)
    ensures forall i :: 0 <= i < |Encode(data)| - 2 ==> IsAlphabet(Encode(data)[i])
    ensures |data| % 3 == 0 ==> forall i :: 0 <= i < |Encode(data)| ==> IsAlphabet(Encode(data)[i])
    decreases |data|
  {
    if |data| >= 3 {
      var rest := Encode(data[3..]);
      EncodeAlphabet(data[3..]);
      var r := Encode(data);
      var g := EncodeGroup(data[0], data[1], data[2]);
      assert r == g + rest;
      forall i | 0 <= i < |r| && (i < |r| - 2 || |data| % 3 == 0)
        ensures IsAlphabet(r[i])
      {
        if i >= 4 {
          assert r[i] == rest[i - 4];
        }
      }
    }
  }

  /** The padding of the encoding: `==` for a length of 1 modulo 3, `=` for
      2, none for 0. */
  lemma {:induction false} EncodePadding(data: seq<byte>)
    ensures var r := Encode(data);
      && (|data| % 3 == 1 ==> IsAlphabet(r[|r| - 3]) && r[|r| - 2] == Pad && r[|r| - 1] == Pad)
      && (|data| % 3 == 2 ==> IsAlphabet(r[|r| - 2]) && r[|r| - 1] == Pad)
    decreases |data|
  {
    if |data| == 1 {
      var r := Encode(data);
      assert r == [EncodeSextet(Sextet0(data[0])), EncodeSextet(Sextet1(data[0], 0)), Pad, Pad];
    } else if |data| == 2 {
      var r := Encode(data);
      assert r == [EncodeSextet(Sextet0(data[0])), EncodeSextet(Sextet1(data[0], data[1])),
                   EncodeSextet(Sextet2(data[1], 0)), Pad];
    } else if |data| > 3 {
      var g := EncodeGroup(data[0], data[1], data[2]);
      var rest := Encode(data[3..]);
      EncodePadding(data[3..]);
      EncodeLength(data[3..]);
      ModThree(|data|);
      assert Encode(data) == g + rest;
      LastThreeOfConcat(g, rest);
    }
  }

  lemma ModThree(n: int)
    requires n >= 3
    ensures (n - 3) % 3 == n % 3
    ensures n % 3 != 0 ==> 4 * ((n - 3 + 2) / 3) >= 4
  {
  }

  /** The last three characters of `g + rest` are those of `rest`. */
  lemma LastThreeOfConcat(g: string, rest: string)
    requires |rest| >= 3
    ensures var r := g + rest;
      r[|r| - 3] == rest[|rest| - 3] && r[|r| - 2] == rest[|rest| - 2] && r[|r| - 1] == rest[|rest| - 1]
  {
  }

  /** The encoder's output uses only alphabet characters, with `=` only as
      trailing padding: it is well-formed. */
  lemma EncodeWellFormed(data: seq<byte>)
    ensures WellFormed(Encode(data))
  {
    EncodeAlphabet(data);
    EncodePadding(data);
    EncodeLength(data);
    ModFourOfGroups(|data|);
  }

  lemma ModFourOfGroups(n: nat)
    ensures (4 * ((n + 2) / 3)) % 4 == 0
  {
  }

  /** The encoding of `n` bytes is `4 * ceil(n / 3)` characters long. */
  lemma {:induction false} EncodeLength(data: seq<byte>)
    ensures |Encode(data)| == 4 * ((|data| + 2) / 3)
    decreases |data|
  {
    if |data| >= 3 {
      EncodeLength(data[3..]);
    }
  }

  lemma EncodeEmpty()
    ensures Encode([]) == ""
    ensures Decode("") == Some([])
  {
  }

  // ---------------------------------------------------------------------
  // Decoder properties

  /** Whole groups of alphabet characters followed by a well-formed rest
      are well-formed, and conversely. */
  lemma WellFormedCons(t: string)
    requires |t| > 4 && |t| % 4 == 0
    ensures WellFormed(t) <==>
      (forall i :: 0 <= i < 4 ==> IsAlphabet(t[i])) && WellFormed(t[4..])
  {
    var u := t[4..];
    assert forall i :: 0 <= i < |u| ==> u[i] == t[i + 4];
    if WellFormed(t) {
      forall i | 0 <= i < |u| - 2 ensures IsAlphabet(u[i]) {
        assert u[i] == t[i + 4];
      }
    }
  }

  /** An inner group decodes exactly when all four characters are in the
      alphabet. */
  lemma DecodeGroupIff(q: string)
    requires |q| == 4
    ensures DecodeGroup(q).Some? <==> forall i :: 0 <= i < 4 ==> IsAlphabet(q[i])
  {
    DecodeSextetIff(q[0]);
    DecodeSextetIff(q[1]);
    DecodeSextetIff(q[2]);
    DecodeSextetIff(q[3]);
  }

  lemma DecodeSextetIff(c: char)
    ensures DecodeSextet(c).Some? <==> IsAlphabet(c)
  {
  }

  /** A lone group decodes exactly when it is well-formed. */
  lemma DecodeLastGroupIff(q: string)
    requires |q| == 4
    ensures DecodeLastGroup(q).Some? <==> WellFormed(q)
  {
    DecodeGroupIff(q);
    DecodeSextetIff(q[0]);
    DecodeSextetIff(q[1]);
    DecodeSextetIff(q[2]);
    DecodeSextetIff(q[3]);
    PadNotAlphabet();
  }

  lemma PadNotAlphabet()
    ensures !IsAlphabet(Pad)
  {
  }

  lemma {:induction false} DecodeGroupsIff(t: string)
    requires |t| % 4 == 0
    ensures DecodeGroups(t).Some? <==> WellFormed(t)
    decreases |t|
  {
    if |t| == 4 {
      DecodeLastGroupIff(t);
    } else if |t| > 4 {
      var q := t[..4];
      DecodeGroupsIff(t[4..]);
      WellFormedCons(t);
      DecodeGroupIff(q);
      assert forall i :: 0 <= i < 4 ==> q[i] == t[i];
      assert DecodeGroups(t).Some? <==> DecodeGroup(q).Some? && DecodeGroups(t[4..]).Some?;
    }
  }

  /** The decoder accepts its input exactly when, line breaks aside, it is
      well-formed; so a character outside the alphabet, misplaced padding,
      or a length that is not a multiple of four makes `b64dec` abort. */
  lemma DecodeAcceptsIff(s: string)
    ensures Decode(s).Some? <==> WellFormed(StripLineBreaks(s))
  {
    var t := StripLineBreaks(s);
    if |t| % 4 == 0 {
      DecodeGroupsIff(t);
    }
  }

  lemma DecodeRejectsForeignChar(s: string, i: nat)
    requires i < |s|
    requires !IsAlphabet(s[i]) && s[i] != Pad && !IsLineBreak(s[i])
    ensures Decode(s) == None
  {
    DecodeAcceptsIff(s);
    var t := StripLineBreaks(s);
    assert s[i] in s;
    var j :| 0 <= j < |t| && t[j] == s[i];
  }

  lemma DecodeRejectsLength(s: string)
    requires |StripLineBreaks(s)| % 4 != 0
    ensures Decode(s) == None
  {
  }

  /** The canonical encodings: well-formed text whose unused low bits in a
      padded last group are zero, which is all the encoder produces. */
  ghost predicate Canonical(t: string) {
    && WellFormed(t)
    && (|t| >= 4 && t[|t| - 2] == Pad ==>
          DecodeSextet(t[|t| - 3]).Some? && DecodeSextet(t[|t| - 3]).value & 15 == 0)
    && (|t| >= 4 && t[|t| - 2] != Pad && t[|t| - 1] == Pad ==>
          DecodeSextet(t[|t| - 2]).Some? && DecodeSextet(t[|t| - 2]).value & 3 == 0)
  }

  /** The bits a one-byte group leaves unused are zero. */
  lemma PadBitsOfOneByte(b0: byte)
    ensures Sextet1(b0, 0) & 15 == 0
  {
  }

  /** The bits a two-byte group leaves unused are zero. */
  lemma PadBitsOfTwoBytes(b1: byte)
    ensures Sextet2(b1, 0) & 3 == 0
  {
  }

  lemma OneByteCanonical(b0: byte)
    ensures Canonical(Encode([b0]))
  {
    var r := Encode([b0]);
    var c1 := Sextet1(b0, 0);
    EncodeWellFormed([b0]);
    assert r == [EncodeSextet(Sextet0(b0)), EncodeSextet(c1), Pad, Pad];
    SextetRoundTrip(c1);
    PadBitsOfOneByte(b0);
  }

  lemma TwoBytesCanonical(b0: byte, b1: byte)
    ensures Canonical(Encode([b0, b1]))
  {
    var r := Encode([b0, b1]);
    var c2 := Sextet2(b1, 0);
    EncodeWellFormed([b0, b1]);
    assert r == [EncodeSextet(Sextet0(b0)), EncodeSextet(Sextet1(b0, b1)), EncodeSextet(c2), Pad];
    PadNotAlphabet();
    assert r[2] != Pad;
    SextetRoundTrip(c2);
    PadBitsOfTwoBytes(b1);
  }

  /** Well-formed text that does not end in `=` has no unused bits. */
  lemma CanonicalUnpadded(t: string)
    requires WellFormed(t) && (|t| >= 4 ==> t[|t| - 1] != Pad)
    ensures Canonical(t)
  {
  }

  /** A canonical text stays canonical behind one more group. */
  lemma CanonicalCons(g: string, rest: string)
    requires |rest| >= 4 && WellFormed(g + rest) && Canonical(rest)
    ensures Canonical(g + rest)
  {
    LastThreeOfConcat(g, rest);
  }

  /** The encoder sets the unused low bits of a padded last group to zero
      (section 3.5 of RFC 4648): its output is canonical. */
  lemma {:induction false} EncodeCanonical(data: seq<byte>)
    ensures Canonical(Encode(data))
    decreases |data|
  {
    if |data| == 0 {
      EncodeWellFormed(data);
      CanonicalUnpadded(Encode(data));
    } else if |data| == 1 {
      OneByteCanonical(data[0]);
      assert data == [data[0]];
    } else if |data| == 2 {
      TwoBytesCanonical(data[0], data[1]);
      assert data == [data[0], data[1]];
    } else if |data| == 3 {
      var r := Encode(data);
      EncodeWellFormed(data);
      EncodeAlphabet(data);
      EncodeLength(data);
      PadNotAlphabet();
      assert r[3] != Pad;
      CanonicalUnpadded(r);
    } else {
      var g := EncodeGroup(data[0], data[1], data[2]);
      var rest := Encode(data[3..]);
      EncodeCanonical(data[3..]);
      EncodeLength(data[3..]);
      EncodeWellFormed(data);
      assert Encode(data) == g + rest;
      CanonicalCons(g, rest);
    }
  }

  /** Each byte sequence has exactly one canonical encoding: a canonical
      text (line breaks aside) that decodes to `data` is `Encode(data)`. */
  lemma EncodeUnique(s: string, data: seq<byte>)
    requires Canonical(StripLineBreaks(s)) && Decode(s) == Some(data)
    ensures StripLineBreaks(s) == Encode(data)
  {
    DecodeEncodesBack(s);
  }

  lemma PaddedPairRoundTrip(q: string)
    requires |q| == 4 && Canonical(q) && q[2] == Pad
    ensures DecodeLastGroup(q).Some? && Encode(DecodeLastGroup(q).value) == q
  {
    var c0 := DecodeSextet(q[0]).value;
    var c1 := DecodeSextet(q[1]).value;
    SextetInverse(q[0]);
    SextetInverse(q[1]);
    SextetsFromOneByte(c0, c1);
    var b := Byte01(c0, c1);
    assert DecodeLastGroup(q) == Some([b]);
    assert Encode([b]) == [EncodeSextet(c0), EncodeSextet(c1), Pad, Pad];
    assert q == [q[0], q[1], q[2], q[3]];
  }

  lemma PaddedTripleRoundTrip(q: string)
    requires |q| == 4 && Canonical(q) && q[2] != Pad && q[3] == Pad
    ensures DecodeLastGroup(q).Some? && Encode(DecodeLastGroup(q).value) == q
  {
    var c0 := DecodeSextet(q[0]).value;
    var c1 := DecodeSextet(q[1]).value;
    var c2 := DecodeSextet(q[2]).value;
    SextetInverse(q[0]);
    SextetInverse(q[1]);
    SextetInverse(q[2]);
    SextetsFromTwoBytes(c0, c1, c2);
    var b0 := Byte01(c0, c1);
    var b1 := Byte12(c1, c2);
    assert DecodeLastGroup(q) == Some([b0, b1]);
    assert Encode([b0, b1]) == [EncodeSextet(c0), EncodeSextet(c1), EncodeSextet(c2), Pad];
    assert q == [q[0], q[1], q[2], q[3]];
  }

  /** A group of four alphabet characters is re-encoded from its bytes. */
  lemma FullGroupRoundTrip(q: string)
    requires |q| == 4 && forall i :: 0 <= i < 4 ==> IsAlphabet(q[i])
    ensures DecodeGroup(q).Some?
    ensures var d := DecodeGroup(q).value; |d| == 3 && EncodeGroup(d[0], d[1], d[2]) == q
  {
    var c0 := DecodeSextet(q[0]).value;
    var c1 := DecodeSextet(q[1]).value;
    var c2 := DecodeSextet(q[2]).value;
    var c3 := DecodeSextet(q[3]).value;
    SextetInverse(q[0]);
    SextetInverse(q[1]);
    SextetInverse(q[2]);
    SextetInverse(q[3]);
    SextetsFromBytes(c0, c1, c2, c3);
    assert q == [q[0], q[1], q[2], q[3]];
  }

  /** Re-encoding the decoding of one canonical last group gives it back. */
  lemma LastGroupRoundTrip(q: string)
    requires |q| == 4 && Canonical(q)
    ensures DecodeLastGroup(q).Some? && Encode(DecodeLastGroup(q).value) == q
  {
    if q[2] == Pad {
      PaddedPairRoundTrip(q);
    } else if q[3] == Pad {
      PaddedTripleRoundTrip(q);
    } else {
      FullGroupRoundTrip(q);
      var d := DecodeGroup(q).value;
      assert Encode(d) == EncodeGroup(d[0], d[1], d[2]) + Encode(d[3..]);
      assert d[3..] == [];
    }
  }

  /** Re-encoding the decoding of a canonical text gives the text back. */
  lemma {:induction false} CanonicalRoundTrip(t: string)
    requires Canonical(t)
    ensures DecodeGroups(t).Some? && Encode(DecodeGroups(t).value) == t
    decreases |t|
  {
    DecodeGroupsIff(t);
    if |t| == 4 {
      LastGroupRoundTrip(t);
    } else if |t| > 4 {
      WellFormedCons(t);
      var q := t[..4];
      var u := t[4..];
      assert Canonical(u) by {
        assert forall i :: 0 <= i < |u| ==> u[i] == t[i + 4];
        assert u[|u| - 1] == t[|t| - 1] && u[|u| - 2] == t[|t| - 2] && u[|u| - 3] == t[|t| - 3];
      }
      CanonicalRoundTrip(u);
      assert forall i :: 0 <= i < 4 ==> q[i] == t[i];
      FullGroupRoundTrip(q);
      assert t == q + u;
      DecodeGroupsCons(q, u);
      var head := DecodeGroup(q).value;
      var tail := DecodeGroups(u).value;
      assert (head + tail)[3..] == tail;
      assert Encode(head + tail) == EncodeGroup(head[0], head[1], head[2]) + Encode(tail);
    }
  }

  /** Decoding then encoding gives back a canonical text (line breaks
      aside). */
  lemma DecodeEncodesBack(s: string)
    requires Canonical(StripLineBreaks(s))
    ensures Decode(s).Some? && Encode(Decode(s).value) == StripLineBreaks(s)
  {
    CanonicalRoundTrip(StripLineBreaks(s));
  }
}
