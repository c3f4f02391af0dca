/** Base64 (section 4 of RFC 4648) as modp_b64 computes it.  The lookup tables are written
    as the arithmetic they hold: shifts and ors of separate bits as products and sums. */
module Base64 {
  import opened Common

  // ----------------------------------------------------------------- alphabet

  function CharOf(d: nat): (c: char)
    requires d < 64
    ensures DigitOf(c) == d
  {
    if d < 26 then ('A' as int + d) as char
    else if d < 52 then ('a' as int + d - 26) as char
    else if d < 62 then ('0' as int + d - 52) as char
    else if d == 62 then '+' else '/'
  }

  /** The digit a character stands for, or -1. */
  function DigitOf(c: char): (d: int)
    ensures -1 <= d < 64
  {
    if 'A' <= c <= 'Z' then c as int - 'A' as int
    else if 'a' <= c <= 'z' then c as int - 'a' as int + 26
    else if '0' <= c <= '9' then c as int - '0' as int + 52
    else if c == '+' then 62
    else if c == '/' then 63
    else -1
  }

  lemma CharOfDigit(c: char)
    requires DigitOf(c) >= 0
    ensures CharOf(DigitOf(c)) == c && c != '='
  {
  }

  predicate IsDigit(c: char) {
    DigitOf(c) >= 0
  }

  predicate AllDigits(s: string) {
    forall i :: 0 <= i < |s| ==> IsDigit(s[i])
  }

  // ----------------------------------------------------------------- encoding

  /** The four characters of three bytes. */
  function Group(t1: Byte, t2: Byte, t3: Byte): string {
    [CharOf(t1 / 4), CharOf(t1 % 4 * 16 + t2 / 16), CharOf(t2 % 16 * 4 + t3 / 64), CharOf(t3 % 64)]
  }

  function Encode(b: seq<Byte>): string {
    if |b| == 0 then ""
    else if |b| == 1 then Group(b[0], 0, 0)[..2] + "=="
    else if |b| == 2 then Group(b[0], b[1], 0)[..3] + "="
    else Group(b[0], b[1], b[2]) + Encode(b[3..])
  }

  /** The encoding without its padding. */
  function Body(b: seq<Byte>): string {
    if |b| == 0 then ""
    else if |b| == 1 then Group(b[0], 0, 0)[..2]
    else if |b| == 2 then Group(b[0], b[1], 0)[..3]
    else Group(b[0], b[1], b[2]) + Body(b[3..])
  }

  function BodySize(n: nat): nat {
    n / 3 * 4 + if n % 3 == 0 then 0 else n % 3 + 1
  }

  function Pad(n: nat): string {
    if n % 3 == 0 then "" else if n % 3 == 1 then "==" else "="
  }

  // ----------------------------------------------------------------- decoding

  function First(c0: char, c1: char): Byte
    requires IsDigit(c0) && IsDigit(c1)
  {
    DigitOf(c0) * 4 + DigitOf(c1) / 16
  }

  function Second(c1: char, c2: char): Byte
    requires IsDigit(c1) && IsDigit(c2)
  {
    DigitOf(c1) % 16 * 16 + DigitOf(c2) / 4
  }

  function Third(c2: char, c3: char): Byte
    requires IsDigit(c2) && IsDigit(c3)
  {
    DigitOf(c2) % 4 * 64 + DigitOf(c3)
  }

  /** The bytes of digits without padding. */
  function DecodeBody(s: string): Option<seq<Byte>> {
    if s == "" then Some([])
    else if !AllDigits(s[..if |s| < 4 then |s| else 4]) then None
    else if |s| == 1 then Some([])
    else if |s| == 2 then Some([First(s[0], s[1])])
    else if |s| == 3 then Some([First(s[0], s[1]), Second(s[1], s[2])])
    else match DecodeBody(s[4..])
      case None => None
      case Some(rest) => Some([First(s[0], s[1]), Second(s[1], s[2]), Third(s[2], s[3])] + rest)
  }

  /** At most two padding characters are dropped from the end. */
  function Unpadded(s: string): string {
    if |s| >= 2 && s[|s| - 1] == '=' then
      if s[|s| - 2] == '=' then s[..|s| - 2] else s[..|s| - 1]
    else s
  }

  function Decode(s: string): Option<seq<Byte>> {
    if s == "" then Some([])
    else if |s| % 4 != 0 then None
    else DecodeBody(Unpadded(s))
  }

  // -------------------------------------------------------------- round trips

  lemma GroupDigits(t1: Byte, t2: Byte, t3: Byte)
    ensures AllDigits(Group(t1, t2, t3))
    ensures var g := Group(t1, t2, t3);
      First(g[0], g[1]) == t1 && Second(g[1], g[2]) == t2 && Third(g[2], g[3]) == t3
  {
  }

  lemma {:induction false} DecodeBodyOfBody(b: seq<Byte>)
    ensures DecodeBody(Body(b)) == Some(b)
  {
    hide CharOf, DigitOf, Group, First, Second, Third;
    var s := Body(b);
    assert s[..|s|] == s;
    if |b| == 1 {
      GroupDigits(b[0], 0, 0);
      GroupLength(b[0], 0, 0);
      assert b == [b[0]];
    } else if |b| == 2 {
      GroupDigits(b[0], b[1], 0);
      GroupLength(b[0], b[1], 0);
      var g := Group(b[0], b[1], 0);
      assert s == [g[0], g[1], g[2]];
      assert b == [b[0], b[1]];
    } else if |b| >= 3 {
      GroupDigits(b[0], b[1], b[2]);
      DecodeBodyOfBody(b[3..]);
      var g := Group(b[0], b[1], b[2]);
      assert |g| == 4 by { GroupLength(b[0], b[1], b[2]); }
      assert Body(b)[..4] == g && Body(b)[4..] == Body(b[3..]);
      assert b == [b[0], b[1], b[2]] + b[3..];
    }
  }

  lemma GroupLength(t1: Byte, t2: Byte, t3: Byte)
    ensures |Group(t1, t2, t3)| == 4
  {
  }

  lemma {:induction false} BodyDigits(b: seq<Byte>)
    ensures AllDigits(Body(b)) && |Body(b)| == BodySize(|b|)
  {
    hide CharOf, DigitOf, Group;
    if |b| == 1 {
      GroupDigits(b[0], 0, 0);
      GroupLength(b[0], 0, 0);
    } else if |b| == 2 {
      GroupDigits(b[0], b[1], 0);
      GroupLength(b[0], b[1], 0);
    } else if |b| >= 3 {
      GroupDigits(b[0], b[1], b[2]);
      GroupLength(b[0], b[1], b[2]);
      BodyDigits(b[3..]);
      SizeRest(|b|);
      hide BodySize;
    }
  }

  lemma SizeRest(n: nat)
    requires n >= 3
    ensures BodySize(n) == 4 + BodySize(n - 3)
  {
  }

  lemma {:induction false} EncodeIsPadded(b: seq<Byte>)
    ensures Encode(b) == Body(b) + Pad(|b|)
  {
    hide Group;
    if |b| >= 3 {
      EncodeIsPadded(b[3..]);
      PadRest(|b|);
      hide Pad;
      var g := Group(b[0], b[1], b[2]);
      assert g + (Body(b[3..]) + Pad(|b|)) == g + Body(b[3..]) + Pad(|b|);
    }
  }

  lemma PadRest(n: nat)
    requires n >= 3
    ensures Pad(n - 3) == Pad(n)
  {
    assert (n - 3) % 3 == n % 3;
  }

  lemma BodyShape(b: seq<Byte>)
    ensures AllDigits(Body(b)) && |Body(b)| == BodySize(|b|)
    ensures Encode(b) == Body(b) + Pad(|b|)
  {
    hide Encode, Body, Pad, AllDigits, BodySize;
    BodyDigits(b);
    EncodeIsPadded(b);
  }

  /** The body and its padding make whole groups of four. */
  lemma Sizes(n: nat)
    ensures BodySize(n) % 4 == if n % 3 == 0 then 0 else n % 3 + 1
    ensures BodySize(n) + |Pad(n)| == (n + 2) / 3 * 4
    ensures (BodySize(n) + |Pad(n)|) % 4 == 0
  {
    var q, r := n / 3, n % 3;
    assert n == 3 * q + r;
    if r == 0 {
      assert (n + 2) / 3 == q;
    } else {
      assert (n + 2) / 3 == q + 1;
    }
  }

  lemma DigitIsNotPad(s: string)
    requires AllDigits(s)
    ensures '=' !in s
  {
  }

  lemma UnpaddedEncode(b: seq<Byte>)
    ensures Unpadded(Encode(b)) == Body(b)
  {
    hide Encode, Body, AllDigits;
    BodyShape(b);
    DigitIsNotPad(Body(b));
  }

  /** Encoding has the length the buffer was made for, a multiple of four. */
  lemma {:induction false} EncodeLength(b: seq<Byte>)
    ensures |Encode(b)| == (|b| + 2) / 3 * 4 && |Encode(b)| % 4 == 0
  {
    hide Encode, Body, AllDigits, Pad, BodySize;
    BodyShape(b);
    Sizes(|b|);
  }

  lemma {:induction false} DecodeInvertsEncode(b: seq<Byte>)
    ensures Decode(Encode(b)) == Some(b)
  {
    hide Encode, Body, DecodeBody, Unpadded;
    UnpaddedEncode(b);
    EncodeLength(b);
    if Encode(b) == "" {
      EmptyEncode(b);
    } else {
      DecodeBodyOfBody(b);
    }
  }

  lemma EmptyEncode(b: seq<Byte>)
    requires Encode(b) == ""
    ensures b == []
  {
    hide Encode;
    EncodeLength(b);
  }

  /** The bits of the last digit that belong to no byte are zero. */
  predicate Canonical(body: string) {
    && (|body| % 4 == 2 ==> DigitOf(body[|body| - 1]) % 16 == 0)
    && (|body| % 4 == 3 ==> DigitOf(body[|body| - 1]) % 4 == 0)
  }

  lemma {:induction false} GroupOfBytes(c0: char, c1: char, c2: char, c3: char)
    requires IsDigit(c0) && IsDigit(c1) && IsDigit(c2) && IsDigit(c3)
    ensures Group(First(c0, c1), Second(c1, c2), Third(c2, c3)) == [c0, c1, c2, c3]
  {
    hide CharOf, DigitOf;
    CharOfDigit(c0);
    CharOfDigit(c1);
    CharOfDigit(c2);
    CharOfDigit(c3);
    Regroup(DigitOf(c0), DigitOf(c1), DigitOf(c2), DigitOf(c3));
  }

  lemma Regroup(d0: nat, d1: nat, d2: nat, d3: nat)
    requires d0 < 64 && d1 < 64 && d2 < 64 && d3 < 64
    ensures var t1, t2, t3 := d0 * 4 + d1 / 16, d1 % 16 * 16 + d2 / 4, d2 % 4 * 64 + d3;
      && t1 / 4 == d0 && t1 % 4 * 16 + t2 / 16 == d1
      && t2 % 16 * 4 + t3 / 64 == d2 && t3 % 64 == d3
  {
    var t1, t2, t3 := d0 * 4 + d1 / 16, d1 % 16 * 16 + d2 / 4, d2 % 4 * 64 + d3;
    assert t1 % 4 == d1 / 16;
    assert t2 / 16 == d1 % 16;
    assert t2 % 16 == d2 / 4;
    assert t3 / 64 == d2 % 4;
  }

  lemma {:induction false} ShortGroups(c0: char, c1: char, c2: char)
    requires IsDigit(c0) && IsDigit(c1) && IsDigit(c2)
    ensures Group(First(c0, c1), 0, 0)[..2] == [c0, c1] <==> DigitOf(c1) % 16 == 0
    ensures Group(First(c0, c1), Second(c1, c2), 0)[..3] == [c0, c1, c2] <==> DigitOf(c2) % 4 == 0
  {
    hide CharOf, DigitOf;
    CharOfDigit(c0);
    CharOfDigit(c1);
    CharOfDigit(c2);
    var d1, d2 := DigitOf(c1), DigitOf(c2);
    assert DigitOf(CharOf(d1 / 16 * 16)) == d1 / 16 * 16;
    assert DigitOf(CharOf(d2 / 4 * 4)) == d2 / 4 * 4;
    var g, h := Group(First(c0, c1), 0, 0), Group(First(c0, c1), Second(c1, c2), 0);
    assert g[0] == c0 && g[1] == CharOf(d1 / 16 * 16);
    assert h[0] == c0 && h[1] == c1 && h[2] == CharOf(d2 / 4 * 4);
    assert g[..2] == [g[0], g[1]];
    assert h[..3] == [h[0], h[1], h[2]];
  }

  lemma CanonicalTail(s: string)
    requires |s| >= 4
    ensures Canonical(s) <==> Canonical(s[4..])
  {
    hide DigitOf;
    assert |s| > 4 ==> s[4..][|s[4..]| - 1] == s[|s| - 1];
  }

  /** Decoding loses nothing but the unused bits. */
  lemma {:induction false} BodyOfDecodeBody(s: string, b: seq<Byte>)
    requires DecodeBody(s) == Some(b) && |s| % 4 != 1
    ensures Body(b) == s <==> Canonical(s)
    ensures |b| == |s| / 4 * 3 + (if |s| % 4 == 0 then 0 else |s| % 4 - 1)
  {
    hide CharOf, DigitOf, Group, First, Second, Third;
    assert s[..|s|] == s;
    if |s| == 2 {
      ShortGroups(s[0], s[1], s[1]);
      assert s == [s[0], s[1]];
    } else if |s| == 3 {
      ShortGroups(s[0], s[1], s[2]);
      assert s == [s[0], s[1], s[2]];
    } else if |s| >= 4 {
      var rest := DecodeBody(s[4..]).value;
      BodyOfDecodeBody(s[4..], rest);
      GroupOfBytes(s[0], s[1], s[2], s[3]);
      assert b[3..] == rest;
      assert s[..4] == [s[0], s[1], s[2], s[3]];
      hide DecodeBody, AllDigits, Canonical;
      assert Body(b) == s[..4] + Body(rest);
      assert s == s[..4] + s[4..];
      CanonicalTail(s);
      assert Body(b)[4..] == Body(rest);
    }
  }

  lemma {:induction false} DecodeBodyDigits(s: string)
    ensures DecodeBody(s).Some? ==> AllDigits(s)
  {
    if |s| >= 4 {
      DecodeBodyDigits(s[4..]);
      assert s == s[..4] + s[4..];
    }
  }

  lemma UnpaddedShape(s: string)
    requires |s| % 4 == 0 && s != ""
    ensures var body := Unpadded(s);
      && |body| % 4 != 1
      && s == body + (if |body| % 4 == 0 then "" else if |body| % 4 == 2 then "==" else "=")
  {
    var body := Unpadded(s);
    if |body| == |s| - 2 {
      assert |body| % 4 == 2;
      assert s == body + [s[|s| - 2], s[|s| - 1]];
    } else if |body| == |s| - 1 {
      assert |body| % 4 == 3;
      assert s == body + [s[|s| - 1]];
    } else {
      assert s == body + "";
    }
  }

  /** What decodes is four-character groups of digits, the last padded to four. */
  lemma DecodedShape(s: string)
    requires Decode(s).Some?
    ensures var body := Unpadded(s);
      && AllDigits(body) && |body| % 4 != 1 && |s| % 4 == 0
      && s == body + (if |body| % 4 == 0 then "" else if |body| % 4 == 2 then "==" else "=")
  {
    if s == "" {
      EmptyTexts();
    } else {
      hide DecodeBody, AllDigits, Unpadded;
      DecodeBodyDigits(Unpadded(s));
      UnpaddedShape(s);
    }
  }

  /** Encoding inverts decoding exactly on the texts whose unused bits are zero. */
  lemma {:induction false} EncodeInvertsDecode(s: string, b: seq<Byte>)
    requires Decode(s) == Some(b)
    ensures Encode(b) == s <==> Canonical(Unpadded(s))
  {
    hide Encode, Body, DecodeBody, AllDigits, Canonical, Unpadded;
    DecodedShape(s);
    BodyShape(b);
    if s == "" {
      EmptyTexts();
    } else {
      var body := Unpadded(s);
      BodyOfDecodeBody(body, b);
      if Encode(b) == s { assert Encode(b)[..|body|] == body; }
    }
  }

  lemma EmptyTexts()
    ensures Unpadded("") == "" && Canonical("") && Encode([]) == ""
  {
  }

  // ---------------------------------------- the definition by concatenated bits

  /** The bits of bytes, concatenated and read as a number. */
  function BitsOfBytes(b: seq<Byte>): nat {
    if b == [] then 0 else 256 * BitsOfBytes(b[..|b| - 1]) + b[|b| - 1]
  }

  /** The six-bit groups of digits, concatenated and read as a number. */
  function BitsOfDigits(s: string): nat
    requires AllDigits(s)
  {
    if s == "" then 0 else 64 * BitsOfDigits(s[..|s| - 1]) + DigitOf(s[|s| - 1])
  }

  lemma BytesAppend(b: seq<Byte>, x: Byte)
    ensures BitsOfBytes(b + [x]) == 256 * BitsOfBytes(b) + x
  {
    assert (b + [x])[..|b|] == b;
  }

  lemma DigitsAppend(s: string, d: nat)
    requires AllDigits(s) && d < 64
    ensures AllDigits(s + [CharOf(d)]) && BitsOfDigits(s + [CharOf(d)]) == 64 * BitsOfDigits(s) + d
  {
    hide CharOf;
    assert (s + [CharOf(d)])[..|s|] == s;
  }

  lemma {:induction false} BodyAppend(a: seq<Byte>, b: seq<Byte>)
    requires |a| % 3 == 0
    ensures Body(a + b) == Body(a) + Body(b)
  {
    hide Group;
    if a == [] {
      assert a + b == b;
    } else {
      assert |a| >= 3;
      BodyAppend(a[3..], b);
      assert (a + b)[3..] == a[3..] + b;
    }
  }

  lemma TwoDigits(s: string, t1: Byte)
    requires AllDigits(s)
    ensures var r := s + Group(t1, 0, 0)[..2];
      AllDigits(r) && BitsOfDigits(r) == (BitsOfDigits(s) * 256 + t1) * 16
  {
    hide CharOf, DigitOf, AllDigits;
    DigitsAppend(s, t1 / 4);
    DigitsAppend(s + [CharOf(t1 / 4)], t1 % 4 * 16);
    assert s + Group(t1, 0, 0)[..2] == s + [CharOf(t1 / 4)] + [CharOf(t1 % 4 * 16)];
  }

  lemma ThreeDigits(s: string, t1: Byte, t2: Byte)
    requires AllDigits(s)
    ensures var r := s + Group(t1, t2, 0)[..3];
      AllDigits(r) && BitsOfDigits(r) == ((BitsOfDigits(s) * 256 + t1) * 256 + t2) * 4
  {
    hide CharOf, DigitOf, AllDigits;
    var c0, c1, c2 := CharOf(t1 / 4), CharOf(t1 % 4 * 16 + t2 / 16), CharOf(t2 % 16 * 4);
    DigitsAppend(s, t1 / 4);
    DigitsAppend(s + [c0], t1 % 4 * 16 + t2 / 16);
    DigitsAppend(s + [c0] + [c1], t2 % 16 * 4);
    assert s + Group(t1, t2, 0)[..3] == s + [c0] + [c1] + [c2];
  }

  lemma FourDigits(s: string, t1: Byte, t2: Byte, t3: Byte)
    requires AllDigits(s)
    ensures var r := s + Group(t1, t2, t3);
      AllDigits(r) && BitsOfDigits(r) == ((BitsOfDigits(s) * 256 + t1) * 256 + t2) * 256 + t3
  {
    hide CharOf, DigitOf, AllDigits;
    var c0, c1, c2, c3 := CharOf(t1 / 4), CharOf(t1 % 4 * 16 + t2 / 16), CharOf(t2 % 16 * 4 + t3 / 64), CharOf(t3 % 64);
    DigitsAppend(s, t1 / 4);
    DigitsAppend(s + [c0], t1 % 4 * 16 + t2 / 16);
    DigitsAppend(s + [c0] + [c1], t2 % 16 * 4 + t3 / 64);
    DigitsAppend(s + [c0] + [c1] + [c2], t3 % 64);
    assert s + Group(t1, t2, t3) == s + [c0] + [c1] + [c2] + [c3];
  }

  /** The encoding is what section 4 of RFC 4648 says: the digits are the bits of the bytes in
      groups of six, with zero bits added on the right to fill the last group. */
  lemma {:induction false} SameBits(b: seq<Byte>)
    ensures AllDigits(Body(b))
    ensures |b| % 3 == 0 ==> BitsOfDigits(Body(b)) == BitsOfBytes(b)
    ensures |b| % 3 == 1 ==> BitsOfDigits(Body(b)) == BitsOfBytes(b) * 16
    ensures |b| % 3 == 2 ==> BitsOfDigits(Body(b)) == BitsOfBytes(b) * 4
    decreases |b|
  {
    hide Group, AllDigits, BitsOfDigits, BitsOfBytes, Body, Pad, BodySize;
    BodyDigits(b);
    if |b| == 0 {
      NoBits();
    } else {
      var n := if |b| % 3 == 0 then 3 else |b| % 3;
      var a, last := b[..|b| - n], b[|b| - n..];
      assert |a| % 3 == 0 && |last| == n;
      SameBits(a);
      assert b == a + last;
      BodyAppend(a, last);
      LastBits(a, last);
      LastBody(last);
      if n == 1 {
        TwoDigits(Body(a), last[0]);
      } else if n == 2 {
        ThreeDigits(Body(a), last[0], last[1]);
      } else {
        FourDigits(Body(a), last[0], last[1], last[2]);
      }
    }
  }

  lemma NoBits()
    ensures AllDigits("") && BitsOfDigits("") == 0 && BitsOfBytes([]) == 0 && Body([]) == ""
  {
  }

  lemma LastBody(last: seq<Byte>)
    ensures |last| == 1 ==> Body(last) == Group(last[0], 0, 0)[..2]
    ensures |last| == 2 ==> Body(last) == Group(last[0], last[1], 0)[..3]
    ensures |last| == 3 ==> Body(last) == Group(last[0], last[1], last[2])
  {
    hide CharOf;
  }

  lemma LastBits(a: seq<Byte>, last: seq<Byte>)
    ensures |last| == 1 ==> BitsOfBytes(a + last) == BitsOfBytes(a) * 256 + last[0]
    ensures |last| == 2 ==> BitsOfBytes(a + last) == (BitsOfBytes(a) * 256 + last[0]) * 256 + last[1]
    ensures |last| == 3 ==> BitsOfBytes(a + last) == ((BitsOfBytes(a) * 256 + last[0]) * 256 + last[1]) * 256 + last[2]
  {
    hide BitsOfBytes;
    if |last| >= 1 {
      BytesAppend(a, last[0]);
    }
    if |last| >= 2 {
      BytesAppend(a + [last[0]], last[1]);
    }
    if |last| >= 3 {
      BytesAppend(a + [last[0]] + [last[1]], last[2]);
    }
    assert |last| == 1 ==> a + last == a + [last[0]];
    assert |last| == 2 ==> a + last == a + [last[0]] + [last[1]];
    assert |last| == 3 ==> a + last == a + [last[0]] + [last[1]] + [last[2]];
  }

  lemma TwoDigitBody(c0: char, c1: char)
    requires IsDigit(c0) && IsDigit(c1)
    ensures DecodeBody([c0, c1]) == Some([First(c0, c1)])
  {
    hide DigitOf;
    var s := [c0, c1];
    assert s[..2] == s;
  }

  lemma UnpaddedTwo(c0: char, c1: char)
    requires c1 != '='
    ensures Unpadded([c0, c1] + "==") == [c0, c1]
  {
    var s := [c0, c1] + "==";
    assert s[..2] == [c0, c1];
  }

  /** "AB==" decodes to one zero byte, whose encoding is "AA==". */
  lemma UnusedBitsAreLost()
    ensures Decode(['A', 'B'] + "==") == Some([0]) && Encode([0]) != ['A', 'B'] + "=="
  {
    var body := ['A', 'B'];
    TwoDigitBody('A', 'B');
    UnpaddedTwo('A', 'B');
    assert First('A', 'B') == 0;
    assert !Canonical(body) by { assert DigitOf('B') == 1; }
    hide Encode, DecodeBody, Unpadded, DigitOf, Canonical;
    EncodeInvertsDecode(body + "==", [0]);
  }
}
