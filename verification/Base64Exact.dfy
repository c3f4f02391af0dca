/** Exactly which texts decode, under base64 and under each padding policy of base64url,
    and to which bytes. */
module Base64Exact {
  import opened Common
  import opened Base64
  import opened Base64Url

  // ----------------------------------------------------------------- alphabet

  /** Table 1 of RFC 4648: upper case, lower case and decimal digits, each in order, then
      '+' and '/'. */
  lemma Alphabet(d: nat)
    requires d < 63
    ensures CharOf(0) == 'A' && CharOf(25) == 'Z' && CharOf(26) == 'a' && CharOf(51) == 'z'
    ensures CharOf(52) == '0' && CharOf(61) == '9' && CharOf(62) == '+' && CharOf(63) == '/'
    ensures d !in [25, 51, 61, 62] ==> CharOf(d + 1) as int == CharOf(d) as int + 1
  {
  }

  // --------------------------------------------------------- texts that decode

  /** The padding that fills `n` digits up to a multiple of four. */
  function Missing(n: nat): nat {
    if n % 4 == 0 then 0 else 4 - n % 4
  }

  lemma {:induction false} DigitsDecode(s: string)
    requires AllDigits(s)
    ensures DecodeBody(s).Some?
  {
    hide IsDigit;
    if |s| >= 4 {
      DigitsDecode(s[4..]);
    }
  }

  lemma UnpaddedFill(body: string, k: nat)
    requires AllDigits(body) && k <= 2 && body != ""
    ensures Unpadded(body + Padding(k)) == body
  {
    hide AllDigits, Padding;
    DigitIsNotPad(body);
    var s := body + Padding(k);
    assert s[..|body|] == body;
    assert k == 0 ==> s == body;
  }

  lemma FillLength(n: nat)
    ensures (n + Missing(n)) % 4 == 0 && (n % 4 != 1 ==> Missing(n) <= 2)
  {
  }

  /** Filled-up digits decode. */
  lemma FilledDecodes(body: string)
    requires AllDigits(body) && |body| % 4 != 1
    ensures Decode(body + Padding(Missing(|body|))).Some?
    ensures body != "" ==> Decode(body + Padding(Missing(|body|))) == DecodeBody(body)
  {
    hide AllDigits, DecodeBody, Padding, Unpadded, Missing;
    DigitsDecode(body);
    FillLength(|body|);
    if body == "" {
      NothingDecoded();
    } else {
      UnpaddedFill(body, Missing(|body|));
      var s := body + Padding(Missing(|body|));
      assert s != "" && |s| % 4 == 0;
    }
  }

  /** Base64Decode accepts exactly the digits whose number is not one more than a multiple of
      four, filled up with padding. */
  lemma {:induction false} DecodesExactly(s: string)
    ensures Decode(s).Some? <==>
      exists body: string :: AllDigits(body) && |body| % 4 != 1 && s == body + Padding(Missing(|body|))
  {
    hide Decode, AllDigits, Unpadded;
    if Decode(s).Some? {
      DecodedShape(s);
      var body := Unpadded(s);
      assert s == body + Padding(Missing(|body|));
    }
    if body: string :| AllDigits(body) && |body| % 4 != 1 && s == body + Padding(Missing(|body|)) {
      FilledDecodes(body);
    }
  }

  // ------------------------------------------------------- the bytes decoded

  /** The weight of the bits of `n` digits that belong to no byte. */
  function Spare(n: nat): nat {
    if n % 4 == 2 then 16 else if n % 4 == 3 then 4 else 1
  }

  lemma SpareShort(c0: char, c1: char, c2: char)
    requires IsDigit(c0) && IsDigit(c1) && IsDigit(c2)
    ensures var g := Group(First(c0, c1), 0, 0); g[0] == c0 && DigitOf(g[1]) == DigitOf(c1) - DigitOf(c1) % 16
    ensures var g := Group(First(c0, c1), Second(c1, c2), 0);
      g[0] == c0 && g[1] == c1 && DigitOf(g[2]) == DigitOf(c2) - DigitOf(c2) % 4
  {
    hide CharOf, DigitOf;
    CharOfDigit(c0);
    CharOfDigit(c1);
    Regroup(DigitOf(c0), DigitOf(c1), DigitOf(c2), 0);
    Regroup(DigitOf(c0), DigitOf(c1), 0, 0);
    var d1, d2 := DigitOf(c1), DigitOf(c2);
    assert (d1 / 16) * 16 == d1 - d1 % 16;
    assert d2 / 4 * 4 == d2 - d2 % 4;
    assert d2 / 4 % 16 == d2 / 4;
  }

  lemma {:induction false} NearlyShort(s: string, b: seq<Byte>)
    requires DecodeBody(s) == Some(b) && 2 <= |s| <= 3
    ensures |Body(b)| == |s| && Body(b)[..|s| - 1] == s[..|s| - 1]
    ensures AllDigits(s) && DigitOf(Body(b)[|s| - 1]) == DigitOf(s[|s| - 1]) - DigitOf(s[|s| - 1]) % Spare(|s|)
  {
    hide CharOf, DigitOf, Group, First, Second, IsDigit;
    assert s[..|s|] == s;
    SpareShort(s[0], s[1], s[|s| - 1]);
    GroupLength(First(s[0], s[1]), 0, 0);
    if |s| == 2 {
      assert Body(b) == Group(First(s[0], s[1]), 0, 0)[..2];
    } else {
      GroupLength(First(s[0], s[1]), Second(s[1], s[2]), 0);
      assert Body(b) == Group(First(s[0], s[1]), Second(s[1], s[2]), 0)[..3];
    }
  }

  /** Encoding what was decoded gives the digits back, but for the spare bits of the last. */
  lemma {:induction false} NearlyBack(s: string, b: seq<Byte>)
    requires DecodeBody(s) == Some(b) && |s| % 4 != 1 && s != ""
    ensures |Body(b)| == |s| && Body(b)[..|s| - 1] == s[..|s| - 1]
    ensures AllDigits(s) && DigitOf(Body(b)[|s| - 1]) == DigitOf(s[|s| - 1]) - DigitOf(s[|s| - 1]) % Spare(|s|)
  {
    hide CharOf, DigitOf, Group, First, Second, Third, IsDigit;
    DecodeBodyDigits(s);
    if |s| < 4 {
      NearlyShort(s, b);
    } else {
      var rest := DecodeBody(s[4..]).value;
      GroupOfBytes(s[0], s[1], s[2], s[3]);
      assert b[3..] == rest;
      assert Body(b) == [s[0], s[1], s[2], s[3]] + Body(rest);
      assert s == [s[0], s[1], s[2], s[3]] + s[4..];
      if |s| > 4 {
        NearlyBack(s[4..], rest);
        assert s[..|s| - 1] == [s[0], s[1], s[2], s[3]] + s[4..][..|s| - 5];
      }
    }
  }

  lemma BitsOfLast(s: string, t: string)
    requires AllDigits(s) && AllDigits(t) && |s| == |t| > 0 && s[..|s| - 1] == t[..|s| - 1]
    ensures BitsOfDigits(s) - DigitOf(s[|s| - 1]) == BitsOfDigits(t) - DigitOf(t[|s| - 1])
  {
    hide DigitOf;
  }

  /** The bytes are the bits of the digits, eight at a time from the left, for every text that
      decodes; the bits that are left over are dropped. */
  lemma {:induction false} DecodedBits(body: string, b: seq<Byte>)
    requires AllDigits(body) && |body| % 4 != 1 && Decode(body + Padding(Missing(|body|))) == Some(b)
    ensures |b| == |body| * 6 / 8
    ensures BitsOfBytes(b) == BitsOfDigits(body) / Spare(|body|)
  {
    hide CharOf, DigitOf, AllDigits, Body, Decode, DecodeBody, BitsOfDigits, BitsOfBytes;
    if body == "" {
      NothingDecoded();
      NoBits();
    } else {
      FilledDecodes(body);
      BodyOfDecodeBody(body, b);
      NearlyBack(body, b);
      SameBits(b);
      BitsOfLast(Body(b), body);
      LastDigit(body);
      var w, d := Spare(|body|), DigitOf(body[|body| - 1]);
      assert BitsOfDigits(body) == BitsOfBytes(b) * w + d % w;
    }
  }

  lemma LastDigit(s: string)
    requires AllDigits(s) && s != ""
    ensures DigitOf(s[|s| - 1]) >= 0
  {
    assert IsDigit(s[|s| - 1]);
  }

  lemma NothingDecoded()
    ensures "" + Padding(Missing(0)) == "" && Decode("") == Some([])
  {
  }

  // ---------------------------------------------------------------- base64url

  /** Table 2 of RFC 4648. */
  predicate UrlDigit(c: char) {
    'A' <= c <= 'Z' || 'a' <= c <= 'z' || '0' <= c <= '9' || c == '-' || c == '_'
  }

  predicate UrlDigits(s: string) {
    forall i :: 0 <= i < |s| ==> UrlDigit(s[i])
  }

  /** No text with a '+' or a '/' decodes, whatever the policy. */
  lemma ReservedRejected(s: string, policy: DecodePolicy)
    requires '+' in s || '/' in s
    ensures UrlDecode(s, policy) == None
  {
  }

  lemma UrlDigitsFacts(s: string)
    ensures UrlSafe(s) ==> (AllDigits(FromUrl(s)) <==> UrlDigits(s))
    ensures UrlDigits(s) ==> UrlSafe(s) && '=' !in s
  {
    var r := FromUrl(s);
    assert forall i :: 0 <= i < |s| ==> r[i] == if s[i] == '-' then '+' else if s[i] == '_' then '/' else s[i];
    if UrlSafe(s) {
      forall i | 0 <= i < |s| ensures IsDigit(r[i]) <==> UrlDigit(s[i]) {
        assert s[i] in s;
      }
      assert UrlDigits(s) ==> AllDigits(r);
      if AllDigits(r) {
        forall i | 0 <= i < |s| ensures UrlDigit(s[i]) { assert IsDigit(r[i]); }
      }
    }
  }

  /** The padding that a decoding policy accepts after `n` digits. */
  predicate Accepts(policy: DecodePolicy, n: nat, k: nat) {
    match policy
    case RequirePadding => k == Missing(n)
    case IgnorePadding => k <= Missing(n)
    case DisallowPadding => k == 0
  }

  lemma PaddingSum(j: nat, k: nat)
    ensures Padding(j) + Padding(k) == Padding(j + k)
  {
  }

  lemma CompletedFilled(body: string, k: nat)
    requires UrlDigits(body) && |body| % 4 != 1 && k <= Missing(|body|)
    ensures Completed(body + Padding(k)) == FromUrl(body) + Padding(Missing(|body|))
  {
    hide FromUrl, UrlDigits, Padding;
    var s := body + Padding(k);
    FromUrlLength(body);
    PlainFromUrl(body, Padding(k));
    var more := if |s| % 4 > 0 then 4 - |s| % 4 else 0;
    assert k + more == Missing(|body|);
    PaddingSum(k, more);
    PaddingSum(k, 0);
    NoPadding();
    assert FromUrl(body) + Padding(k) + Padding(more) == FromUrl(body) + (Padding(k) + Padding(more));
    assert FromUrl(body) + Padding(k) + "" == FromUrl(body) + Padding(k);
  }

  lemma NoPadding()
    ensures Padding(0) == ""
  {
  }

  lemma FromUrlLength(s: string)
    ensures |FromUrl(s)| == |s|
  {
  }

  /** Base64UrlDecode on digits of the URL alphabet followed by padding. */
  lemma {:induction false} UrlDecodes(body: string, k: nat, policy: DecodePolicy)
    requires UrlDigits(body) && |body| % 4 != 1 && Accepts(policy, |body|, k)
    ensures UrlDecode(body + Padding(k), policy) == Decode(FromUrl(body) + Padding(Missing(|body|)))
    ensures UrlDecode(body + Padding(k), policy).Some?
  {
    hide FromUrl, Decode, AllDigits;
    var s := body + Padding(k);
    UrlDigitsFacts(body);
    FromUrlLength(body);
    CompletedFilled(body, k);
    FilledDecodes(FromUrl(body));
    assert '+' !in s && '/' !in s && (k == 0 ==> '=' !in s);
  }

  /** A part without padding ends before a part of nothing but padding begins. */
  lemma EndsBefore(x: string, n: nat, m: nat)
    requires n <= |x| && m <= |x|
    requires forall i :: 0 <= i < n ==> x[i] != '='
    requires forall i :: m <= i < |x| ==> x[i] == '='
    ensures n <= m
  {
    var y := x + "=";
    assert forall i :: 0 <= i < n ==> y[i] != '=';
    assert y[m] == '=';
  }

  /** The digits of a text that decodes once it is completed. */
  lemma {:induction false} CompletedDigits(s: string) returns (n: nat)
    requires UrlSafe(s) && Decode(Completed(s)).Some?
    ensures n <= |s| && n % 4 != 1 && |Completed(s)| == n + Missing(n)
    ensures AllDigits(FromUrl(s)[..n]) && forall i :: n <= i < |s| ==> FromUrl(s)[i] == '='
  {
    hide Decode, AllDigits, Unpadded, FromUrl;
    FromUrlLength(s);
    var c := Completed(s);
    DecodedShape(c);
    var r := Unpadded(c);
    n := |r|;
    DigitIsNotPad(r);
    assert c[..n] == r && c[..|s|] == FromUrl(s);
    assert forall i :: 0 <= i < n ==> c[i] == r[i];
    EndsBefore(c, n, |s|);
    assert FromUrl(s)[..n] == c[..n];
    forall i | n <= i < |s| ensures FromUrl(s)[i] == '=' {
      assert c[i] == FromUrl(s)[i];
    }
  }

  lemma FromUrlTake(s: string, n: nat)
    requires n <= |s|
    ensures FromUrl(s[..n]) == FromUrl(s)[..n]
  {
  }

  lemma {:induction false} UrlAccepted(s: string, policy: DecodePolicy) returns (body: string, k: nat)
    requires UrlDecode(s, policy).Some?
    ensures s == body + Padding(k) && UrlDigits(body) && |body| % 4 != 1 && Accepts(policy, |body|, k)
  {
    hide Decode, AllDigits, UrlDigits, FromUrl;
    var n := CompletedDigits(s);
    body, k := s[..n], |s| - n;
    FromUrlLength(s);
    FromUrlFacts(s);
    FromUrlTake(s, n);
    UrlDigitsFacts(body);
    assert s == body + Padding(k);
    if k > 0 {
      assert s[n] == '=';
    }
  }

  /** Base64UrlDecode accepts exactly: digits of the URL alphabet whose number is not one more
      than a multiple of four, followed by all of the missing padding, by any part of it, or by
      none, according to the policy. */
  lemma {:induction false} UrlDecodesExactly(s: string, policy: DecodePolicy)
    ensures UrlDecode(s, policy).Some? <==>
      exists body: string, k: nat ::
        s == body + Padding(k) && UrlDigits(body) && |body| % 4 != 1 && Accepts(policy, |body|, k)
  {
    hide UrlDecode, UrlDigits, Accepts, Padding;
    if UrlDecode(s, policy).Some? {
      var body, k := UrlAccepted(s, policy);
    }
    if body: string, k: nat :|
      s == body + Padding(k) && UrlDigits(body) && |body| % 4 != 1 && Accepts(policy, |body|, k)
    {
      UrlDecodes(body, k, policy);
    }
  }
}
