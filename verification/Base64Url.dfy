/** Base64url (section 5 of RFC 4648) as base64url.cc builds it on base64, with the padding
    policies of both directions. */
module Base64Url {
  import opened Common
  import opened Base64

  datatype EncodePolicy = IncludePadding | OmitPadding

  datatype DecodePolicy = RequirePadding | IgnorePadding | DisallowPadding

  /** ReplaceChars with one character to replace. */
  function Replace(s: string, from: char, to: char): (r: string)
    ensures |r| == |s|
    ensures forall i :: 0 <= i < |s| ==> r[i] == if s[i] == from then to else s[i]
  {
    seq(|s|, i requires 0 <= i < |s| => if s[i] == from then to else s[i])
  }

  function ToUrl(s: string): string {
    Replace(Replace(s, '+', '-'), '/', '_')
  }

  function FromUrl(s: string): string {
    Replace(Replace(s, '-', '+'), '_', '/')
  }

  /** The text up to its last character that is not padding; a text of nothing but padding
      is left alone. */
  function Stripped(s: string): string {
    if StripTo(s) == 0 then s else s[..StripTo(s)]
  }

  function StripTo(s: string): (n: nat)
    ensures n <= |s|
    ensures n > 0 ==> s[n - 1] != '='
    ensures forall i :: n <= i < |s| ==> s[i] == '='
  {
    if s == "" then 0
    else if s[|s| - 1] == '=' then StripTo(s[..|s| - 1])
    else |s|
  }

  function UrlEncode(b: seq<Byte>, policy: EncodePolicy): string {
    var s := ToUrl(Encode(b));
    match policy
    case IncludePadding => s
    case OmitPadding => Stripped(s)
  }

  function Padding(n: nat): (p: string)
    ensures |p| == n && forall i :: 0 <= i < n ==> p[i] == '='
  {
    seq(n, _ => '=')
  }

  predicate Rejected(s: string, policy: DecodePolicy) {
    || '+' in s || '/' in s
    || (policy == RequirePadding && |s| % 4 > 0)
    || (policy == DisallowPadding && '=' in s)
  }

  /** The base64 text that is decoded in place of `s`. */
  function Completed(s: string): string {
    FromUrl(s) + if |s| % 4 > 0 then Padding(4 - |s| % 4) else ""
  }

  function UrlDecode(s: string, policy: DecodePolicy): Option<seq<Byte>> {
    if Rejected(s, policy) then None else Decode(Completed(s))
  }

  // ------------------------------------------------------------- alphabet change

  /** A text of digits of the URL alphabet, possibly with padding. */
  predicate UrlSafe(s: string) {
    '+' !in s && '/' !in s
  }

  predicate NoUrlChars(s: string) {
    '-' !in s && '_' !in s
  }

  lemma ToUrlFacts(s: string)
    requires NoUrlChars(s)
    ensures |ToUrl(s)| == |s| && UrlSafe(ToUrl(s)) && FromUrl(ToUrl(s)) == s
    ensures forall i :: 0 <= i < |s| ==> (ToUrl(s)[i] == '=' <==> s[i] == '=')
  {
    var r := ToUrl(s);
    assert forall i :: 0 <= i < |s| ==> r[i] == if s[i] == '+' then '-' else if s[i] == '/' then '_' else s[i];
  }

  lemma FromUrlFacts(s: string)
    requires UrlSafe(s)
    ensures |FromUrl(s)| == |s| && NoUrlChars(FromUrl(s)) && ToUrl(FromUrl(s)) == s
    ensures forall i :: 0 <= i < |s| ==> (FromUrl(s)[i] == '=' <==> s[i] == '=')
  {
    var r := FromUrl(s);
    assert forall i :: 0 <= i < |s| ==> r[i] == if s[i] == '-' then '+' else if s[i] == '_' then '/' else s[i];
  }

  lemma ToUrlAppend(a: string, b: string)
    ensures ToUrl(a + b) == ToUrl(a) + ToUrl(b)
  {
  }

  lemma DigitsAreBase64(s: string)
    requires AllDigits(s)
    ensures NoUrlChars(s) && '=' !in s
  {
    assert !IsDigit('-') && !IsDigit('_') && !IsDigit('=');
  }

  lemma StripPadding(a: string, b: string)
    requires a != "" && '=' !in a && forall i :: 0 <= i < |b| ==> b[i] == '='
    ensures Stripped(a + b) == a
  {
    var s := a + b;
    var n := StripTo(s);
    assert s[|a| - 1] == a[|a| - 1] != '=';
    assert n >= |a|;
    assert s[..|a|] == a;
  }

  // ------------------------------------------------------------------ encoding

  lemma {:induction false} UrlBody(b: seq<Byte>)
    ensures ToUrl(Encode(b)) == ToUrl(Body(b)) + Pad(|b|)
    ensures AllDigits(Body(b)) && UrlSafe(ToUrl(Body(b))) && '=' !in ToUrl(Body(b))
  {
    hide Encode, Body, AllDigits, ToUrl, NoUrlChars, Pad;
    BodyShape(b);
    DigitsAreBase64(Body(b));
    ToUrlFacts(Body(b));
    ToUrlAppend(Body(b), Pad(|b|));
    PadToUrl(|b|);
  }

  /** The encoding in the URL alphabet: digits, then the padding if it is included. */
  lemma {:induction false} UrlEncodeShape(b: seq<Byte>, policy: EncodePolicy)
    ensures UrlEncode(b, policy) == ToUrl(Body(b)) + if policy == OmitPadding then "" else Pad(|b|)
    ensures AllDigits(Body(b)) && UrlSafe(UrlEncode(b, policy))
  {
    hide Encode, Body, AllDigits, ToUrl;
    UrlBody(b);
    if policy == OmitPadding {
      var body := ToUrl(Body(b));
      assert body + "" == body;
      if body == "" {
        BodyShape(b);
        ToUrlLength(Body(b));
        assert Stripped("") == "";
      } else {
        StripPadding(body, Pad(|b|));
      }
    }
  }

  lemma ToUrlLength(s: string)
    ensures |ToUrl(s)| == |s|
  {
  }

  lemma PadToUrl(n: nat)
    ensures ToUrl(Pad(n)) == Pad(n)
  {
  }

  /** No output contains a character that a URL reserves. */
  lemma NeverReserved(b: seq<Byte>, policy: EncodePolicy)
    ensures '+' !in UrlEncode(b, policy) && '/' !in UrlEncode(b, policy)
  {
    hide UrlEncode;
    UrlEncodeShape(b, policy);
  }

  /** The length modulo four tells exactly the padding that was taken off. */
  lemma PaddingRestored(b: seq<Byte>)
    ensures var s := UrlEncode(b, OmitPadding);
      (if |s| % 4 > 0 then Padding(4 - |s| % 4) else "") == Pad(|b|)
  {
    hide UrlEncode, Body, AllDigits, ToUrl, BodySize;
    UrlEncodeShape(b, OmitPadding);
    BodyShape(b);
    Sizes(|b|);
    ToUrlLength(Body(b));
  }

  lemma {:induction false} CompletedEncode(b: seq<Byte>, policy: EncodePolicy)
    ensures Completed(UrlEncode(b, policy)) == Encode(b)
  {
    hide UrlEncode, Encode, Body, AllDigits, Padding, ToUrl, FromUrl, NoUrlChars;
    UrlEncodeShape(b, policy);
    BodyShape(b);
    DigitsAreBase64(Body(b));
    ToUrlFacts(Body(b));
    if policy == OmitPadding {
      PaddingRestored(b);
      assert UrlEncode(b, policy) == ToUrl(Body(b));
    } else {
      EncodeLength(b);
      PlainFromUrl(ToUrl(Body(b)), Pad(|b|));
    }
  }

  lemma PlainFromUrl(a: string, pad: string)
    requires forall i :: 0 <= i < |pad| ==> pad[i] == '='
    ensures FromUrl(a + pad) == FromUrl(a) + pad
  {
  }

  /** When a decoder accepts the padding an encoder leaves: always, except that required
      padding must have been included and forbidden padding omitted, unless the length is a
      multiple of three. */
  predicate Compatible(n: nat, encode: EncodePolicy, decode: DecodePolicy) {
    n % 3 == 0 || decode == IgnorePadding || (decode == RequirePadding <==> encode == IncludePadding)
  }

  lemma PaddingPresent(b: seq<Byte>, encode: EncodePolicy)
    ensures '=' in UrlEncode(b, encode) <==> encode == IncludePadding && |b| % 3 != 0
  {
    hide UrlEncode, Body, AllDigits, ToUrl;
    UrlEncodeShape(b, encode);
    UrlBody(b);
    var pad := Pad(|b|);
    assert '=' in pad <==> |b| % 3 != 0 by { assert |b| % 3 != 0 ==> pad[0] == '='; }
  }

  lemma LengthShort(b: seq<Byte>, encode: EncodePolicy)
    ensures |UrlEncode(b, encode)| % 4 > 0 <==> encode == OmitPadding && |b| % 3 != 0
  {
    hide UrlEncode, Body, AllDigits, ToUrl, Pad, BodySize;
    UrlEncodeShape(b, encode);
    BodyShape(b);
    Sizes(|b|);
    ToUrlLength(Body(b));
  }

  lemma RejectedEncode(b: seq<Byte>, encode: EncodePolicy, decode: DecodePolicy)
    ensures Rejected(UrlEncode(b, encode), decode) <==> !Compatible(|b|, encode, decode)
  {
    hide UrlEncode;
    NeverReserved(b, encode);
    PaddingPresent(b, encode);
    LengthShort(b, encode);
  }

  /** Decoding inverts encoding for every byte string and every compatible pair of policies;
      an incompatible pair always fails. */
  lemma {:induction false} UrlRoundTrip(b: seq<Byte>, encode: EncodePolicy, decode: DecodePolicy)
    ensures UrlDecode(UrlEncode(b, encode), decode) == if Compatible(|b|, encode, decode) then Some(b) else None
  {
    hide UrlEncode, Encode, Decode, Rejected, Completed, Compatible;
    RejectedEncode(b, encode, decode);
    CompletedEncode(b, encode);
    DecodeInvertsEncode(b);
  }

  // ------------------------------------------------------------------ decoding

  lemma UnpaddedCompleted(s: string)
    requires '=' !in s && UrlSafe(s) && Decode(Completed(s)).Some?
    ensures Unpadded(Completed(s)) == FromUrl(s)
  {
    hide Decode, AllDigits;
    FromUrlFacts(s);
    var r, c := FromUrl(s), Completed(s);
    DecodedShape(c);
    assert c[..|r|] == r;
    if |s| % 4 == 1 {
      assert c == r + "===";
      assert Unpadded(c) == r + "=";
      DigitsAreBase64(Unpadded(c));
    }
  }

  /** A text that decodes where padding is forbidden is the encoding, without padding, of
      what it decodes to, exactly when the unused bits of its last digit are zero. */
  lemma {:induction false} UrlEncodeInvertsDecode(s: string, b: seq<Byte>)
    requires UrlDecode(s, DisallowPadding) == Some(b)
    ensures UrlEncode(b, OmitPadding) == s <==> Canonical(FromUrl(s))
  {
    hide UrlEncode, Decode, Encode, Completed, Canonical, Unpadded, Body;
    UnpaddedCompleted(s);
    EncodeInvertsDecode(Completed(s), b);
    CompletedEncode(b, OmitPadding);
    UnpaddedEncode(b);
    UrlEncodeShape(b, OmitPadding);
    FromUrlFacts(s);
    assert ToUrl(Body(b)) + "" == ToUrl(Body(b));
  }

  /** The same where padding is required. */
  lemma {:induction false} UrlEncodeInvertsPadded(s: string, b: seq<Byte>)
    requires UrlDecode(s, RequirePadding) == Some(b)
    ensures UrlEncode(b, IncludePadding) == s <==> Canonical(Unpadded(FromUrl(s)))
  {
    hide Decode, Encode, Canonical, Unpadded, NoUrlChars;
    FromUrlFacts(s);
    assert Completed(s) == FromUrl(s);
    EncodeInvertsDecode(FromUrl(s), b);
    CompletedEncode(b, IncludePadding);
  }
}
