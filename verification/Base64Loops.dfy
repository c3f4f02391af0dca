/** The loops of modp_b64 over caller-supplied buffers, and the string rewriting of
    base64url.cc, proved against the functions of Base64 and Base64Url. */
module Base64Loops {
  import opened Common
  import opened Base64
  import opened Base64Url

  lemma {:induction false} EncodeAppend(a: seq<Byte>, b: seq<Byte>)
    requires |a| % 3 == 0
    ensures Encode(a + b) == Encode(a) + Encode(b)
  {
    hide Group;
    if a == [] {
      assert a + b == b;
    } else {
      assert |a| >= 3;
      EncodeAppend(a[3..], b);
      assert (a + b)[3..] == a[3..] + b;
    }
  }

  lemma EncodeStep(str: seq<Byte>, i: nat)
    requires i % 3 == 0 && i + 2 < |str|
    ensures Encode(str[..i + 3]) == Encode(str[..i]) + Group(str[i], str[i + 1], str[i + 2])
  {
    hide Group;
    var three := [str[i], str[i + 1], str[i + 2]];
    assert str[..i + 3] == str[..i] + three;
    EncodeAppend(str[..i], three);
    assert three[3..] == [];
  }

  method WriteFour(dest: array<char>, p: nat, c0: char, c1: char, c2: char, c3: char)
    requires p + 4 <= dest.Length
    modifies dest
    ensures dest[..p + 4] == old(dest[..p]) + [c0, c1, c2, c3]
  {
    ghost var done := dest[..p];
    dest[p], dest[p + 1], dest[p + 2], dest[p + 3] := c0, c1, c2, c3;
    assert dest[..p + 4] == done + [c0, c1, c2, c3];
  }

  /** The last one or two bytes. */
  method WriteLast(dest: array<char>, p: nat, rest: seq<Byte>) returns (size: nat)
    requires |rest| <= 2 && p + (if rest == [] then 0 else 4) <= dest.Length
    modifies dest
    ensures size == p + (if rest == [] then 0 else 4) && dest[..size] == old(dest[..p]) + Encode(rest)
  {
    hide CharOf, Encode;
    LastGroup(rest);
    if |rest| == 0 {
      return p;
    } else if |rest| == 1 {
      var t1 := rest[0];
      WriteFour(dest, p, CharOf(t1 / 4), CharOf(t1 % 4 * 16), '=', '=');
    } else {
      var t1, t2 := rest[0], rest[1];
      WriteFour(dest, p, CharOf(t1 / 4), CharOf(t1 % 4 * 16 + t2 / 16), CharOf(t2 % 16 * 4), '=');
    }
    return p + 4;
  }

  /** modp_b64_encode: the text, and a null byte after it, fit the buffer. */
  method EncodeInto(dest: array<char>, str: seq<Byte>) returns (size: nat)
    requires dest.Length >= (|str| + 2) / 3 * 4 + 1
    modifies dest
    ensures size < dest.Length && dest[..size] == Encode(str) && dest[size] as int == 0
  {
    hide Encode, CharOf;
    var i, p := 0, 0;
    LastGroup(str[..0]);
    if |str| > 2 {
      while i < |str| - 2
        invariant i % 3 == 0 && i <= |str| && p == i / 3 * 4
        invariant dest[..p] == Encode(str[..i])
      {
        var t1, t2, t3 := str[i], str[i + 1], str[i + 2];
        EncodeStep(str, i);
        WriteFour(dest, p, CharOf(t1 / 4), CharOf(t1 % 4 * 16 + t2 / 16), CharOf(t2 % 16 * 4 + t3 / 64), CharOf(t3 % 64));
        i, p := i + 3, p + 4;
      }
    }
    EncodeAppend(str[..i], str[i..]);
    assert str == str[..i] + str[i..];
    size := WriteLast(dest, p, str[i..]);
    ghost var text := dest[..size];
    dest[size] := 0 as char;
    assert dest[..size] == text;
  }

  lemma OneByte(t1: Byte)
    ensures Encode([t1]) == [CharOf(t1 / 4), CharOf(t1 % 4 * 16), '=', '=']
  {
    hide CharOf;
    var b: seq<Byte> := [t1];
    assert |b| == 1 && b[0] == t1;
    assert Encode(b) == Group(t1, 0, 0)[..2] + "==";
  }

  lemma TwoBytes(t1: Byte, t2: Byte)
    ensures Encode([t1, t2]) == [CharOf(t1 / 4), CharOf(t1 % 4 * 16 + t2 / 16), CharOf(t2 % 16 * 4), '=']
  {
    hide CharOf;
    var b: seq<Byte> := [t1, t2];
    assert |b| == 2 && b[0] == t1 && b[1] == t2;
    assert Encode(b) == Group(t1, t2, 0)[..3] + "=";
  }

  lemma {:induction false} LastGroup(b: seq<Byte>)
    ensures |b| == 0 ==> Encode(b) == ""
    ensures |b| == 1 ==> Encode(b) == [CharOf(b[0] / 4), CharOf(b[0] % 4 * 16), '=', '=']
    ensures |b| == 2 ==>
      Encode(b) == [CharOf(b[0] / 4), CharOf(b[0] % 4 * 16 + b[1] / 16), CharOf(b[1] % 16 * 4), '=']
  {
    hide CharOf, Group;
    if |b| == 1 {
      OneByte(b[0]);
      assert b == [b[0]];
    } else if |b| == 2 {
      TwoBytes(b[0], b[1]);
      assert b == [b[0], b[1]];
    }
  }

  // ------------------------------------------------------------------ decoding

  function Joined(done: seq<Byte>, rest: Option<seq<Byte>>): Option<seq<Byte>> {
    match rest
    case None => None
    case Some(more) => Some(done + more)
  }

  function Three(s: string): seq<Byte>
    requires |s| >= 4 && AllDigits(s[..4])
  {
    assert IsDigit(s[..4][0]) && IsDigit(s[..4][1]) && IsDigit(s[..4][2]) && IsDigit(s[..4][3]);
    [First(s[0], s[1]), Second(s[1], s[2]), Third(s[2], s[3])]
  }

  lemma {:induction false} DecodeStep(body: string, y: nat, done: seq<Byte>)
    requires y + 4 <= |body| && Joined(done, DecodeBody(body[y..])) == DecodeBody(body)
    ensures var s := body[y..];
      && (!AllDigits(s[..4]) ==> DecodeBody(body) == None)
      && (AllDigits(s[..4]) ==> Joined(done + Three(s), DecodeBody(body[y + 4..])) == DecodeBody(body))
  {
    hide IsDigit, First, Second, Third;
    var s := body[y..];
    assert s[4..] == body[y + 4..];
    if AllDigits(s[..4]) {
      var rest := DecodeBody(s[4..]);
      if rest.Some? {
        assert done + Three(s) + rest.value == done + (Three(s) + rest.value);
      }
    }
  }

  /** The length without the padding that is dropped. */
  method UnpaddedLength(src: string) returns (len: nat)
    requires |src| >= 4
    ensures len <= |src| && src[..len] == Unpadded(src)
  {
    len := |src|;
    if src[len - 1] == '=' {
      len := len - 1;
      if src[len - 1] == '=' {
        len := len - 1;
      }
    }
  }

  /** modp_b64_decode: the number of bytes written, or -1 for a text it does not accept. */
  method DecodeInto(dest: array<Byte>, src: string) returns (size: int)
    requires dest.Length >= |src| / 4 * 3 + 2
    modifies dest
    ensures Decode(src).None? <==> size == -1
    ensures Decode(src).Some? ==> 0 <= size <= dest.Length && Decode(src) == Some(dest[..size])
  {
    hide Unpadded, DecodeBody;
    if |src| == 0 {
      assert dest[..0] == [];
      return 0;
    }
    if |src| < 4 || |src| % 4 != 0 {
      return -1;
    }
    var len := UnpaddedLength(src);
    UnpaddedSize(src);
    size := DecodeDigits(dest, src[..len]);
  }

  lemma UnpaddedSize(src: string)
    requires |src| >= 4
    ensures |src| - 2 <= |Unpadded(src)| <= |src|
  {
  }

  /** The loop over groups of four digits, and what is left over. */
  method DecodeDigits(dest: array<Byte>, body: string) returns (size: int)
    requires |body| >= 2 && |body| % 4 != 1 && dest.Length >= (|body| + 3) / 4 * 3
    modifies dest
    ensures DecodeBody(body).None? <==> size == -1
    ensures DecodeBody(body).Some? ==> 0 <= size <= dest.Length && DecodeBody(body) == Some(dest[..size])
  {
    hide DecodeBody, First, Second, Third, IsDigit, AllDigits;
    var leftover := |body| % 4;
    var chunks := if leftover == 0 then |body| / 4 - 1 else |body| / 4;
    var y, p := 0, 0;
    JoinedNone(DecodeBody(body));
    assert dest[..0] == [] && body[0..] == body;
    for i := 0 to chunks
      invariant y == 4 * i && p == 3 * i
      invariant Joined(dest[..p], DecodeBody(body[y..])) == DecodeBody(body)
    {
      DecodeStep(body, y, dest[..p]);
      var group := body[y..][..4];
      if !AllDigits(group) {
        return -1;
      }
      ThreeOf(body[y..]);
      WriteThree(dest, p, group);
      y, p := y + 4, p + 3;
    }
    size := LastBytes(dest, p, body[y..]);
  }

  lemma JoinedNone(r: Option<seq<Byte>>)
    ensures Joined([], r) == r
  {
    if r.Some? {
      assert [] + r.value == r.value;
    }
  }

  lemma ThreeOf(s: string)
    requires |s| >= 4 && AllDigits(s[..4])
    ensures s[..4][..4] == s[..4] && Three(s[..4]) == Three(s)
  {
    hide First, Second, Third, IsDigit;
  }

  method WriteThree(dest: array<Byte>, p: nat, group: string)
    requires |group| >= 4 && AllDigits(group[..4]) && p + 3 <= dest.Length
    modifies dest
    ensures dest[..p + 3] == old(dest[..p]) + Three(group)
  {
    hide First, Second, Third, IsDigit;
    ghost var done := dest[..p];
    var x := Three(group);
    dest[p], dest[p + 1], dest[p + 2] := x[0], x[1], x[2];
    assert dest[..p + 3] == done + x;
  }

  /** The switch after the loop: the last one to four digits. */
  method LastBytes(dest: array<Byte>, p: nat, tail: string) returns (size: int)
    requires 2 <= |tail| <= 4 && p + |tail| - 1 <= dest.Length
    modifies dest
    ensures DecodeBody(tail).None? <==> size == -1
    ensures DecodeBody(tail).Some? ==> p <= size <= dest.Length && Some(dest[..size]) == Joined(old(dest[..p]), DecodeBody(tail))
  {
    hide First, Second, Third, IsDigit;
    assert tail[..|tail|] == tail;
    if !AllDigits(tail) {
      return -1;
    }
    ghost var done := dest[..p];
    if |tail| == 4 {
      var x := Three(tail);
      dest[p], dest[p + 1], dest[p + 2] := x[0], x[1], x[2];
      assert tail[4..] == "" && DecodeBody("") == Some([]);
      assert DecodeBody(tail) == Some(x + []);
      assert dest[..p + 3] == done + (x + []);
      return p + 3;
    } else if |tail| == 2 {
      dest[p] := First(tail[0], tail[1]);
      assert dest[..p + 1] == done + [dest[p]];
      return p + 1;
    } else {
      dest[p], dest[p + 1] := First(tail[0], tail[1]), Second(tail[1], tail[2]);
      assert dest[..p + 2] == done + [dest[p], dest[p + 1]];
      return p + 2;
    }
  }

  // ----------------------------------------------------------------- base64url

  /** find_last_not_of followed by resize. */
  method StripTrailing(text: string) returns (r: string)
    ensures r == Stripped(text)
  {
    var last := |text|;
    assert text[..last] == text;
    while last > 0 && text[last - 1] == '='
      invariant 0 <= last <= |text|
      invariant StripTo(text[..last]) == StripTo(text)
    {
      assert text[..last][..last - 1] == text[..last - 1];
      last := last - 1;
    }
    r := if last > 0 then text[..last] else text;
  }

  method UrlEncodeText(input: seq<Byte>, policy: EncodePolicy) returns (output: string)
    ensures output == UrlEncode(input, policy)
  {
    hide Encode, Replace, Stripped;
    var dest := new char[(|input| + 2) / 3 * 4 + 1];
    var size := EncodeInto(dest, input);
    output := Replace(dest[..size], '+', '-');
    output := Replace(output, '/', '_');
    match policy
    case IncludePadding =>
    case OmitPadding => output := StripTrailing(output);
  }

  method DecodeText(input: string) returns (r: Option<seq<Byte>>)
    ensures r == Decode(input)
  {
    hide Decode;
    var dest: array<Byte> := new Byte[|input| / 4 * 3 + 2];
    var size := DecodeInto(dest, input);
    if size == -1 {
      return None;
    }
    return Some(dest[..size]);
  }

  /** The copy is made only when something has to be replaced or padded. */
  method UrlDecodeText(input: string, policy: DecodePolicy) returns (r: Option<seq<Byte>>)
    ensures r == UrlDecode(input, policy)
  {
    hide Decode;
    if '+' in input || '/' in input {
      return None;
    }
    var required := |input| % 4;
    var replace := '-' in input || '_' in input;
    match policy {
      case RequirePadding => if required > 0 { return None; }
      case IgnorePadding =>
      case DisallowPadding => if '=' in input { return None; }
    }
    if required > 0 || replace {
      var copy := Replace(Replace(input, '-', '+'), '_', '/');
      if required > 0 {
        copy := copy + Padding(4 - required);
      }
      assert copy == Completed(input);
      r := DecodeText(copy);
    } else {
      assert Completed(input) == input;
      r := DecodeText(input);
    }
  }
}
