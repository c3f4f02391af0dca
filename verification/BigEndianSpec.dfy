/** Integers in big-endian order, for every width in bytes, and lists of fields made of
    integers, raw bytes and length-prefixed bytes. */
module BigEndianSpec {
  import opened Common
  import opened BitArith

  // ---------------------------------------------------------- numbers in bytes

  function Pow256(w: nat): (p: nat)
    ensures p > 0
  {
    if w == 0 then 1 else 256 * Pow256(w - 1)
  }

  /** The number that bytes stand for, the most significant byte first. */
  function Number(b: seq<Byte>): nat {
    if b == [] then 0 else 256 * Number(b[..|b| - 1]) + b[|b| - 1]
  }

  /** What WriteBigEndian stores for the value of a type of `w` bytes; a negative value
      stands for its two's complement. */
  function Bytes(v: int, w: nat): (b: seq<Byte>)
    ensures |b| == w
    decreases w
  {
    if w == 0 then [] else Bytes(v / 256, w - 1) + [v % 256]
  }

  /** The first byte converted to a word of `w` bytes: char may be signed. */
  function Extended(b: Byte, w: nat, charIsSigned: bool): (r: int)
    requires w > 0
    ensures 0 <= r < Pow256(w)
  {
    if charIsSigned && b >= 128 then Pow256(w) - 256 + b else b
  }

  /** One turn of ReadBigEndian's loop on a word of `w` bytes. */
  function ShiftIn(out: nat, b: Byte, w: nat): nat {
    Or(out * 256 % Pow256(w), b)
  }

  /** The word ReadBigEndian has after the first `k` bytes. */
  function Folded(b: seq<Byte>, k: nat, charIsSigned: bool): nat
    requires 0 < k <= |b|
  {
    if k == 1 then Extended(b[0], |b|, charIsSigned)
    else ShiftIn(Folded(b, k - 1, charIsSigned), b[k - 1], |b|)
  }

  /** The value of a word for a signed or an unsigned type. */
  function AsType(word: nat, w: nat, signed: bool): int {
    if signed && word >= Pow256(w) / 2 then word - Pow256(w) else word
  }

  predicate InType(v: int, w: nat, signed: bool) {
    if signed then -(Pow256(w) / 2) <= v < Pow256(w) - Pow256(w) / 2 else 0 <= v < Pow256(w)
  }

  lemma NumberAppend(b: seq<Byte>, x: Byte)
    ensures Number(b + [x]) == 256 * Number(b) + x
  {
    assert (b + [x])[..|b|] == b;
  }

  lemma {:induction false} NumberBound(b: seq<Byte>)
    ensures Number(b) < Pow256(|b|)
  {
    if b != [] {
      NumberBound(b[..|b| - 1]);
    }
  }

  /** The first byte is the most significant one. */
  lemma {:induction false} MostSignificantFirst(x: Byte, b: seq<Byte>)
    ensures Number([x] + b) == x * Pow256(|b|) + Number(b)
  {
    if b == [] {
      NumberAppend([], x);
      assert [x] + b == [] + [x];
    } else {
      var front, last := b[..|b| - 1], b[|b| - 1];
      MostSignificantFirst(x, front);
      NumberAppend([x] + front, last);
      NumberAppend(front, last);
      assert [x] + b == [x] + front + [last] && b == front + [last];
      var p := Pow256(|front|);
      assert 256 * (x * p) == x * (256 * p);
    }
  }

  /** What was shifted in on the left is shifted out again. */
  lemma {:induction false} ShiftedMod(v: nat, p: nat, q: nat, e: nat)
    requires e <= 1 && v < p && q >= 256 * p
    ensures (v + e * (q - p)) * 256 % q == v * 256 + e * (q - 256 * p)
  {
    if e == 0 {
      SmallMod(v * 256, q);
    } else {
      DivUnique((v + (q - p)) * 256, q, 255, v * 256 + (q - 256 * p));
    }
  }

  lemma {:induction false} Pow256Grows(j: nat, k: nat)
    requires j < k
    ensures Pow256(k) >= 256 * Pow256(j)
  {
    if j + 1 < k {
      Pow256Grows(j, k - 1);
    }
  }

  lemma LowByteZero(v: nat, w: nat, k: nat, e: nat)
    requires 0 < k <= w && e <= 1 && Pow256(w) >= Pow256(k)
    ensures (v * 256 + e * (Pow256(w) - Pow256(k))) % 256 == 0
  {
    assert Pow256(w) == 256 * Pow256(w - 1) && Pow256(k) == 256 * Pow256(k - 1);
    hide Pow256;
    if e == 0 {
      assert v * 256 + e * (Pow256(w) - Pow256(k)) == 256 * v;
    } else {
      assert v * 256 + e * (Pow256(w) - Pow256(k)) == 256 * (v + Pow256(w - 1) - Pow256(k - 1));
    }
  }

  /** After `k` bytes the word is their number, with ones shifted in above it if the first
      byte was sign-extended. */
  lemma {:induction false} FoldedIs(b: seq<Byte>, k: nat, charIsSigned: bool)
    requires 0 < k <= |b|
    ensures Pow256(k) <= Pow256(|b|)
    ensures var e := if charIsSigned && b[0] >= 128 then 1 else 0;
      Folded(b, k, charIsSigned) == Number(b[..k]) + e * (Pow256(|b|) - Pow256(k))
  {
    var e := if charIsSigned && b[0] >= 128 then 1 else 0;
    if k < |b| {
      Pow256Grows(k, |b|);
    }
    if k == 1 {
      assert b[..1] == [] + [b[0]];
      NumberAppend([], b[0]);
      assert Pow256(1) == 256;
    } else {
      FoldedIs(b, k - 1, charIsSigned);
      FoldStep(b, k, charIsSigned, e);
    }
  }

  lemma {:induction false} FoldStep(b: seq<Byte>, k: nat, charIsSigned: bool, e: nat)
    requires 1 < k <= |b| && e <= 1 && Pow256(k - 1) <= Pow256(|b|)
    requires Folded(b, k - 1, charIsSigned) == Number(b[..k - 1]) + e * (Pow256(|b|) - Pow256(k - 1))
    ensures Pow256(k) <= Pow256(|b|)
    ensures Folded(b, k, charIsSigned) == Number(b[..k]) + e * (Pow256(|b|) - Pow256(k))
  {
    hide Or, Number;
    var v, p, q := Number(b[..k - 1]), Pow256(k - 1), Pow256(|b|);
    Pow256Grows(k - 1, |b|);
    NumberBound(b[..k - 1]);
    assert |b[..k - 1]| == k - 1;
    ShiftedMod(v, p, q, e);
    assert Pow256(k) == 256 * p;
    LowByteZero(v, |b|, k, e);
    OrByte(v * 256 + e * (q - 256 * p), b[k - 1]);
    assert b[..k] == b[..k - 1] + [b[k - 1]];
    NumberAppend(b[..k - 1], b[k - 1]);
  }

  lemma OrByte(x: nat, b: Byte)
    requires x % 256 == 0
    ensures Or(x, b) == x + b
  {
    assert Pow2(8) == 256;
    OrIntoZeros(x, b, 8);
  }

  /** Reading gives the number that the bytes stand for, whether or not char is signed. */
  lemma ReadIsNumber(b: seq<Byte>, charIsSigned: bool)
    requires b != []
    ensures Folded(b, |b|, charIsSigned) == Number(b)
  {
    FoldedIs(b, |b|, charIsSigned);
    assert b[..|b|] == b;
  }

  /** Written bytes stand for the value modulo the size of the type. */
  lemma {:induction false} NumberOfBytes(v: int, w: nat)
    ensures Number(Bytes(v, w)) == v % Pow256(w)
    decreases w
  {
    if w > 0 {
      NumberOfBytes(v / 256, w - 1);
      NumberAppend(Bytes(v / 256, w - 1), v % 256);
      ModStep(v, Pow256(w - 1));
    }
  }

  lemma {:induction false} ModStep(v: int, p: nat)
    requires p > 0
    ensures v % (256 * p) == 256 * (v / 256 % p) + v % 256
  {
    var q, r := v / 256 / p, v / 256 % p;
    assert v / 256 == q * p + r;
    assert v == q * (256 * p) + (256 * r + v % 256);
    ModUnique(v, 256 * p, q, 256 * r + v % 256);
  }

  lemma {:induction false} ModUnique(x: int, m: nat, q: int, r: nat)
    requires x == q * m + r && r < m
    ensures x % m == r
  {
    var q' := x / m;
    assert x == q' * m + x % m;
    assert (q' - q) * m == r - x % m;
    if q' > q {
      MulLess(0, q' - q, m);
    } else if q' < q {
      MulLess(0, q - q', m);
    }
  }

  /** The bytes are determined by the number they stand for. */
  lemma {:induction false} BytesOfNumber(b: seq<Byte>)
    ensures Bytes(Number(b), |b|) == b
  {
    if b != [] {
      BytesOfNumber(b[..|b| - 1]);
      assert b == b[..|b| - 1] + [b[|b| - 1]];
    }
  }

  /** Reading inverts writing for every width and every value of the type, signed or
      unsigned, whether or not char is signed. */
  lemma {:induction false} ReadInvertsWrite(v: int, w: nat, signed: bool, charIsSigned: bool)
    requires w > 0 && InType(v, w, signed)
    ensures AsType(Folded(Bytes(v, w), w, charIsSigned), w, signed) == v
  {
    hide Folded, Number, Bytes, Pow256;
    ReadIsNumber(Bytes(v, w), charIsSigned);
    NumberOfBytes(v, w);
    var p := Pow256(w);
    if v >= 0 {
      SmallMod(v, p);
    } else {
      ModUnique(v, p, -1, v + p);
    }
    EvenPower(w);
  }

  lemma EvenPower(w: nat)
    requires w > 0
    ensures Pow256(w) == 2 * (Pow256(w) / 2)
  {
  }

  // -------------------------------------------------------------------- fields

  datatype Field =
    | Int(width: nat, value: nat)
    | Raw(bytes: seq<Byte>)
    | Prefixed(width: nat, bytes: seq<Byte>)

  datatype Kind = IntOf(width: nat) | RawOf(count: nat) | PrefixedOf(width: nat)

  predicate ValidField(f: Field) {
    match f
    case Int(w, v) => w > 0 && v < Pow256(w)
    case Raw(_) => true
    case Prefixed(w, b) => w > 0 && |b| < Pow256(w)
  }

  function KindOf(f: Field): Kind {
    match f
    case Int(w, _) => IntOf(w)
    case Raw(b) => RawOf(|b|)
    case Prefixed(w, _) => PrefixedOf(w)
  }

  function FieldBytes(f: Field): seq<Byte> {
    match f
    case Int(w, v) => Bytes(v, w)
    case Raw(b) => b
    case Prefixed(w, b) => Bytes(|b|, w) + b
  }

  // ------------------------------------------------------------ reading fields

  /** The next field at `pos` and the position after it; nothing if it does not fit. */
  function ReadField(buf: seq<Byte>, pos: nat, k: Kind): Option<(Field, nat)>
    requires pos <= |buf|
  {
    match k
    case IntOf(w) =>
      if pos + w > |buf| then None else Some((Int(w, Number(buf[pos..pos + w])), pos + w))
    case RawOf(n) =>
      if pos + n > |buf| then None else Some((Raw(buf[pos..pos + n]), pos + n))
    case PrefixedOf(w) =>
      if pos + w > |buf| then None
      else
        var n := Number(buf[pos..pos + w]);
        if pos + w + n > |buf| then None else Some((Prefixed(w, buf[pos + w..pos + w + n]), pos + w + n))
  }

  /** Reading a list of fields stops at the first failure. */
  function ReadFields(buf: seq<Byte>, pos: nat, kinds: seq<Kind>): (seq<Field>, nat, bool)
    requires pos <= |buf|
    decreases |kinds|
  {
    if kinds == [] then ([], pos, true)
    else match ReadField(buf, pos, kinds[0])
      case None => ([], pos, false)
      case Some(r) =>
        FieldEnds(buf, pos, kinds[0]);
        var rest := ReadFields(buf, r.1, kinds[1..]);
        ([r.0] + rest.0, rest.1, rest.2)
  }

  lemma FieldEnds(buf: seq<Byte>, pos: nat, k: Kind)
    requires pos <= |buf|
    ensures ReadField(buf, pos, k).Some? ==> pos <= ReadField(buf, pos, k).value.1 <= |buf|
  {
  }

  // ------------------------------------------------------------ writing fields

  /** The buffer after bytes are stored at `pos`. */
  function Stored(buf: seq<Byte>, pos: nat, b: seq<Byte>): (r: seq<Byte>)
    requires pos + |b| <= |buf|
    ensures |r| == |buf|
  {
    buf[..pos] + b + buf[pos + |b|..]
  }

  function WriteFields(buf: seq<Byte>, pos: nat, fields: seq<Field>): Option<(seq<Byte>, nat)>
    requires pos <= |buf|
    decreases |fields|
  {
    if fields == [] then Some((buf, pos))
    else
      var b := FieldBytes(fields[0]);
      if pos + |b| > |buf| then None else WriteFields(Stored(buf, pos, b), pos + |b|, fields[1..])
  }

  function AllBytes(fields: seq<Field>): seq<Byte> {
    if fields == [] then [] else FieldBytes(fields[0]) + AllBytes(fields[1..])
  }

  function Kinds(fields: seq<Field>): seq<Kind> {
    seq(|fields|, i requires 0 <= i < |fields| => KindOf(fields[i]))
  }

  /** Writing succeeds exactly when everything fits, stores the fields one after the other,
      leaves the rest of the buffer alone and advances past them. */
  lemma {:induction false} WriteFieldsExact(buf: seq<Byte>, pos: nat, fields: seq<Field>)
    requires pos <= |buf|
    ensures WriteFields(buf, pos, fields).Some? <==> pos + |AllBytes(fields)| <= |buf|
    ensures var all := AllBytes(fields);
      pos + |all| <= |buf| ==> WriteFields(buf, pos, fields) == Some((Stored(buf, pos, all), pos + |all|))
    decreases |fields|
  {
    hide FieldBytes;
    if fields == [] {
      assert buf[..pos] + [] + buf[pos..] == buf;
    } else {
      var b, all := FieldBytes(fields[0]), AllBytes(fields[1..]);
      if pos + |b| <= |buf| {
        WriteFieldsExact(Stored(buf, pos, b), pos + |b|, fields[1..]);
        if pos + |b| + |all| <= |buf| {
          assert Stored(Stored(buf, pos, b), pos + |b|, all) == Stored(buf, pos, b + all);
        }
      }
    }
  }

  // --------------------------------------------------------------- round trip

  lemma ReadFieldBack(buf: seq<Byte>, pos: nat, f: Field)
    requires ValidField(f) && pos + |FieldBytes(f)| <= |buf|
    requires buf[pos..pos + |FieldBytes(f)|] == FieldBytes(f)
    ensures ReadField(buf, pos, KindOf(f)) == Some((f, pos + |FieldBytes(f)|))
  {
    hide Number, Bytes, Pow256;
    match f
    case Int(w, v) =>
      NumberOfBytes(v, w);
      SmallMod(v, Pow256(w));
    case Raw(_) =>
    case Prefixed(w, b) =>
      NumberOfBytes(|b|, w);
      SmallMod(|b|, Pow256(w));
      var both := FieldBytes(f);
      assert both[..w] == Bytes(|b|, w) && both[w..] == b;
      assert buf[pos..pos + w] == both[..w];
      assert buf[pos + w..pos + w + |b|] == both[w..];
  }

  lemma {:induction false} ReadFieldsBack(buf: seq<Byte>, pos: nat, fields: seq<Field>)
    requires pos + |AllBytes(fields)| <= |buf| && buf[pos..pos + |AllBytes(fields)|] == AllBytes(fields)
    requires forall i :: 0 <= i < |fields| ==> ValidField(fields[i])
    ensures ReadFields(buf, pos, Kinds(fields)) == (fields, pos + |AllBytes(fields)|, true)
    decreases |fields|
  {
    hide FieldBytes, ReadField, KindOf, ValidField;
    if fields != [] {
      var b, all := FieldBytes(fields[0]), AllBytes(fields);
      assert all[..|b|] == b && all[|b|..] == AllBytes(fields[1..]);
      assert buf[pos..pos + |b|] == all[..|b|];
      assert buf[pos + |b|..pos + |all|] == all[|b|..];
      ReadFieldBack(buf, pos, fields[0]);
      ReadFieldsBack(buf, pos + |b|, fields[1..]);
      assert Kinds(fields)[1..] == Kinds(fields[1..]);
      assert fields == [fields[0]] + fields[1..];
    }
  }

  /** Whatever list of fields fits the buffer, writing it and then reading it with the same
      schema from the same position gives back the fields, and both cursors end at the same
      position. */
  lemma WriteThenRead(buf: seq<Byte>, pos: nat, fields: seq<Field>)
    requires pos + |AllBytes(fields)| <= |buf|
    requires forall i :: 0 <= i < |fields| ==> ValidField(fields[i])
    ensures WriteFields(buf, pos, fields).Some?
    ensures var w := WriteFields(buf, pos, fields).value;
      |w.0| == |buf| && ReadFields(w.0, pos, Kinds(fields)) == (fields, w.1, true)
  {
    hide WriteFields, ReadFields, AllBytes, ValidField;
    WriteFieldsExact(buf, pos, fields);
    var all := AllBytes(fields);
    var after := Stored(buf, pos, all);
    assert after[pos..pos + |all|] == all;
    ReadFieldsBack(after, pos, fields);
  }

  // ------------------------------------------------------- what reading means

  lemma ReadFieldBytes(buf: seq<Byte>, pos: nat, k: Kind)
    requires pos <= |buf| && ReadField(buf, pos, k).Some?
    ensures var (f, end) := ReadField(buf, pos, k).value;
      KindOf(f) == k && pos <= end <= |buf| && buf[pos..end] == FieldBytes(f)
  {
    hide Number, Bytes;
    match k
    case IntOf(w) => BytesOfNumber(buf[pos..pos + w]);
    case RawOf(_) =>
    case PrefixedOf(w) =>
      BytesOfNumber(buf[pos..pos + w]);
      var end := ReadField(buf, pos, k).value.1;
      assert buf[pos..end] == buf[pos..pos + w] + buf[pos + w..end];
  }

  predicate HasWidth(k: Kind) {
    match k
    case IntOf(w) => w > 0
    case RawOf(_) => true
    case PrefixedOf(w) => w > 0
  }

  lemma ReadFieldValid(buf: seq<Byte>, pos: nat, k: Kind)
    requires pos <= |buf| && ReadField(buf, pos, k).Some? && HasWidth(k)
    ensures ValidField(ReadField(buf, pos, k).value.0)
  {
    hide Number, Pow256;
    if !k.RawOf? {
      NumberBound(buf[pos..pos + k.width]);
    }
  }

  /** The bytes of `f` stand at `pos`. */
  ghost predicate StandsAt(buf: seq<Byte>, pos: nat, f: Field) {
    ValidField(f) && pos + |FieldBytes(f)| <= |buf| && buf[pos..pos + |FieldBytes(f)|] == FieldBytes(f)
  }

  predicate Reads(buf: seq<Byte>, pos: nat, k: Kind, f: Field)
    requires pos <= |buf|
  {
    ReadField(buf, pos, k) == Some((f, pos + |FieldBytes(f)|))
  }

  /** A read succeeds exactly if a field of its kind stands at the position, gives that field
      and moves past it. */
  lemma ReadFieldExact(buf: seq<Byte>, pos: nat, k: Kind)
    requires pos <= |buf| && HasWidth(k)
    ensures ReadField(buf, pos, k).Some? <==> exists f :: KindOf(f) == k && StandsAt(buf, pos, f)
    ensures forall f :: KindOf(f) == k && StandsAt(buf, pos, f) ==> Reads(buf, pos, k, f)
  {
    hide ReadField, FieldBytes, ValidField;
    if ReadField(buf, pos, k).Some? {
      ReadFieldBytes(buf, pos, k);
      ReadFieldValid(buf, pos, k);
      assert StandsAt(buf, pos, ReadField(buf, pos, k).value.0);
    }
    forall f | KindOf(f) == k && StandsAt(buf, pos, f)
      ensures Reads(buf, pos, k, f)
    {
      ReadFieldBack(buf, pos, f);
    }
  }

  /** `fields` are of the first kinds asked for, their bytes are those from `pos` to `end`, and
      unless they are all the next one does not fit there. */
  ghost predicate ReadUpTo(buf: seq<Byte>, pos: nat, kinds: seq<Kind>, fields: seq<Field>, end: nat, ok: bool) {
    && |fields| <= |kinds| && Kinds(fields) == kinds[..|fields|] && (ok <==> |fields| == |kinds|)
    && pos <= end <= |buf| && buf[pos..end] == AllBytes(fields)
    && (!ok ==> ReadField(buf, end, kinds[|fields|]) == None)
  }

  lemma ReadUpToNext(buf: seq<Byte>, pos: nat, kinds: seq<Kind>, f: Field, next: nat, rest: seq<Field>, end: nat, ok: bool)
    requires kinds != [] && KindOf(f) == kinds[0] && pos <= next <= |buf| && buf[pos..next] == FieldBytes(f)
    requires ReadUpTo(buf, next, kinds[1..], rest, end, ok)
    ensures ReadUpTo(buf, pos, kinds, [f] + rest, end, ok)
  {
    hide ReadField, FieldBytes, KindOf;
    var fields := [f] + rest;
    assert fields[1..] == rest;
    assert buf[pos..end] == buf[pos..next] + buf[next..end];
    assert Kinds(fields) == [KindOf(f)] + Kinds(rest);
    assert kinds[..|fields|] == [kinds[0]] + kinds[1..][..|rest|];
  }

  /** Reading fields of any kinds from any buffer: the bytes passed are exactly what writing
      the fields stores, and reading stops only where the next field does not fit. */
  lemma {:induction false} ReadThenWrite(buf: seq<Byte>, pos: nat, kinds: seq<Kind>)
    requires pos <= |buf|
    ensures var (fields, end, ok) := ReadFields(buf, pos, kinds); ReadUpTo(buf, pos, kinds, fields, end, ok)
    decreases |kinds|
  {
    hide ReadField, FieldBytes, KindOf;
    if kinds != [] && ReadField(buf, pos, kinds[0]).Some? {
      hide ReadUpTo;
      ReadFieldBytes(buf, pos, kinds[0]);
      var (f, next) := ReadField(buf, pos, kinds[0]).value;
      ReadThenWrite(buf, next, kinds[1..]);
      var (rest, end, ok) := ReadFields(buf, next, kinds[1..]);
      ReadUpToNext(buf, pos, kinds, f, next, rest, end, ok);
    } else {
      assert buf[pos..pos] == [];
      assert Kinds([]) == kinds[..0];
    }
  }
}
