/** The loops of big_endian.h and the cursors of big_endian.cc. */
module BigEndian {
  import opened Common
  import opened BitArith
  import opened BigEndianSpec

  /** ReadBigEndian for a type of `w` bytes. */
  method ReadBigEndian(buf: array<Byte>, pos: nat, w: nat, charIsSigned: bool) returns (out: nat)
    requires w > 0 && pos + w <= buf.Length
    ensures out == Number(buf[pos..pos + w])
  {
    ghost var b := buf[pos..pos + w];
    out := Extended(buf[pos], w, charIsSigned);
    for i := 1 to w
      invariant out == Folded(b, i, charIsSigned)
    {
      out := out * 256 % Pow256(w);
      out := Or(out, buf[pos + i]);
    }
    ReadIsNumber(b, charIsSigned);
  }

  /** WriteBigEndian for a type of `w` bytes: from the last byte to the first. */
  method WriteBigEndian(buf: array<Byte>, pos: nat, w: nat, value: int)
    requires pos + w <= buf.Length
    modifies buf
    ensures buf[..] == Stored(old(buf[..]), pos, Bytes(value, w))
  {
    hide Bytes;
    var val := value;
    ghost var before, b := buf[..], Bytes(value, w);
    for i := 0 to w
      invariant Bytes(val, w - i) == b[..w - i]
      invariant forall j :: w - i <= j < w ==> buf[pos + j] == b[j]
      invariant forall j :: 0 <= j < buf.Length && !(pos + w - i <= j < pos + w) ==> buf[j] == before[j]
    {
      LastByte(val, w - i);
      buf[pos + w - i - 1] := val % 256;
      assert b[..w - i][..w - i - 1] == b[..w - i - 1];
      val := val / 256;
    }
    assert buf[..] == Stored(before, pos, b);
  }

  lemma LastByte(v: int, w: nat)
    requires w > 0
    ensures Bytes(v, w)[w - 1] == v % 256 && Bytes(v, w)[..w - 1] == Bytes(v / 256, w - 1)
  {
  }

  /** BigEndianReader. */
  class Reader {
    const buf: array<Byte>
    const charIsSigned: bool
    var pos: nat

    ghost predicate Valid()
      reads this
    {
      pos <= buf.Length
    }

    constructor (buf: array<Byte>, charIsSigned: bool)
      ensures Valid() && this.buf == buf && pos == 0
    {
      this.buf, this.charIsSigned, pos := buf, charIsSigned, 0;
    }

    method Skip(len: nat) returns (ok: bool)
      requires Valid()
      modifies `pos
      ensures Valid() && ok == (old(pos) + len <= buf.Length)
      ensures pos == if ok then old(pos) + len else old(pos)
    {
      if pos + len > buf.Length {
        return false;
      }
      pos := pos + len;
      return true;
    }

    /** ReadBytes and ReadPiece. */
    method ReadBytes(len: nat) returns (r: Option<seq<Byte>>)
      requires Valid()
      modifies `pos
      ensures Valid()
      ensures match ReadField(buf[..], old(pos), RawOf(len))
        case None => r == None && pos == old(pos)
        case Some(f) => r == Some(f.0.bytes) && pos == f.1
    {
      if pos + len > buf.Length {
        return None;
      }
      var start := pos;
      pos := pos + len;
      assert buf[..][start..pos] == buf[start..pos];
      return Some(buf[start..pos]);
    }

    /** Read<T> for a type of `w` bytes. */
    method Read(w: nat) returns (r: Option<nat>)
      requires Valid() && w > 0
      modifies `pos
      ensures Valid()
      ensures match ReadField(buf[..], old(pos), IntOf(w))
        case None => r == None && pos == old(pos)
        case Some(f) => r == Some(f.0.value) && pos == f.1
    {
      if pos + w > buf.Length {
        return None;
      }
      var v := ReadBigEndian(buf, pos, w, charIsSigned);
      assert buf[..][pos..pos + w] == buf[pos..pos + w];
      pos := pos + w;
      return Some(v);
    }

    /** ReadLengthPrefixed<T>: a failure after the length has been read puts the cursor back. */
    method ReadLengthPrefixed(w: nat) returns (r: Option<seq<Byte>>)
      requires Valid() && w > 0
      modifies `pos
      ensures Valid()
      ensures match ReadField(buf[..], old(pos), PrefixedOf(w))
        case None => r == None && pos == old(pos)
        case Some(f) => r == Some(f.0.bytes) && pos == f.1
    {
      var len := Read(w);
      if len.None? {
        return None;
      }
      var start := pos;
      var ok := Skip(len.value);
      if !ok {
        pos := pos - w;
        return None;
      }
      assert buf[..][start..pos] == buf[start..pos];
      return Some(buf[start..pos]);
    }
  }

  /** BigEndianWriter. */
  class Writer {
    const buf: array<Byte>
    var pos: nat

    ghost predicate Valid()
      reads this
    {
      pos <= buf.Length
    }

    constructor (buf: array<Byte>)
      ensures Valid() && this.buf == buf && pos == 0
    {
      this.buf, pos := buf, 0;
    }

    method Skip(len: nat) returns (ok: bool)
      requires Valid()
      modifies `pos
      ensures Valid() && ok == (old(pos) + len <= buf.Length)
      ensures pos == if ok then old(pos) + len else old(pos)
    {
      if pos + len > buf.Length {
        return false;
      }
      pos := pos + len;
      return true;
    }

    method WriteBytes(b: seq<Byte>) returns (ok: bool)
      requires Valid()
      modifies `pos, buf
      ensures Valid() && ok == WriteFields(old(buf[..]), old(pos), [Raw(b)]).Some?
      ensures var after := WriteFields(old(buf[..]), old(pos), [Raw(b)]);
        (buf[..], pos) == if ok then after.value else (old(buf[..]), old(pos))
    {
      OneField(buf[..], pos, Raw(b));
      if pos + |b| > buf.Length {
        return false;
      }
      ghost var before := buf[..];
      for i := 0 to |b|
        invariant pos == old(pos)
        invariant buf[pos..pos + i] == b[..i]
        invariant forall j :: 0 <= j < buf.Length && !(pos <= j < pos + i) ==> buf[j] == before[j]
      {
        buf[pos + i] := b[i];
      }
      assert buf[..] == Stored(before, pos, b);
      pos := pos + |b|;
      return true;
    }

    /** Write<T> for a type of `w` bytes. */
    method Write(w: nat, value: nat) returns (ok: bool)
      requires Valid()
      modifies `pos, buf
      ensures Valid() && ok == WriteFields(old(buf[..]), old(pos), [Int(w, value)]).Some?
      ensures var after := WriteFields(old(buf[..]), old(pos), [Int(w, value)]);
        (buf[..], pos) == if ok then after.value else (old(buf[..]), old(pos))
    {
      OneField(buf[..], pos, Int(w, value));
      if pos + w > buf.Length {
        return false;
      }
      WriteBigEndian(buf, pos, w, value);
      pos := pos + w;
      return true;
    }
  }

  lemma OneField(buf: seq<Byte>, pos: nat, f: Field)
    requires pos <= |buf|
    ensures WriteFields(buf, pos, [f]).None? <==> pos + |FieldBytes(f)| > |buf|
    ensures pos + |FieldBytes(f)| <= |buf| ==>
      WriteFields(buf, pos, [f]) == Some((Stored(buf, pos, FieldBytes(f)), pos + |FieldBytes(f)|))
  {
    hide FieldBytes, Stored;
    assert [f][1..] == [];
  }
}
