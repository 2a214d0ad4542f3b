/** The packet data stream object (src/pds.c), updated in place, against the format and the writer. */
module PdsObjects {
  import opened Bytes
  import opened PdsFormat
  import opened PdsStream

  /** A window of `maxsize` bytes of a buffer, with a moving offset. */
  class Pds {
    const data: array<byte>
    const base: nat
    const maxsize: nat
    var offset: nat
    var overshoot: nat
    var ok: bool
    /** The overshoot, followed past the wrap of its 32-bit counter. */
    ghost var excess: nat
    /** The bytes before the offset. */
    ghost var passed: seq<byte>

    ghost predicate Valid()
      reads this, data
    {
      && base + maxsize <= data.Length && maxsize < 0x8000_0000
      && offset <= maxsize
      && overshoot == excess % UINT32
      && |passed| == offset && forall i | 0 <= i < offset :: passed[i] == data[base + i]
    }

    ghost function Contents(): (s: seq<byte>)
      requires Valid()
      reads this, data
      ensures |s| == maxsize
    {
      data[base..base + maxsize]
    }

    ghost function View(): (w: Writer)
      requires Valid()
      reads this, data
      ensures ValidWriter(w)
    {
      Writer(passed, maxsize, excess, ok)
    }

    /** Pds_create on a buffer that starts `base` bytes into `buf`. */
    constructor (buf: array<byte>, base: nat, size: nat)
      requires base + size <= buf.Length && size < 0x8000_0000
      ensures Valid() && data == buf && this.base == base && maxsize == size
      ensures offset == 0 && View() == Start(size)
    {
      data, this.base, maxsize := buf, base, size;
      offset, overshoot, ok, excess, passed := 0, 0, true, 0, [];
    }

    // -------------------------------------------------------------------------
    // Writing
    // -------------------------------------------------------------------------

    /** Nothing outside the window has changed. */
    twostate predicate OnlyInside()
      requires old(Valid())
      reads this, data
    {
      forall i | 0 <= i < data.Length && !(base <= i < base + maxsize) :: data[i] == old(data[i])
    }

    /** The low byte of a value, after the bytes `s` on the writer `w`. */
    method AppendVal(val: uint64, ghost w: Writer, ghost s: seq<byte>)
      requires Valid() && ValidWriter(w) && View() == PutBytes(w, s)
      modifies this, data
      ensures Valid() && View() == PutBytes(w, s + [val % 256]) && OnlyInside()
    {
      var low: byte := val % 256;
      PutBytesTwice(w, s, [low]);
      if offset < maxsize {
        data[base + offset] := low;
        offset, passed := offset + 1, passed + [low];
      } else {
        ok := false;
        overshoot, excess := (overshoot + 1) % UINT32, excess + 1;
        assert passed == passed + [low][..0];
      }
    }

    /** A value that is a byte already. */
    method AppendByte(val: byte, ghost w: Writer, ghost s: seq<byte>)
      requires Valid() && ValidWriter(w) && View() == PutBytes(w, s)
      modifies this, data
      ensures Valid() && View() == PutBytes(w, s + [val]) && OnlyInside()
    {
      AppendVal(val, w, s);
    }

    /** Two bytes of a value, high byte first. */
    method AppendTwo(i: nat, ghost w: Writer, ghost s: seq<byte>)
      requires Valid() && ValidWriter(w) && View() == PutBytes(w, s)
      modifies this, data
      ensures Valid() && View() == PutBytes(w, s + [i / 0x100 % 256, i % 256]) && OnlyInside()
    {
      AppendByte(i / 0x100 % 256, w, s);
      AppendByte(i % 256, w, s + [i / 0x100 % 256]);
      assert s + [i / 0x100 % 256] + [i % 256] == s + [i / 0x100 % 256, i % 256];
    }

    /** Four bytes of a value. */
    method AppendFour(i: nat, ghost w: Writer, ghost s: seq<byte>)
      requires Valid() && ValidWriter(w) && View() == PutBytes(w, s)
      modifies this, data
      ensures Valid() && View() == PutBytes(w, s + Big4(i)) && OnlyInside()
    {
      Shifts(i);
      ghost var high := [i / 0x100_0000 % 256, i / 0x1_0000 % 256];
      AppendTwo(i / 0x1_0000, w, s);
      AppendTwo(i, w, s + high);
      assert s + high + [i / 0x100 % 256, i % 256] == s + Big4(i);
    }

    method AddNumval(value: uint64)
      requires Valid()
      modifies this, data
      ensures Valid() && View() == Write(old(View()), Number(value)) && OnlyInside()
    {
      if value >= NEGATIVE {
        AddNegative(Complement(value));
      } else {
        assert View() == PutBytes(View(), []) && [] + EncodeDirect(value) == EncodeDirect(value);
        AddDirect(value, View(), []);
      }
    }

    /** The complement of a 32-bit value. */
    method AddNegative(i: uint32)
      requires Valid()
      modifies this, data
      ensures Valid() && View() == PutBytes(old(View()), Encode(Complement(i))) && OnlyInside()
    {
      ghost var w := View();
      assert w == PutBytes(w, []) && [] + [0xF8] == [0xF8];
      if i <= 3 {
        assert [] + [0xFC + i] == [0xFC + i];
        AppendByte(0xFC + i, w, []);
      } else {
        AppendByte(0xF8, w, []);
        AddDirect(i, w, [0xF8]);
      }
    }

    method AddDirect(i: uint64, ghost w: Writer, ghost s: seq<byte>)
      requires Valid() && ValidWriter(w) && View() == PutBytes(w, s)
      modifies this, data
      ensures Valid() && View() == PutBytes(w, s + EncodeDirect(i)) && OnlyInside()
    {
      if i < 0x1000_0000 {
        AddShort(i, w, s);
      } else if i < UINT32 {
        AppendByte(0xF0, w, s);
        AppendFour(i, w, s + [0xF0]);
        assert s + [0xF0] + Big4(i) == s + EncodeDirect(i);
      } else {
        AddLong(i, w, s);
      }
    }

    method AddShort(i: uint64, ghost w: Writer, ghost s: seq<byte>)
      requires i < 0x1000_0000
      requires Valid() && ValidWriter(w) && View() == PutBytes(w, s)
      modifies this, data
      ensures Valid() && View() == PutBytes(w, s + EncodeDirect(i)) && OnlyInside()
    {
      if i < 0x80 {
        AppendByte(i, w, s);
      } else if i < 0x4000 {
        AppendByte(0x80 + i / 0x100, w, s);
        AppendByte(i % 256, w, s + [0x80 + i / 0x100]);
        assert s + [0x80 + i / 0x100] + [i % 256] == s + EncodeDirect(i);
      } else if i < 0x20_0000 {
        AppendByte(0xC0 + i / 0x1_0000, w, s);
        AppendTwo(i, w, s + [0xC0 + i / 0x1_0000]);
        assert s + [0xC0 + i / 0x1_0000] + [i / 0x100 % 256, i % 256] == s + EncodeDirect(i);
      } else {
        AppendByte(0xE0 + i / 0x100_0000, w, s);
        ghost var t := s + [0xE0 + i / 0x100_0000];
        AppendByte(i / 0x1_0000 % 256, w, t);
        AppendTwo(i, w, t + [i / 0x1_0000 % 256]);
        assert t + [i / 0x1_0000 % 256] + [i / 0x100 % 256, i % 256] == s + EncodeDirect(i);
      }
    }

    method AddLong(i: uint64, ghost w: Writer, ghost s: seq<byte>)
      requires i >= UINT32
      requires Valid() && ValidWriter(w) && View() == PutBytes(w, s)
      modifies this, data
      ensures Valid() && View() == PutBytes(w, s + EncodeDirect(i)) && OnlyInside()
    {
      AppendByte(0xF4, w, s);
      AppendFour(i / UINT32, w, s + [0xF4]);
      AppendFour(i % UINT32, w, s + [0xF4] + Big4(i / UINT32));
      assert s + [0xF4] + Big4(i / UINT32) + Big4(i % UINT32) == s + EncodeDirect(i);
    }

    method AppendData(bytes: seq<byte>)
      requires Valid() && |bytes| < UINT32
      modifies this, data
      ensures Valid() && View() == Write(old(View()), Block(bytes)) && OnlyInside()
    {
      AddNumval(|bytes|);
      AppendDataNosize(bytes);
    }

    method AppendDataNosize(bytes: seq<byte>)
      requires Valid() && |bytes| < UINT32
      modifies this, data
      ensures Valid() && View() == Write(old(View()), Raw(bytes)) && OnlyInside()
      ensures |bytes| <= maxsize - old(offset) ==>
        && offset == old(offset) + |bytes| && ok == old(ok)
        && forall i | 0 <= i < |bytes| :: data[base + old(offset) + i] == bytes[i]
      ensures |bytes| > maxsize - old(offset) ==>
        offset == maxsize && !ok && forall i | base + old(offset) <= i < base + maxsize :: data[i] == 0
    {
      var left := maxsize - offset;
      if left >= |bytes| {
        forall i | 0 <= i < |bytes| {
          data[base + offset + i] := bytes[i];
        }
        offset, passed := offset + |bytes|, passed + bytes;
      } else {
        forall i | 0 <= i < left {
          data[base + offset + i] := 0;
        }
        offset, passed := offset + left, passed + Zeros(left);
        overshoot, excess := (overshoot + |bytes| - left) % UINT32, excess + |bytes| - left;
        ok := false;
      }
    }

    // -------------------------------------------------------------------------
    // Reading
    // -------------------------------------------------------------------------

    /** The next byte, or zero past the end. */
    method Next8() returns (v: byte)
      requires Valid()
      modifies this`offset, this`passed, this`ok
      ensures Valid() && v == Peek(Contents(), old(offset))
      ensures v == if old(offset) < maxsize then data[base + old(offset)] else 0
      ensures offset == Min(old(offset) + 1, maxsize)
      ensures ok == (old(ok) && old(offset) < maxsize)
    {
      if offset < maxsize {
        v := data[base + offset];
        offset, passed := offset + 1, passed + [v];
      } else {
        ok := false;
        v := 0;
      }
    }

    /** The sum is a 32-bit one. */
    method Skip(n: int) returns (r: int)
      requires Valid() && -0x8000_0000 <= n < 0x8000_0000
      modifies this`offset, this`passed, this`ok
      ensures Valid()
      ensures if 0 <= old(offset) + n <= maxsize
        then r == n && offset == old(offset) + n && ok == old(ok)
        else r == 0 && offset == old(offset) && !ok
    {
      var sum := (offset + n) % UINT32;
      if sum <= maxsize {
        offset, passed := sum, data[base..base + sum];
        r := n;
      } else {
        ok := false;
        r := 0;
      }
    }

    method Next4() returns (i: uint32)
      requires Valid()
      modifies this`offset, this`passed, this`ok
      ensures Valid() && i == Join4(Contents(), old(offset))
      ensures offset == Min(old(offset) + 4, maxsize)
      ensures ok == (old(ok) && old(offset) + 4 <= maxsize)
    {
      var a: nat := Next8();
      var b: nat := Next8();
      var c: nat := Next8();
      var d: nat := Next8();
      i := a * 0x100_0000 + b * 0x1_0000 + c * 0x100 + d;
    }

    /** Decoding stops, never leaves the window, and clears the flag exactly when a byte was missing. */
    method GetNumval() returns (i: uint64)
      requires Valid()
      modifies this`offset, this`passed, this`ok
      ensures Valid() && i == Meaning(Contents(), old(offset))
      ensures offset == After(Contents(), old(offset))
      ensures ok == (old(ok) && old(offset) + Need(Contents(), old(offset)) <= maxsize)
      decreases maxsize - offset
    {
      var v: nat := Next8();
      if v < 0x80 {
        i := v;
      } else if v < 0xC0 {
        var b: nat := Next8();
        i := (v - 0x80) * 256 + b;
      } else if v >= 0xF0 {
        if v < 0xF4 {
          i := Next4();
        } else if v < 0xF8 {
          var high: nat := Next4();
          var low: nat := Next4();
          i := high * UINT32 + low;
        } else if v < 0xFC {
          var c := GetNumval();
          i := Complement(c);
        } else {
          i := Complement(v - 0xFC);
        }
      } else if v >= 0xE0 {
        var b: nat := Next8();
        var c: nat := Next8();
        var d: nat := Next8();
        i := (v - 0xE0) * 0x100_0000 + b * 0x1_0000 + c * 0x100 + d;
      } else {
        var b: nat := Next8();
        var c: nat := Next8();
        i := (v - 0xC0) * 0x1_0000 + b * 0x100 + c;
      }
    }

    /** A block into the caller's buffer of `maxlen` bytes; a length that is too much is refused. */
    method GetData(dst: array<byte>, maxlen: int) returns (len: int)
      requires Valid() && dst != data && maxlen <= dst.Length
      requires BlockFits(Contents(), offset, maxlen)
      modifies this`offset, this`passed, this`ok, dst
      ensures Valid() && Contents() == old(Contents())
      ensures match ReadBlock(old(Contents()), old(offset), maxlen)
        case Data(bytes, at) => len == |bytes| && len <= dst.Length && dst[..len] == bytes && offset == at
        case TooMuch(at) => len == -1 && dst[..] == old(dst[..]) && offset == at
      ensures ok == (old(ok) && old(offset) + Need(old(Contents()), old(offset)) <= maxsize)
    {
      var n := GetNumval();
      len := ToInt32(n);
      if len < maxlen {
        forall i | 0 <= i < len {
          dst[i] := data[base + offset + i];
        }
        offset, passed := offset + len, passed + data[base + offset..base + offset + len];
      } else {
        len := -1;
      }
    }
  }
}
