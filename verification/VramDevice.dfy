/** `my_read` and `my_write` of hardware_map.c: byte loops over the mapped memory, with the file's
    position behind `loff_t *off`. */
module VramDevice {
  import opened Common
  import opened Vram

  class File {
    var pos: nat

    constructor (pos: nat)
      ensures this.pos == pos
    {
      this.pos := pos;
    }
  }

  class Device {
    const mem: array<Byte>

    ghost predicate Valid() {
      mem.Length == VRAM_SIZE
    }

    /** The mapping made by `vram_init`. */
    constructor ()
      ensures Valid() && fresh(mem)
    {
      mem := new Byte[VRAM_SIZE](_ => 0);
    }

    /** `my_write`; `fault` is the first byte of `buf` that `copy_from_user` cannot read. */
    method MyWrite(f: File, buf: seq<Byte>, fault: nat) returns (ret: int)
      requires Valid() && f.pos + |buf| < 0x1_0000_0000_0000_0000
      modifies f, mem
      ensures Written(ret, f.pos, mem[..]) == Write(old(mem[..]), old(f.pos), buf, fault)
    {
      ghost var was: Memory := mem[..];
      var off, len := f.pos, |buf|;
      if off >= VRAM_SIZE {
        return 0;
      }
      if off + len > VRAM_SIZE {
        len := VRAM_SIZE - off;
      }
      for i := 0 to len
        invariant i <= fault
        invariant mem[..] == Put(was, off, buf[..i])
        invariant f.pos == off
      {
        if i == fault {
          return -EFAULT;
        }
        mem[off + i] := buf[i];
      }
      f.pos := off + len;
      return len;
    }

    /** `my_read`; `got` is what the user's buffer receives. */
    method MyRead(f: File, len: nat, fault: nat) returns (ret: int, got: seq<Byte>)
      requires Valid() && f.pos + len < 0x1_0000_0000_0000_0000
      modifies f
      ensures Got(ret, f.pos, got) == Read(mem[..], old(f.pos), len, fault)
    {
      got := [];
      var off, n := f.pos, len;
      if off >= VRAM_SIZE {
        return 0, got;
      }
      if off + n > VRAM_SIZE {
        n := VRAM_SIZE - off;
      }
      for i := 0 to n
        invariant i <= fault
        invariant got == mem[off..off + i]
        invariant f.pos == off
      {
        if i == fault {
          return -EFAULT, got;
        }
        got := got + [mem[off + i]];
      }
      f.pos := off + n;
      return n, got;
    }

    /** A user reading until 0 comes back, in pieces of any positive size, gets all there is. */
    method ReadToEnd(f: File, size: nat -> nat) returns (data: seq<Byte>)
      requires Valid() && f.pos < 0x8000_0000_0000_0000
      requires forall k :: 0 < size(k) < 0x8000_0000
      modifies f
      ensures data == From(mem[..], old(f.pos))
      ensures f.pos == if old(f.pos) <= VRAM_SIZE then VRAM_SIZE else old(f.pos)
    {
      data := [];
      var k := 0;
      ghost var m: Memory, start := mem[..], f.pos;
      while true
        invariant mem[..] == m
        invariant start <= f.pos && (f.pos <= VRAM_SIZE || f.pos == start)
        invariant data == if start <= VRAM_SIZE then m[start..f.pos] else []
        decreases VRAM_SIZE - f.pos
      {
        var len := size(k);
        if start <= VRAM_SIZE {
          ReadOn(m, start, f.pos, len);
        }
        Progress(m, f.pos, [], len, len);
        var ret, got := MyRead(f, len, len);
        if ret == 0 {
          break;
        }
        data, k := data + got, k + 1;
      }
    }
  }
}
