/** The windowed device memory of hardware_map.c, on values: one call, runs of calls, and what they
    come to. A call gets a `fault`: the first byte of the user's buffer that cannot be copied. */
module Vram {
  import opened Common

  const VRAM_SIZE: nat := 0x0002_0000

  type Memory = m: seq<Byte> | |m| == 0x0002_0000 witness seq(0x0002_0000, _ => 0)

  /** How much of a request for `len` bytes at `off` lies in the window. */
  function Fitting(off: nat, len: nat): (n: nat)
    ensures n <= len && (n > 0 ==> off + n <= VRAM_SIZE)
    ensures n < len ==> off + n >= VRAM_SIZE
  {
    if off >= VRAM_SIZE then 0 else if off + len > VRAM_SIZE then VRAM_SIZE - off else len
  }

  /** `mem` with `data` at `off`. */
  function Put(mem: Memory, off: nat, data: seq<Byte>): Memory
    requires data == [] || off + |data| <= VRAM_SIZE
  {
    if data == [] then mem else mem[..off] + data + mem[off + |data|..]
  }

  /** It changes those bytes and no others. */
  lemma PutBytes(mem: Memory, off: nat, data: seq<Byte>)
    requires data == [] || off + |data| <= VRAM_SIZE
    ensures forall i :: 0 <= i < VRAM_SIZE ==>
              Put(mem, off, data)[i] == if off <= i < off + |data| then data[i - off] else mem[i]
  {
  }

  /** What a call returns, the file position after it, and the memory or the bytes delivered. */
  datatype Written = Written(ret: int, off: nat, mem: Memory)
  datatype Got = Got(ret: int, off: nat, data: seq<Byte>)

  function Write(mem: Memory, off: nat, data: seq<Byte>, fault: nat): Written {
    var n := Fitting(off, |data|);
    if fault < n then Written(-EFAULT, off, Put(mem, off, data[..fault]))
    else Written(n, off + n, Put(mem, off, data[..n]))
  }

  function Read(mem: Memory, off: nat, len: nat, fault: nat): Got {
    var n := Fitting(off, len);
    if n == 0 then Got(0, off, [])
    else if fault < n then Got(-EFAULT, off, mem[off..off + fault])
    else Got(n, off + n, mem[off..off + n])
  }

  /** Either call keeps the position in the window, never moves it back, and without a fault makes
      progress until the end. */
  lemma Progress(mem: Memory, off: nat, data: seq<Byte>, len: nat, fault: nat)
    ensures var w, r := Write(mem, off, data, fault), Read(mem, off, len, fault);
            && off <= w.off && off <= r.off
            && (off <= VRAM_SIZE ==> w.off <= VRAM_SIZE && r.off <= VRAM_SIZE)
            && (w.ret == 0 <==> off >= VRAM_SIZE || data == [])
            && (r.ret == 0 <==> off >= VRAM_SIZE || len == 0)
            && (w.ret < 0 ==> w.off == off) && (w.ret >= 0 ==> w.off == off + w.ret)
            && (r.ret < 0 ==> r.off == off) && (r.ret >= 0 ==> r.off == off + r.ret)
  {
  }

  /** What either call returns, for a window of 0x20000 bytes: all that fits, or -14 at the first byte
      that faults, with the position unmoved. */
  lemma Returns(mem: Memory, off: nat, data: seq<Byte>, len: nat, fault: nat)
    ensures var w := Write(mem, off, data, fault);
            var n := if off >= 0x0002_0000 then 0 else if off + |data| > 0x0002_0000 then 0x0002_0000 - off else |data|;
            if fault < n then w.ret == -14 && w.off == off else w.ret == n && w.off == off + n
    ensures var r := Read(mem, off, len, fault);
            var n := if off >= 0x0002_0000 then 0 else if off + len > 0x0002_0000 then 0x0002_0000 - off else len;
            && (if fault < n then r.ret == -14 && r.off == off && |r.data| == fault
                else r.ret == n && r.off == off + n && |r.data| == n)
            && forall i :: 0 <= i < |r.data| ==> off + i < 0x0002_0000 && r.data[i] == mem[off + i]
  {
  }

  // ---------------------------------------------------------------- runs of calls

  function Joined(chunks: seq<seq<Byte>>): seq<Byte> {
    if chunks == [] then [] else chunks[0] + Joined(chunks[1..])
  }

  function Sum(lens: seq<nat>): nat {
    if lens == [] then 0 else lens[0] + Sum(lens[1..])
  }

  /** A fault that no call of this length meets. */
  function Never(len: nat): nat { len }

  function WriteAll(mem: Memory, off: nat, chunks: seq<seq<Byte>>): (Memory, nat)
    decreases chunks
  {
    if chunks == [] then (mem, off)
    else
      var w := Write(mem, off, chunks[0], Never(|chunks[0]|));
      WriteAll(w.mem, w.off, chunks[1..])
  }

  function ReadAll(mem: Memory, off: nat, lens: seq<nat>): (seq<Byte>, nat)
    decreases lens
  {
    if lens == [] then ([], off)
    else
      var r := Read(mem, off, lens[0], Never(lens[0]));
      var rest := ReadAll(mem, r.off, lens[1..]);
      (r.data + rest.0, rest.1)
  }

  lemma PutTwice(mem: Memory, off: nat, a: seq<Byte>, b: seq<Byte>)
    requires a + b == [] || off + |a| + |b| <= VRAM_SIZE
    ensures Put(Put(mem, off, a), off + |a|, b) == Put(mem, off, a + b)
  {
    PutBytes(mem, off, a);
    PutBytes(Put(mem, off, a), off + |a|, b);
    PutBytes(mem, off, a + b);
  }

  lemma FittingTwice(off: nat, a: nat, b: nat)
    ensures Fitting(off, a + b) == Fitting(off, a) + Fitting(off + Fitting(off, a), b)
    ensures Fitting(off, a) < a ==> Fitting(off + Fitting(off, a), b) == 0
  {
  }

  lemma TakeBoth(a: seq<Byte>, b: seq<Byte>, m: nat, k: nat)
    requires m <= |a| && k <= |b| && (m < |a| ==> k == 0)
    ensures (a + b)[..m + k] == a[..m] + b[..k]
  {
  }

  lemma WriteTwice(mem: Memory, off: nat, a: seq<Byte>, b: seq<Byte>)
    ensures var w := Write(mem, off, a, Never(|a|));
            var v := Write(w.mem, w.off, b, Never(|b|));
            var u := Write(mem, off, a + b, Never(|a + b|));
            v.mem == u.mem && v.off == u.off
  {
    var m := Fitting(off, |a|);
    var k := Fitting(off + m, |b|);
    FittingTwice(off, |a|, |b|);
    TakeBoth(a, b, m, k);
    PutTwice(mem, off, a[..m], b[..k]);
  }

  /** Any way of cutting the data into chunks writes the same bytes and ends at the same place. */
  lemma {:induction false} ChunkedWrite(mem: Memory, off: nat, chunks: seq<seq<Byte>>)
    ensures var u := Write(mem, off, Joined(chunks), Never(|Joined(chunks)|));
            WriteAll(mem, off, chunks) == (u.mem, u.off)
    decreases chunks
  {
    if chunks != [] {
      var w := Write(mem, off, chunks[0], Never(|chunks[0]|));
      ChunkedWrite(w.mem, w.off, chunks[1..]);
      WriteTwice(mem, off, chunks[0], Joined(chunks[1..]));
    }
  }

  lemma ReadTwice(mem: Memory, off: nat, a: nat, b: nat)
    ensures var r := Read(mem, off, a, Never(a));
            var q := Read(mem, r.off, b, Never(b));
            var u := Read(mem, off, a + b, Never(a + b));
            r.data + q.data == u.data && q.off == u.off
  {
    var m, n := Fitting(off, a), Fitting(off, a + b);
    assert n == m + Fitting(off + m, b);
    if n > 0 {
      assert mem[off..off + n] == mem[off..off + m] + mem[off + m..off + n];
    }
  }

  lemma {:induction false} ChunkedRead(mem: Memory, off: nat, lens: seq<nat>)
    ensures var u := Read(mem, off, Sum(lens), Never(Sum(lens)));
            ReadAll(mem, off, lens) == (u.data, u.off)
    decreases lens
  {
    if lens != [] {
      var r := Read(mem, off, lens[0], Never(lens[0]));
      ChunkedRead(mem, r.off, lens[1..]);
      ReadTwice(mem, off, lens[0], Sum(lens[1..]));
    }
  }

  /** A read that starts where another ended extends what it got. */
  lemma ReadOn(mem: Memory, start: nat, pos: nat, len: nat)
    requires start <= pos <= VRAM_SIZE
    ensures var r := Read(mem, pos, len, Never(len));
            pos <= r.off <= VRAM_SIZE && mem[start..r.off] == mem[start..pos] + r.data
  {
  }

  /** The memory from `off` on; nothing past the window. */
  function From(mem: Memory, off: nat): seq<Byte> {
    if off <= VRAM_SIZE then mem[off..] else []
  }

  /** Memory with data in it, read from where the data begins. */
  lemma FromPut(mem: Memory, off: nat, data: seq<Byte>)
    requires data == [] || off + |data| <= VRAM_SIZE
    ensures From(Put(mem, off, data), off) == data + From(mem, off + |data|)
  {
    if data != [] {
      var m := Put(mem, off, data);
      assert m[off..] == data + mem[off + |data|..];
    }
  }

  /** One read is a piece of the memory from there on. */
  lemma ReadIsFrom(mem: Memory, off: nat, len: nat)
    ensures Fitting(off, len) <= |From(mem, off)|
    ensures Read(mem, off, len, Never(len)).data == From(mem, off)[..Fitting(off, len)]
  {
  }

  /** What a read of `len` should find where `data` was written: the data as far as it fits, then the
      old contents, and no more than asked. */
  function Found(mem: Memory, off: nat, data: seq<Byte>, len: nat): (r: seq<Byte>)
    ensures |r| == Fitting(off, len)
  {
    var w := Fitting(off, |data|);
    (data[..w] + From(mem, off + w))[..Fitting(off, len)]
  }

  lemma OneRoundTrip(mem: Memory, off: nat, data: seq<Byte>, len: nat)
    ensures Read(Write(mem, off, data, Never(|data|)).mem, off, len, Never(len)).data
         == Found(mem, off, data, len)
  {
    var w := Fitting(off, |data|);
    ReadIsFrom(Put(mem, off, data[..w]), off, len);
    FromPut(mem, off, data[..w]);
  }

  /** Chunked reads after chunked writes from the same start, wherever that is, find what one read
      should find after one write; and nothing outside the written range has changed. */
  lemma RoundTrip(mem: Memory, off: nat, chunks: seq<seq<Byte>>, lens: seq<nat>)
    ensures var data, after := Joined(chunks), WriteAll(mem, off, chunks).0;
            && ReadAll(after, off, lens).0 == Found(mem, off, data, Sum(lens))
            && after == Put(mem, off, data[..Fitting(off, |data|)])
  {
    ChunkedWrite(mem, off, chunks);
    ChunkedRead(WriteAll(mem, off, chunks).0, off, lens);
    OneRoundTrip(mem, off, Joined(chunks), Sum(lens));
  }

  // ---------------------------------------------------------------- faults

  /** One piece of data, and where each failed attempt to write it faulted. */
  datatype Attempts = Attempts(data: seq<Byte>, faults: seq<nat>)

  predicate AllFault(off: nat, a: Attempts) {
    forall i :: 0 <= i < |a.faults| ==> a.faults[i] < Fitting(off, |a.data|)
  }

  /** The failed attempts and then one that succeeds. */
  function WriteAtLast(mem: Memory, off: nat, a: Attempts): Written
    decreases |a.faults|
  {
    if a.faults == [] then Write(mem, off, a.data, Never(|a.data|))
    else
      var w := Write(mem, off, a.data, a.faults[0]);
      WriteAtLast(w.mem, w.off, Attempts(a.data, a.faults[1..]))
  }

  /** A fault leaves the position alone, overwrites just the bytes before it, and is forgotten as soon
      as the same write succeeds. */
  lemma FaultForgotten(mem: Memory, off: nat, data: seq<Byte>, fault: nat)
    requires fault < Fitting(off, |data|)
    ensures var w := Write(mem, off, data, fault);
            && w.ret == -14 && w.off == off
            && w.mem == mem[..off] + data[..fault] + mem[off + fault..]
            && Write(w.mem, w.off, data, Never(|data|)) == Write(mem, off, data, Never(|data|))
  {
    var w, n := Write(mem, off, data, fault), Fitting(off, |data|);
    PutBytes(mem, off, data[..fault]);
    PutBytes(mem, off, data[..n]);
    PutBytes(w.mem, off, data[..n]);
    assert Put(w.mem, off, data[..n]) == Put(mem, off, data[..n]);
  }

  lemma {:induction false} RetriesForgotten(mem: Memory, off: nat, a: Attempts)
    requires AllFault(off, a)
    ensures WriteAtLast(mem, off, a) == Write(mem, off, a.data, Never(|a.data|))
    decreases |a.faults|
  {
    if a.faults != [] {
      FaultForgotten(mem, off, a.data, a.faults[0]);
      var w := Write(mem, off, a.data, a.faults[0]);
      RetriesForgotten(w.mem, w.off, Attempts(a.data, a.faults[1..]));
    }
  }

  /** A whole session of writes, each retried until it succeeds. */
  function Session(mem: Memory, off: nat, tries: seq<Attempts>): (Memory, nat)
    decreases tries
  {
    if tries == [] then (mem, off)
    else
      var w := WriteAtLast(mem, off, tries[0]);
      Session(w.mem, w.off, tries[1..])
  }

  predicate AllFaultIn(mem: Memory, off: nat, tries: seq<Attempts>)
    decreases tries
  {
    tries == [] ||
    (AllFault(off, tries[0]) &&
     var w := WriteAtLast(mem, off, tries[0]);
     AllFaultIn(w.mem, w.off, tries[1..]))
  }

  function Datas(tries: seq<Attempts>): seq<seq<Byte>> {
    if tries == [] then [] else [tries[0].data] + Datas(tries[1..])
  }

  /** However its writes faulted on the way, a session ends as one write of all its data. */
  lemma {:induction false} SessionIsOneWrite(mem: Memory, off: nat, tries: seq<Attempts>)
    requires AllFaultIn(mem, off, tries)
    ensures Session(mem, off, tries) == WriteAll(mem, off, Datas(tries))
    decreases tries
  {
    if tries != [] {
      RetriesForgotten(mem, off, tries[0]);
      var w := WriteAtLast(mem, off, tries[0]);
      SessionIsOneWrite(w.mem, w.off, tries[1..]);
      assert Datas(tries)[1..] == Datas(tries[1..]);
    }
  }
}
