/** cw_read_file: reading at an offset, with the cached position of the descriptor. */
module Files {
  import opened Bytes

  /** How many calls on a file have failed, if it has been opened. */
  ghost function FailedCalls(file: File?): nat
    reads file
  {
    if file == null then 0 else file.failed
  }

  /** cw_file_t over an open descriptor. The kernel's own position is `at`. */
  class File {
    const data: Bytes        // the bytes of the file, as many as fstat reported
    const hasPread: bool
    var at: nat
    var offset: nat
    var sysOffset: int
    ghost var failed: nat    // how many calls of the system have failed or fallen short
    ghost var seeks: nat     // how many seeks have been made

    /** A descriptor just opened: the cache field holds whatever was in memory. */
    constructor (data: Bytes, hasPread: bool, garbage: int)
      ensures this.data == data && offset == 0 && sysOffset == garbage && failed == seeks == 0 && InOrder()
    {
      this.data, this.hasPread, at, offset, sysOffset := data, hasPread, 0, 0, garbage;
      failed, seeks := 0, 0;
    }

    /** The cache tells the truth, or the kernel already stands where the next read will start. */
    ghost predicate InOrder()
      reads this
    {
      offset <= |data| && (hasPread || sysOffset == at || at == offset)
    }

    /** No seek is needed for the next read. */
    ghost predicate Settled()
      reads this
    {
      hasPread || sysOffset == offset
    }

    /** lseek: fails, or moves the kernel's position. */
    method Seek(to: nat) returns (ok: bool)
      modifies this`at, this`failed, this`seeks
      ensures at == (if ok then to else old(at)) && seeks == old(seeks) + 1
      ensures failed == old(failed) + if ok then 0 else 1
    {
      ok := *;
      seeks := seeks + 1;
      if ok {
        at := to;
      } else {
        failed := failed + 1;
      }
    }

    /** read and pread: fail, or deliver some of the bytes asked for, from `from` on. */
    method Deliver(buf: array<byte>, to: nat, size: nat, from: nat) returns (n: int)
      requires to + size <= buf.Length
      modifies buf, this`failed
      ensures -1 <= n <= size && (n > 0 ==> from + n <= |data| && buf[to..to + n] == data[from..from + n])
      ensures buf[..to] == old(buf[..to])
      ensures failed == old(failed) + if from + size <= |data| && n < size then 1 else 0
    {
      n := *;
      var left := if from <= |data| then |data| - from else 0;
      if from + size <= |data| && n < size {
        failed := failed + 1;
      }
      if n < 0 {
        return -1;
      }
      if n > size {
        n := size;
      }
      if n > left {
        n := left;
      }
      forall i | 0 <= i < n {
        buf[to + i] := data[from + i];
      }
    }

    /**
      cw_read_file. What arrives in the buffer comes from `from`, whether or not the seek was
      saved, as long as the cache does not claim that position wrongly.
     */
    method Read(buf: array<byte>, to: nat, size: nat, from: nat) returns (n: int)
      requires to + size <= buf.Length
      requires hasPread || (sysOffset == from ==> at == from)
      modifies this`at, this`offset, this`sysOffset, this`failed, this`seeks, buf
      ensures seeks == old(seeks) + if hasPread || old(sysOffset) == from then 0 else 1
      ensures -1 <= n <= size && (n > 0 ==> from + n <= |data| && buf[to..to + n] == data[from..from + n])
      ensures buf[..to] == old(buf[..to])
      ensures offset == old(offset) + if n < 0 then 0 else n
      ensures if hasPread then at == old(at) && sysOffset == old(sysOffset)
              else if n < 0 then (at, sysOffset) == (old(at), old(sysOffset)) || sysOffset == at == from
              else sysOffset == at == from + n
      ensures failed >= old(failed) && (from + size <= |data| ==> (n != size <==> failed > old(failed)))
    {
      if hasPread {
        n := Deliver(buf, to, size, from);
        if n == -1 {
          return;
        }
      } else {
        if sysOffset != from {
          var ok := Seek(from);
          if !ok {
            return -1;
          }
          sysOffset := from;
        }
        n := Deliver(buf, to, size, at);
        if n == -1 {
          return;
        }
        at := at + n;
        sysOffset := sysOffset + n;
      }
      offset := offset + n;
    }

    /**
      The call a refill makes. On a file just opened, and from then on, whatever sys_offset held
      at first: every read delivers the bytes right behind the ones before it, and after the first
      that succeeds no seek is made.
     */
    method ReadNext(buf: array<byte>, to: nat, size: nat) returns (n: int)
      requires InOrder() && to + size <= buf.Length
      modifies this`at, this`offset, this`sysOffset, this`failed, this`seeks, buf
      ensures (old(Settled()) ==> seeks == old(seeks)) && (n >= 0 ==> Settled())
      ensures InOrder() && -1 <= n <= size
      ensures offset == old(offset) + if n < 0 then 0 else n
      ensures n >= 0 ==> buf[to..to + n] == data[old(offset)..offset]
      ensures buf[..to] == old(buf[..to])
      ensures failed >= old(failed) && (old(offset) + size <= |data| ==> (n != size <==> failed > old(failed)))
    {
      n := Read(buf, to, size, offset);
    }
  }
}
