/** The bytes of the address space, and reading and writing runs of them. */
module Memory {
  import opened Bytes

  /** Bytes never written read as 0. */
  type Mem = map<int, byte>

  function At(mem: Mem, a: int): byte {
    if a in mem then mem[a] else 0
  }

  function Load(mem: Mem, a: int, n: nat): (r: Bytes)
    ensures |r| == n
  {
    seq(n, i => At(mem, a + i))
  }

  /** bs written from a on, one byte after the other. */
  function Store(mem: Mem, a: int, bs: Bytes): Mem {
    if bs == [] then mem
    else var n := |bs| - 1; Store(mem, a, bs[..n])[a + n := bs[n]]
  }

  lemma {:induction false} AtStored(mem: Mem, a: int, bs: Bytes, x: int)
    ensures At(Store(mem, a, bs), x) == if a <= x < a + |bs| then bs[x - a] else At(mem, x)
    decreases |bs|
  {
    if bs != [] {
      AtStored(mem, a, bs[..|bs| - 1], x);
    }
  }

  lemma LoadStored(mem: Mem, a: int, bs: Bytes)
    ensures Load(Store(mem, a, bs), a, |bs|) == bs
  {
    forall i | 0 <= i < |bs| ensures At(Store(mem, a, bs), a + i) == bs[i] { AtStored(mem, a, bs, a + i); }
  }

  lemma LoadApart(mem: Mem, a: int, bs: Bytes, b: int, n: nat)
    requires bs == [] || n == 0 || b + n <= a || a + |bs| <= b
    ensures Load(Store(mem, a, bs), b, n) == Load(mem, b, n)
  {
    forall i | 0 <= i < n ensures Load(Store(mem, a, bs), b, n)[i] == Load(mem, b, n)[i] {
      AtStored(mem, a, bs, b + i);
    }
  }

  lemma LoadSplit(mem: Mem, a: int, n: nat, m: nat)
    ensures Load(mem, a, n + m) == Load(mem, a, n) + Load(mem, a + n, m)
  {
  }

  lemma StoreSnoc(mem: Mem, a: int, bs: Bytes, b: byte)
    ensures Store(mem, a, bs)[a + |bs| := b] == Store(mem, a, bs + [b])
  {
    assert (bs + [b])[..|bs|] == bs;
  }
}
