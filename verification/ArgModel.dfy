/**
  The argument list of a directive in memory: an array of cw_str_t in a pool, each pointing to
  bytes in the same pool.
 */
module ArgModel {
  import opened Bytes
  import opened Memory
  import opened PoolModel
  import opened ArrayModel

  const STR_SIZE := 16   // sizeof(cw_str_t): the length, then the address

  // ---------------------------------------------------------------- machine words in memory

  function Pow256(k: nat): nat {
    if k == 0 then 1 else 256 * Pow256(k - 1)
  }

  /** n in k bytes, least significant first. */
  function LittleEndian(n: nat, k: nat): (r: Bytes)
    ensures |r| == k
    decreases k
  {
    if k == 0 then [] else [(n % 256) as byte] + LittleEndian(n / 256, k - 1)
  }

  function WordValue(bs: Bytes): nat {
    if bs == [] then 0 else bs[0] as nat + 256 * WordValue(bs[1..])
  }

  lemma {:induction false} ValueOfLittleEndian(n: nat, k: nat)
    requires n < Pow256(k)
    ensures WordValue(LittleEndian(n, k)) == n
    decreases k
  {
    if k > 0 {
      ValueOfLittleEndian(n / 256, k - 1);
      assert LittleEndian(n, k)[1..] == LittleEndian(n / 256, k - 1);
    }
  }

  lemma EightBytes()
    ensures Pow256(8) == TOP
  {
    assert Pow256(2) == 0x1_0000;
    assert Pow256(4) == 0x1_0000_0000;
    assert Pow256(6) == 0x1_0000_0000_0000;
  }

  // ---------------------------------------------------------------- cw_str_t

  function LenField(mem: Mem, e: int): nat { WordValue(Load(mem, e, 8)) }

  function DataField(mem: Mem, e: int): nat { WordValue(Load(mem, e + 8, 8)) }

  /** The bytes the cw_str_t at e denotes. */
  function StrBytes(mem: Mem, e: int): Bytes { Load(mem, DataField(mem, e), LenField(mem, e)) }

  /** What a reader of args->elts sees. */
  function Words(mem: Mem, a: Arr): (ws: seq<Bytes>)
    ensures |ws| == a.nelts
  {
    seq(a.nelts, i requires 0 <= i < a.nelts => StrBytes(mem, Elt(a, i)))
  }

  /** The cw_str_t at e points to range h, which holds its bytes and a NUL behind them. */
  ghost predicate SlotOk(s: Sys, mem: Mem, e: int, h: nat) {
    && h < |s.live|
    && s.live[h].addr == DataField(mem, e) && LenField(mem, e) + 1 <= s.live[h].size
    && At(mem, DataField(mem, e) + LenField(mem, e)) == NUL
  }

  /** Every argument points to a range of its own kind; hs says which. */
  ghost predicate ArgsOk(s: Sys, mem: Mem, a: Arr, hs: seq<nat>) {
    && a.size == STR_SIZE && |hs| == a.nelts
    && (forall i :: 0 <= i < |hs| ==> hs[i] != a.range && SlotOk(s, mem, Elt(a, i), hs[i]))
  }

  // ---------------------------------------------------------------- one more word

  /** The writes of one word: the address, then the decoded bytes and a NUL, then the length. */
  function WithWord(mem: Mem, e: int, data: nat, word: Bytes): Mem {
    Store(Store(Store(mem, e + 8, LittleEndian(data, 8)), data, word + [NUL]), e, LittleEndian(|word|, 8))
  }

  /** Bytes apart from the slot and from the new word are as before. */
  lemma WithWordApart(mem: Mem, e: int, data: nat, word: Bytes, a: int, n: nat)
    requires n == 0 || a + n <= e || e + 16 <= a
    requires n == 0 || a + n <= data || data + |word| + 1 <= a
    ensures Load(WithWord(mem, e, data, word), a, n) == Load(mem, a, n)
  {
    hide Load, Store;
    var m1 := Store(mem, e + 8, LittleEndian(data, 8));
    var m2 := Store(m1, data, word + [NUL]);
    LoadApart(mem, e + 8, LittleEndian(data, 8), a, n);
    LoadApart(m1, data, word + [NUL], a, n);
    LoadApart(m2, e, LittleEndian(|word|, 8), a, n);
  }

  /** The new slot denotes the new word. */
  lemma WithWordReads(mem: Mem, e: int, data: nat, word: Bytes)
    requires data < TOP && |word| < TOP
    requires e + 16 <= data || data + |word| + 1 <= e
    ensures var m := WithWord(mem, e, data, word);
            DataField(m, e) == data && LenField(m, e) == |word| && StrBytes(m, e) == word && At(m, data + |word|) == NUL
  {
    hide Load, Store, LittleEndian, WordValue, Pow256;
    EightBytes();
    var m1 := Store(mem, e + 8, LittleEndian(data, 8));
    var m2 := Store(m1, data, word + [NUL]);
    var m := Store(m2, e, LittleEndian(|word|, 8));
    ValueOfLittleEndian(data, 8);
    ValueOfLittleEndian(|word|, 8);
    LoadStored(mem, e + 8, LittleEndian(data, 8));
    LoadApart(m1, data, word + [NUL], e + 8, 8);
    LoadApart(m2, e, LittleEndian(|word|, 8), e + 8, 8);
    LoadStored(m2, e, LittleEndian(|word|, 8));
    LoadStored(m1, data, word + [NUL]);
    LoadApart(m2, e, LittleEndian(|word|, 8), data, |word| + 1);
    LoadSplit(m, data, |word|, 1);
    LastByte(m, data, word);
  }

  lemma LastByte(m: Mem, a: int, word: Bytes)
    requires Load(m, a, |word| + 1) == word + [NUL]
    ensures Load(m, a, |word|) == word && At(m, a + |word|) == NUL
  {
    assert Load(m, a, |word| + 1)[|word|] == NUL;
    assert Load(m, a, |word|) == Load(m, a, |word| + 1)[..|word|];
  }

  // ---------------------------------------------------------------- the list while others take memory

  /** A later request to the same pool, zeroed or not, leaves every argument as it was. */
  lemma WordsStay(s: Sys, mem: Mem, a: Arr, hs: seq<nat>, t: Sys, zeros: Bytes)
    requires ArrOk(s, a) && ArgsOk(s, mem, a, hs) && Inv(t) && |t.live| > |s.live| && s.live <= t.live
    requires |zeros| <= t.live[|t.live| - 1].size
    ensures var m := Store(mem, t.live[|t.live| - 1].addr, zeros);
            ArgsOk(t, m, a, hs) && Words(m, a) == Words(mem, a)
  {
    hide Geometry, HostOk, Owning, RecordsHeld, Load, Store, Room, StrBytes, DataField, LenField, SlotOk, Apart;
    var last := |t.live| - 1;
    var r := t.live[last];
    var m := Store(mem, r.addr, zeros);
    forall i | 0 <= i < a.nelts
      ensures SlotOk(t, m, Elt(a, i), hs[i]) && StrBytes(m, Elt(a, i)) == StrBytes(mem, Elt(a, i))
    {
      assert SlotOk(s, mem, Elt(a, i), hs[i]);
      SlotInRange(s, mem, a, i, hs[i]);
      BytesStay(t, mem, a.range, last, zeros, Elt(a, i), 16);
      BytesStay(t, mem, hs[i], last, zeros, s.live[hs[i]].addr, s.live[hs[i]].size);
      SameWord(s, mem, Elt(a, i), hs[i], t, m, Elt(a, i));
    }
  }

  lemma SlotInRange(s: Sys, mem: Mem, a: Arr, i: nat, h: nat)
    requires ArrOk(s, a) && a.size == STR_SIZE && i < a.nelts && SlotOk(s, mem, Elt(a, i), h)
    ensures var r := s.live[a.range]; r.addr <= Elt(a, i) && Elt(a, i) + 16 <= r.addr + r.size
    ensures h < |s.live|
  {
    SlotInside(a, i);
  }

  /** A write at the start of one range leaves the bytes of another alone. */
  lemma BytesStay(t: Sys, mem: Mem, h: nat, k: nat, bs: Bytes, a: int, n: nat)
    requires LiveOk(t) && h < |t.live| && k < |t.live| && h != k && |bs| <= t.live[k].size
    requires t.live[h].addr <= a && a + n <= t.live[h].addr + t.live[h].size
    ensures Load(Store(mem, t.live[k].addr, bs), a, n) == Load(mem, a, n)
  {
    hide Load, Store, Housed;
    RangesApart(t, h, k);
    LoadApart(mem, t.live[k].addr, bs, a, n);
  }

  // ---------------------------------------------------------------- the whole list after one more word

  lemma RangesApart(s: Sys, h: nat, k: nat)
    requires LiveOk(s) && h < |s.live| && k < |s.live| && h != k
    ensures Apart(s.live[h], s.live[k])
  {
    if h < k { assert Apart(s.live[h], s.live[k]); } else { assert Apart(s.live[k], s.live[h]); }
  }

  /** A part of a run of bytes. */
  lemma LoadPart(mem: Mem, a: int, n: nat, i: nat, k: nat)
    requires i + k <= n
    ensures Load(mem, a + i, k) == Load(mem, a, n)[i..i + k]
  {
  }

  /** The pool after the push and the allocation of the word: t has one more range, the word's. */
  ghost predicate WordRange(s: Sys, t: Sys, data: int, n: nat) {
    && Inv(t) && |t.live| > |s.live| && s.live <= t.live
    && t.live[|t.live| - 1].addr == data && t.live[|t.live| - 1].size == n
  }

  /** A range that is neither the array's nor new keeps its bytes through the push and the writes of the word. */
  lemma RangeKept(s: Sys, mem: Mem, a: Arr, p: Pushed, t: Sys, data: int, n: nat, word: Bytes, h: nat)
    requires ArrOk(s, a) && a.size == STR_SIZE && GrowOk(s, a, 1, p) && p.elt != 0
    requires WordRange(p.sys, t, data, n) && |word| + 1 <= n && data >= 0
    requires h < |s.live| && h != a.range
    ensures t.live[h] == s.live[h]
    ensures var r := s.live[h];
            Load(WithWord(Copied(mem, a, p), p.elt, data, word), r.addr, r.size) == Load(mem, r.addr, r.size)
  {
    hide Geometry, HostOk, Owning, RecordsHeld, Load, Store, WithWord;
    var r := s.live[h];
    assert t.live[h] == p.sys.live[h] == r;
    var q := t.live[p.arr.range];
    assert q == p.sys.live[p.arr.range];
    SlotInside(p.arr, a.nelts);
    RangesApart(t, h, p.arr.range);
    RangesApart(t, h, |t.live| - 1);
    if p.moved {
      RoomOf16(a.nelts);
      LoadApart(mem, p.arr.elts, Load(mem, a.elts, Room(a.size, a.nelts)), r.addr, r.size);
    }
    WithWordApart(Copied(mem, a, p), p.elt, data, word, r.addr, r.size);
  }

  lemma RoomOf16(n: nat)
    ensures Room(16, n) == 16 * n
  {
  }

  lemma SlotInside(b: Arr, i: nat)
    requires b.size == STR_SIZE && i < b.nelts <= b.nalloc
    ensures Elt(b, i) == b.elts + 16 * i
    ensures Elt(b, i) + 16 <= b.elts + Room(b.size, b.nalloc)
    ensures Room(b.size, i) == 16 * i
  {
    RoomOf16(i);
    RoomOf16(b.nalloc);
  }

  /** An old slot keeps its bytes, wherever the array is now. */
  lemma SlotKept(s: Sys, mem: Mem, a: Arr, p: Pushed, t: Sys, data: int, n: nat, word: Bytes, i: nat)
    requires ArrOk(s, a) && a.size == STR_SIZE && GrowOk(s, a, 1, p) && p.elt != 0
    requires WordRange(p.sys, t, data, n) && |word| + 1 <= n && data >= 0 && i < a.nelts
    ensures Load(WithWord(Copied(mem, a, p), p.elt, data, word), Elt(p.arr, i), 16) == Load(mem, Elt(a, i), 16)
  {
    hide Geometry, HostOk, Owning, RecordsHeld, Load, Store, WithWord, Room;
    SlotInside(p.arr, i);
    SlotInside(p.arr, a.nelts);
    assert t.live[p.arr.range] == p.sys.live[p.arr.range];
    RangesApart(t, p.arr.range, |t.live| - 1);
    if p.moved {
      RoomOf16(a.nelts);
      LoadStored(mem, p.arr.elts, Flat(mem, a));
      LoadPart(Copied(mem, a, p), p.arr.elts, 16 * a.nelts, 16 * i, 16);
      LoadPart(mem, a.elts, 16 * a.nelts, 16 * i, 16);
    }
    WithWordApart(Copied(mem, a, p), p.elt, data, word, Elt(p.arr, i), 16);
  }

  /** The same cw_str_t bytes and the same range bytes denote the same word. */
  lemma SameWord(s: Sys, mem: Mem, e: int, h: nat, t: Sys, mem': Mem, e': int)
    requires SlotOk(s, mem, e, h) && h < |t.live| && t.live[h] == s.live[h]
    requires Load(mem', e', 16) == Load(mem, e, 16)
    requires Load(mem', s.live[h].addr, s.live[h].size) == Load(mem, s.live[h].addr, s.live[h].size)
    ensures SlotOk(t, mem', e', h) && StrBytes(mem', e') == StrBytes(mem, e)
  {
    hide Load, WordValue;
    LoadPart(mem, e, 16, 0, 8);
    LoadPart(mem', e', 16, 0, 8);
    LoadPart(mem, e, 16, 8, 8);
    LoadPart(mem', e', 16, 8, 8);
    var r := s.live[h];
    var len := LenField(mem, e);
    LoadPart(mem, r.addr, r.size, 0, len);
    LoadPart(mem', r.addr, r.size, 0, len);
    LoadPart(mem, r.addr, r.size, len, 1);
    LoadPart(mem', r.addr, r.size, len, 1);
    LoadOne(mem, r.addr + len);
    LoadOne(mem', r.addr + len);
  }

  lemma LoadOne(mem: Mem, a: int)
    ensures Load(mem, a, 1) == [At(mem, a)]
  {
  }

  /** After the push, the allocation and the writes, every argument is still there and the new one is last. */
  lemma WordPushed(s: Sys, mem: Mem, a: Arr, hs: seq<nat>, p: Pushed, t: Sys, data: int, n: nat, word: Bytes)
    requires ArrOk(s, a) && ArgsOk(s, mem, a, hs) && GrowOk(s, a, 1, p) && p.elt != 0
    requires WordRange(p.sys, t, data, n) && |word| + 1 <= n && 0 <= data && data + n <= TOP
    ensures var m := WithWord(Copied(mem, a, p), p.elt, data, word);
            && ArgsOk(t, m, p.arr, hs + [|t.live| - 1])
            && Words(m, p.arr) == Words(mem, a) + [word]
  {
    hide Inv, Load, Store, WithWord, WordValue, Room, StrBytes, DataField, LenField;
    var m := WithWord(Copied(mem, a, p), p.elt, data, word);
    forall i | 0 <= i < a.nelts
      ensures hs[i] != p.arr.range && SlotOk(t, m, Elt(p.arr, i), hs[i])
      ensures StrBytes(m, Elt(p.arr, i)) == StrBytes(mem, Elt(a, i))
    {
      assert SlotOk(s, mem, Elt(a, i), hs[i]);
      RangeKept(s, mem, a, p, t, data, n, word, hs[i]);
      SlotKept(s, mem, a, p, t, data, n, word, i);
      SameWord(s, mem, Elt(a, i), hs[i], t, m, Elt(p.arr, i));
    }
    NewSlot(s, mem, a, p, t, data, n, word);
  }

  lemma NewSlot(s: Sys, mem: Mem, a: Arr, p: Pushed, t: Sys, data: int, n: nat, word: Bytes)
    requires ArrOk(s, a) && a.size == STR_SIZE && GrowOk(s, a, 1, p) && p.elt != 0
    requires WordRange(p.sys, t, data, n) && |word| + 1 <= n && 0 <= data && data + n <= TOP
    ensures var m := WithWord(Copied(mem, a, p), p.elt, data, word);
            && SlotOk(t, m, Elt(p.arr, a.nelts), |t.live| - 1) && StrBytes(m, Elt(p.arr, a.nelts)) == word
            && p.arr.range != |t.live| - 1
  {
    hide Geometry, HostOk, Owning, RecordsHeld, Load, Store, WithWord, Room, StrBytes, DataField, LenField;
    SlotInside(p.arr, a.nelts);
    assert t.live[p.arr.range] == p.sys.live[p.arr.range];
    RangesApart(t, p.arr.range, |t.live| - 1);
    WithWordReads(Copied(mem, a, p), p.elt, data, word);
  }
}
