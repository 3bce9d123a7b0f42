/**
 The memory object of a running message: the generated helpers on a growing byte buffer
 and a gas counter, and what holds of any sequence of requests to it.
 */
module Memories {
  import opened Words
  import opened Opcodes
  import opened Evm
  import opened MemoryUnit
  import Ir
  import U = MemoryUnit

  /** Truncation to a 64-bit size keeps values that fit. */
  method Truncate(x: Word) returns (t: nat)
    ensures t < TWO_64 && (x < TWO_64 ==> t == x)
  {
    t := x % TWO_64;
  }

  /** Data, size and gas cells; a request that cannot be paid for reports failure. */
  class Memory {
    const rev: Revision
    var data: array<Byte>
    var size: nat
    var gas: nat

    constructor (rev: Revision, gas: nat)
      ensures Valid() && Contents() == [] && this.gas == gas && this.rev == rev
      ensures fresh(data)
    {
      this.rev := rev;
      data := new Byte[0];
      size := 0;
      this.gas := gas;
    }

    ghost predicate Valid()
      reads this
    {
      size == data.Length
    }

    ghost function Contents(): seq<Byte>
      reads this, data
      requires Valid()
    {
      data[..size]
    }

    /** Within the gas bound. */
    ghost predicate Bounded()
      reads this, data
    {
      Valid() && Safe(rev, gas, Contents())
    }

    /** Grows the buffer; new bytes are zero. */
    method Extend(newSize: nat)
      requires Valid() && size <= newSize
      modifies this
      ensures Valid() && gas == old(gas) && (data == old(data) || fresh(data))
      ensures Contents() == old(Contents()) + Zeros(newSize - old(size))
    {
      var newData := new Byte[newSize];
      forall i | 0 <= i < size {
        newData[i] := data[i];
      }
      forall i | size <= i < newSize {
        newData[i] := 0;
      }
      data, size := newData, newSize;
    }

    /**
     Makes a range available, charging for the growth. Whenever no multiplication wraps it
     does what the 64-bit rule says; within the gas bound that is the unbounded rule.
     */
    method Require(off: Word, len: Word) returns (ok: bool)
      requires Valid() && U.Require(rev, size, off, len).Growth?
      modifies this
      ensures Valid() && (data == old(data) || fresh(data))
      ensures
        var g := old(U.Require(rev, size, off, len));
        && (ok <==> g.cost <= old(gas))
        && (ok ==> gas == old(gas) - g.cost && Contents() == Ir.Grow(old(Contents()), g.size))
        && (!ok ==> gas == old(gas) && Contents() == old(Contents()))
      ensures old(Bounded()) ==>
        var cost := ExpandCost(rev, old(Contents()), off, len);
        && (ok <==> cost <= old(gas))
        && (ok ==> Bounded() && Contents() == Expand(old(Contents()), off, len) && gas == old(gas) - cost)
        && (ok && len > 0 ==> off <= INPUT_MAX && len <= INPUT_MAX && off + len <= size)
    {
      if Bounded() {
        RequestCharge(rev, gas, Contents(), off, len);
      }
      ok := true;
      if len != 0 {
        var sizeReq := Requested(off, len);
        if sizeReq > size {
          var c := ChargeFor(rev, size, off, len);
          if c > gas {
            return false;
          }
          gas := gas - c;
          Extend(sizeReq);
        }
      }
    }

    method StoreWord(addr: Word, value: Word) returns (ok: bool)
      requires Valid() && (Bounded() || InReach(rev, gas, size, addr, 16))
      modifies this, data
      ensures data == old(data) || fresh(data)
      ensures
        var g := old(U.Require(rev, size, addr, 16));
        && g.Growth? && (ok <==> g.cost <= old(gas))
        && (ok ==>
              && Valid() && gas == old(gas) - g.cost && addr + 16 <= |Ir.Grow(old(Contents()), g.size)|
              && Contents() == Overwrite(Ir.Grow(old(Contents()), g.size), addr, BigEndian(16, value)))
      ensures old(Bounded()) ==>
        && (ok <==> ExpandCost(rev, old(Contents()), addr, 16) <= old(gas))
        && (ok ==>
              && Bounded() && gas == old(gas) - ExpandCost(rev, old(Contents()), addr, 16)
              && Contents() == Overwrite(Expand(old(Contents()), addr, 16), addr, BigEndian(16, value)))
    {
      if Bounded() {
        BoundedInReach(rev, gas, Contents(), addr, 16);
      }
      ok := Require(addr, 16);
      if ok {
        var index := Truncate(addr);
        WriteBytes(index, BigEndian(16, value));
      }
    }

    method StoreByte(addr: Word, value: Word) returns (ok: bool)
      requires Valid() && (Bounded() || InReach(rev, gas, size, addr, 1))
      modifies this, data
      ensures data == old(data) || fresh(data)
      ensures
        var g := old(U.Require(rev, size, addr, 1));
        && g.Growth? && (ok <==> g.cost <= old(gas))
        && (ok ==>
              && Valid() && gas == old(gas) - g.cost && addr + 1 <= |Ir.Grow(old(Contents()), g.size)|
              && Contents() == Overwrite(Ir.Grow(old(Contents()), g.size), addr, [value % 256]))
      ensures old(Bounded()) ==>
        && (ok <==> ExpandCost(rev, old(Contents()), addr, 1) <= old(gas))
        && (ok ==>
              && Bounded() && gas == old(gas) - ExpandCost(rev, old(Contents()), addr, 1)
              && Contents() == Overwrite(Expand(old(Contents()), addr, 1), addr, [value % 256]))
    {
      if Bounded() {
        BoundedInReach(rev, gas, Contents(), addr, 1);
      }
      ok := Require(addr, 1);
      if ok {
        var index := Truncate(addr);
        WriteBytes(index, [value % 256]);
      }
    }

    method LoadWord(addr: Word) returns (ok: bool, value: Word)
      requires Valid() && (Bounded() || InReach(rev, gas, size, addr, 16))
      modifies this
      ensures data == old(data) || fresh(data)
      ensures
        var g := old(U.Require(rev, size, addr, 16));
        && g.Growth? && (ok <==> g.cost <= old(gas))
        && (ok ==>
              && Valid() && gas == old(gas) - g.cost && addr + 16 <= |Ir.Grow(old(Contents()), g.size)|
              && Contents() == Ir.Grow(old(Contents()), g.size) && value == ReadWord(Contents(), addr))
      ensures old(Bounded()) ==>
        && (ok <==> ExpandCost(rev, old(Contents()), addr, 16) <= old(gas))
        && (ok ==>
              && Bounded() && gas == old(gas) - ExpandCost(rev, old(Contents()), addr, 16)
              && Contents() == Expand(old(Contents()), addr, 16) && value == ReadWord(Contents(), addr))
    {
      value := 0;
      if Bounded() {
        BoundedInReach(rev, gas, Contents(), addr, 16);
      }
      ok := Require(addr, 16);
      if ok {
        var a := Truncate(addr);
        var bytes := data[a..a + 16];
        WordAt(data[..], Contents(), a);
        value := FromBigEndian(bytes);
      }
    }

    /** Stores consecutive bytes into memory that is there. */
    method WriteBytes(at: nat, bytes: seq<Byte>)
      requires Valid() && at + |bytes| <= size
      modifies data
      ensures Valid() && Contents() == Overwrite(old(Contents()), at, bytes)
    {
      forall i | 0 <= i < |bytes| {
        data[at + i] := bytes[i];
      }
      WrittenBytes(old(Contents()), at, bytes, Contents());
    }

    /** Copies what there is of a range of some data, and clears the rest of the target. */
    method CopyOrClear(src: seq<Byte>, srcIdx: Word, dest: nat, reqBytes: nat)
      requires Valid() && |src| < TWO_64 && reqBytes > 0 && dest + reqBytes <= size
      modifies data
      ensures Valid() && Contents() == Overwrite(old(Contents()), dest, PaddedSlice(src, srcIdx, reqBytes))
    {
      var idx64 := Truncate(srcIdx);
      var bytesToCopy := 0;
      if srcIdx < |src| {
        var dataLeftSize := |src| - idx64;
        bytesToCopy := if reqBytes > dataLeftSize then dataLeftSize else reqBytes;
      }
      var bytes := Available(src, idx64, bytesToCopy);
      var clear := Zeros(reqBytes - bytesToCopy);
      WriteBytes(dest, bytes);
      ghost var copied := Contents();
      WriteBytes(dest + bytesToCopy, clear);
      CopyThenClear(old(Contents()), src, srcIdx, dest, reqBytes, bytesToCopy, bytes, copied, clear, Contents());
    }

    /**
     Copies a range of some data into memory. Whatever lies beyond the end of the data
     reads as zero, and nothing outside the target range changes.
     */
    method CopyBytes(src: seq<Byte>, srcIdx: Word, dest: Word, len: Word) returns (ok: bool)
      requires Valid() && |src| < TWO_64 && (Bounded() || InReach(rev, gas, size, dest, len))
      modifies this, data
      ensures data == old(data) || fresh(data)
      ensures
        var g := old(U.Require(rev, size, dest, len));
        && g.Growth? && (ok <==> g.cost + CopyPrice(len) <= old(gas))
        && (ok ==>
              && Valid() && gas == old(gas) - g.cost - CopyPrice(len)
              && (len > 0 ==> dest + len <= |Ir.Grow(old(Contents()), g.size)|)
              && Contents() == Overwrite(Ir.Grow(old(Contents()), g.size), dest, PaddedSlice(src, srcIdx, len)))
      ensures old(Bounded()) ==>
        var cost := ExpandCost(rev, old(Contents()), dest, len) + OperandCost(rev, CallDataCopy, [len, srcIdx, dest]);
        && (ok <==> cost <= old(gas))
        && (ok ==>
              && Bounded() && gas == old(gas) - cost
              && Contents() == Overwrite(Expand(old(Contents()), dest, len), dest, PaddedSlice(src, srcIdx, len)))
    {
      CopyPriceExact(rev, srcIdx, dest, len);
      if Bounded() {
        BoundedInReach(rev, gas, Contents(), dest, len);
      }
      ok := Require(dest, len);
      if ok {
        var reqBytes := Truncate(len);
        var copyCost := CopyPrice(reqBytes);
        if copyCost > gas {
          return false;
        }
        gas := gas - copyCost;
        if reqBytes != 0 {
          var dstIdx := Truncate(dest);
          CopyOrClear(src, srcIdx, dstIdx, reqBytes);
        }
      }
    }
  }

  /** A request neither wraps nor, if it is served, leaves its range outside memory. */
  predicate InReach(rev: Revision, gas: nat, size: nat, off: Word, len: Word) {
    var g := U.Require(rev, size, off, len);
    g.Growth? && (g.cost <= gas && len > 0 ==> off + len <= g.size && off < TWO_64 && len < TWO_64)
  }

  /** Within the gas bound every request is in reach. */
  lemma BoundedInReach(rev: Revision, gas: nat, memory: seq<Byte>, off: Word, len: Word)
    requires Safe(rev, gas, memory)
    ensures InReach(rev, gas, |memory|, off, len)
  {
    RequireCorrect(rev, gas, memory, off, len);
  }

  /** Three per word copied. */
  function CopyPrice(len: nat): nat {
    3 * ((len + 31) / 32)
  }

  /** That is what copying costs the reference machine beyond memory. */
  lemma CopyPriceExact(rev: Revision, src: Word, dest: Word, len: Word)
    ensures CopyPrice(len) == OperandCost(rev, CallDataCopy, [len, src, dest])
    ensures CopyPrice(len) == OperandCost(rev, CodeCopy, [len, src, dest])
  {
  }

  /** What growing memory for a request costs on the 64-bit counter. */
  function ChargeFor(rev: Revision, cur: nat, off: nat, len: nat): int {
    if off <= INPUT_MAX && len <= INPUT_MAX then PriceOf(rev, Requested(off, len) / 32) - PriceOf(rev, cur / 32)
    else GAS_MAX
  }

  lemma RequestCharge(rev: Revision, gas: nat, memory: seq<Byte>, off: Word, len: Word)
    requires Safe(rev, gas, memory)
    ensures
      var req := Requested(off, len);
      var cost := ExpandCost(rev, memory, off, len);
      var c := ChargeFor(rev, |memory|, off, len);
      if len == 0 || req <= |memory| then cost == 0 && Expand(memory, off, len) == memory
      else
        && (c <= gas <==> cost <= gas)
        && (c <= gas ==> c == cost && Expand(memory, off, len) == memory + Zeros(req - |memory|)
                         && Safe(rev, gas - c, memory + Zeros(req - |memory|)))
    ensures ExpandCost(rev, memory, off, len) <= gas && len > 0 ==>
      off <= INPUT_MAX && len <= INPUT_MAX && off + len <= |Expand(memory, off, len)|
  {
    RequireCorrect(rev, gas, memory, off, len);
    if ExpandCost(rev, memory, off, len) <= gas {
      SafeAfterGrowth(rev, gas, memory, off, len);
    }
  }

  lemma ReadBound(bs: seq<Byte>)
    requires |bs| == 16
    ensures FromBigEndian(bs) < TWO_128
  {
    FromBigEndianBound(bs);
    Pow256IsPow2(16);
    Pow2At128();
  }

  lemma WordAt(data: seq<Byte>, contents: seq<Byte>, a: nat)
    requires contents == data && a + 16 <= |data|
    ensures FromBigEndian(data[a..a + 16]) == ReadWord(contents, a) < TWO_128
  {
    ReadBound(data[a..a + 16]);
  }

  lemma WrittenBytes(m: seq<Byte>, at: nat, bytes: seq<Byte>, m': seq<Byte>)
    requires |m'| == |m| && at + |bytes| <= |m|
    requires forall k :: 0 <= k < |m| ==> m'[k] == if at <= k < at + |bytes| then bytes[k - at] else m[k]
    ensures m' == Overwrite(m, at, bytes)
  {
  }

  lemma OverwrittenAt(m: seq<Byte>, at: nat, bytes: seq<Byte>, k: nat)
    requires at + |bytes| <= |m| && k < |m|
    ensures Overwrite(m, at, bytes)[k] == if at <= k < at + |bytes| then bytes[k - at] else m[k]
  {
  }

  function Available(src: seq<Byte>, srcIdx: nat, n: nat): seq<Byte>
    requires n > 0 ==> srcIdx + n <= |src|
  {
    if n > 0 then src[srcIdx..srcIdx + n] else []
  }

  lemma CopyThenClearAt(m: seq<Byte>, src: seq<Byte>, srcIdx: nat, dest: nat, len: nat, n: nat, k: nat)
    requires len > 0 && dest + len <= |m| && k < |m|
    requires n == if srcIdx >= |src| then 0 else if len > |src| - srcIdx then |src| - srcIdx else len
    ensures Overwrite(Overwrite(m, dest, Available(src, srcIdx, n)), dest + n, Zeros(len - n))[k]
            == if dest <= k < dest + len then PaddedSlice(src, srcIdx, len)[k - dest] else m[k]
  {
    var copied := Overwrite(m, dest, Available(src, srcIdx, n));
    OverwrittenAt(m, dest, Available(src, srcIdx, n), k);
    OverwrittenAt(copied, dest + n, Zeros(len - n), k);
  }

  /** Copying the bytes there are and clearing the rest is writing the zero-padded slice. */
  lemma CopyThenClear(m: seq<Byte>, src: seq<Byte>, srcIdx: nat, dest: nat, len: nat, n: nat,
                      bytes: seq<Byte>, copied: seq<Byte>, clear: seq<Byte>, cleared: seq<Byte>)
    requires len > 0 && dest + len <= |m|
    requires n == if srcIdx >= |src| then 0 else if len > |src| - srcIdx then |src| - srcIdx else len
    requires bytes == Available(src, srcIdx, n) && copied == Overwrite(m, dest, bytes)
    requires clear == Zeros(len - n) && cleared == Overwrite(copied, dest + n, clear)
    ensures cleared == Overwrite(m, dest, PaddedSlice(src, srcIdx, len))
  {
    forall k | 0 <= k < |m|
      ensures cleared[k] == if dest <= k < dest + len then PaddedSlice(src, srcIdx, len)[k - dest] else m[k]
    {
      CopyThenClearAt(m, src, srcIdx, dest, len, n, k);
    }
    WrittenBytes(m, dest, PaddedSlice(src, srcIdx, len), cleared);
  }

  // ----- sequences of requests -----

  datatype Request = Request(off: Word, len: Word)

  datatype Account = Account(gas: nat, size: nat)

  /** One request on the 64-bit counters; None if it cannot be paid for. */
  function Serve(rev: Revision, a: Account, r: Request): Option<Account> {
    match Require(rev, a.size, r.off, r.len)
    case Poison => None
    case Growth(cost, size) => if cost <= a.gas then Some(Account(a.gas - cost, size)) else None
  }

  function ServeAll(rev: Revision, a: Account, rs: seq<Request>): Option<Account>
    decreases |rs|
  {
    if rs == [] then Some(a)
    else match Serve(rev, a, rs[0])
      case None => None
      case Some(a') => ServeAll(rev, a', rs[1..])
  }

  /** Words active after all requests. */
  function Covered(w: nat, rs: seq<Request>): (c: nat)
    ensures c >= w
    decreases |rs|
  {
    if rs == [] then w else Covered(ActiveWords(w, rs[0].off, rs[0].len), rs[1..])
  }

  predicate SafeAccount(rev: Revision, a: Account) {
    a.size % 32 == 0 && MemoryFee(rev, a.size / 32) + a.gas < GAS_BOUND
  }

  /** Going from fee f to fee f' succeeds exactly when the difference can be paid, and takes it. */
  predicate Settled(gas: nat, f: nat, f': nat, size: nat, r: Option<Account>) {
    && f <= f'
    && (r.Some? <==> f' - f <= gas)
    && (r.Some? ==> r.value == Account(gas - (f' - f), size))
  }

  lemma SettledTwice(gas: nat, f: nat, f': nat, f'': nat, size: nat, size': nat,
                     r: Option<Account>, r': Option<Account>)
    requires Settled(gas, f, f', size, r) && f' <= f''
    requires if r.Some? then Settled(r.value.gas, f', f'', size', r') else r'.None?
    ensures Settled(gas, f, f'', size', r')
  {
  }

  /** One request costs the difference between the fees for the words before and after. */
  lemma ServeCorrect(rev: Revision, a: Account, r: Request)
    requires SafeAccount(rev, a)
    ensures
      var w, w' := a.size / 32, ActiveWords(a.size / 32, r.off, r.len);
      Settled(a.gas, MemoryFee(rev, w), MemoryFee(rev, w'), 32 * w', Serve(rev, a, r))
  {
    var memory := Zeros(a.size);
    RequireCorrect(rev, a.gas, memory, r.off, r.len);
    FeeMonotone(rev, a.size / 32, ActiveWords(a.size / 32, r.off, r.len));
  }

  /**
   Gas telescopes: a sequence of requests is served exactly when the fee for the final
   number of words can be paid, and then that fee, less what was paid before, is all that
   is charged. Memory ends at exactly that many words.
   */
  lemma {:induction false} Telescopes(rev: Revision, a: Account, rs: seq<Request>)
    requires SafeAccount(rev, a)
    ensures
      var w, c := a.size / 32, Covered(a.size / 32, rs);
      Settled(a.gas, MemoryFee(rev, w), MemoryFee(rev, c), 32 * c, ServeAll(rev, a, rs))
    decreases |rs|
  {
    var w := a.size / 32;
    if rs == [] {
      assert a.size == 32 * w;
    } else {
      var w' := ActiveWords(w, rs[0].off, rs[0].len);
      var r := Serve(rev, a, rs[0]);
      var c := Covered(w', rs[1..]);
      ServeCorrect(rev, a, rs[0]);
      FeeMonotone(rev, w', c);
      if r.Some? {
        assert r.value.size / 32 == w';
        Telescopes(rev, r.value, rs[1..]);
      }
      SettledTwice(a.gas, MemoryFee(rev, w), MemoryFee(rev, w'), MemoryFee(rev, c), 32 * w', 32 * c,
                   r, ServeAll(rev, a, rs));
    }
  }

  function Needed(r: Request): nat {
    ActiveWords(0, r.off, r.len)
  }

  /** The words covered are the least number that is enough for all requests. */
  lemma {:induction false} CoveredIsLeast(w: nat, rs: seq<Request>)
    ensures forall r :: r in rs ==> Needed(r) <= Covered(w, rs)
    ensures Covered(w, rs) == w || exists r :: r in rs && Needed(r) == Covered(w, rs)
    decreases |rs|
  {
    if rs != [] {
      var w' := ActiveWords(w, rs[0].off, rs[0].len);
      CoveredIsLeast(w', rs[1..]);
      assert w' == w || w' == Needed(rs[0]);
      assert Needed(rs[0]) <= w';
      if Covered(w', rs[1..]) == w' {
        assert rs[0] in rs;
      } else {
        var r :| r in rs[1..] && Needed(r) == Covered(w', rs[1..]);
        assert r in rs;
      }
    }
  }

  lemma CoveredAtMost(w: nat, rs: seq<Request>, rs': seq<Request>)
    requires forall r :: r in rs ==> r in rs'
    ensures Covered(w, rs) <= Covered(w, rs')
  {
    CoveredIsLeast(w, rs);
    CoveredIsLeast(w, rs');
    if Covered(w, rs) != w {
      var r :| r in rs && Needed(r) == Covered(w, rs);
      assert r in rs';
    }
  }

  /** Neither order nor repetition of requests matters to success, charge or final size. */
  lemma OrderIrrelevant(rev: Revision, a: Account, rs: seq<Request>, rs': seq<Request>)
    requires SafeAccount(rev, a)
    requires forall r :: r in rs <==> r in rs'
    ensures ServeAll(rev, a, rs) == ServeAll(rev, a, rs')
  {
    CoveredAtMost(a.size / 32, rs, rs');
    CoveredAtMost(a.size / 32, rs', rs);
    Telescopes(rev, a, rs);
    Telescopes(rev, a, rs');
  }

  // ----- staying in bounds -----

  /**
   A request that is served leaves its range within memory if and only if the range was
   within it or within the size requested; as long as the counter is below its maximum,
   if and only if it was or neither argument was clamped.
   */
  lemma ServedInBounds(rev: Revision, a: Account, r: Request)
    requires r.len > 0
    ensures Serve(rev, a, r).Some? ==>
      (r.off + r.len <= Serve(rev, a, r).value.size
       <==> r.off + r.len <= a.size || r.off + r.len <= Requested(r.off, r.len))
    ensures Serve(rev, a, r).Some? && a.gas < GAS_MAX ==>
      (r.off + r.len <= Serve(rev, a, r).value.size
       <==> r.off + r.len <= a.size || (r.off <= INPUT_MAX && r.len <= INPUT_MAX))
  {
  }

  /**
   Without a bound on gas a clamped request can be served and leave its range outside
   memory: starting from empty memory, with gas for 2^33 + 32 bytes.
   */
  lemma ClampedRequestOutside(rev: Revision)
    ensures
      var r := Request(2 * INPUT_MAX, 1);
      var a := Account(0, INPUT_MAX + 32);
      && ServeAll(rev, Account(PriceOf(rev, 0x1000_0001), 0), [Request(INPUT_MAX, 32), r]) == Some(a)
      && PriceOf(rev, 0x1000_0001) <= GAS_MAX && r.off + r.len > a.size
  {
    var a0, a := Account(PriceOf(rev, 0x1000_0001), 0), Account(0, INPUT_MAX + 32);
    var q, r := Request(INPUT_MAX, 32), Request(2 * INPUT_MAX, 1);
    assert Requested(INPUT_MAX, 32) == INPUT_MAX + 32;
    SmallPrice(rev, 0x1000_0001);
    SmallPrice(rev, 0);
    assert Serve(rev, a0, q) == Some(a);
    assert Requested(2 * INPUT_MAX, 1) == INPUT_MAX + 32;
    assert Serve(rev, a, r) == Some(a);
    assert [q, r][1..] == [r] && [r][1..] == [];
    assert ServeAll(rev, a, [r]) == ServeAll(rev, a, []);
  }

  lemma NeededCovers(r: Request, c: nat)
    requires Needed(r) <= c
    ensures r.len > 0 ==> r.off + r.len <= 32 * c
  {
  }

  lemma SmallWords(rev: Revision, c: nat)
    requires MemoryFee(rev, c) < GAS_BOUND
    ensures 32 * c < TWO_64
  {
    if c >= 0x1000_0000 {
      LargeMemoryIsExpensive(rev, c);
      assert false;
    }
  }

  /** Within the bound every request served, of any 128-bit arguments, is within memory. */
  lemma AllServedInBounds(rev: Revision, a: Account, rs: seq<Request>, k: nat)
    requires SafeAccount(rev, a) && k < |rs| && ServeAll(rev, a, rs[..k + 1]).Some?
    ensures
      var a' := ServeAll(rev, a, rs[..k + 1]).value;
      && SafeAccount(rev, a')
      && (rs[k].len > 0 ==> rs[k].off + rs[k].len <= a'.size < TWO_64)
  {
    var done := rs[..k + 1];
    var c := Covered(a.size / 32, done);
    Telescopes(rev, a, done);
    CoveredIsLeast(a.size / 32, done);
    assert done[k] in done;
    NeededCovers(rs[k], c);
    var a' := ServeAll(rev, a, done).value;
    assert a' == Account(a'.gas, 32 * c) && a'.size / 32 == c;
    SmallWords(rev, c);
  }

  // ----- words in memory -----

  /** A stored word is read back. */
  lemma StoreThenLoad(m: seq<Byte>, off: nat, w: Word)
    requires off + 16 <= |m|
    ensures ReadWord(Overwrite(m, off, BigEndian(16, w)), off) == w
  {
    assert Overwrite(m, off, BigEndian(16, w))[off..off + 16] == BigEndian(16, w);
    Pow256IsPow2(16);
    Pow2At128();
    BigEndianRoundTrip(16, w);
  }

  /** Storing a word does not change words that do not overlap it. */
  lemma StoreElsewhere(m: seq<Byte>, off: nat, w: Word, other: nat)
    requires off + 16 <= |m| && other + 16 <= |m| && (other + 16 <= off || off + 16 <= other)
    ensures ReadWord(Overwrite(m, off, BigEndian(16, w)), other) == ReadWord(m, other)
  {
    var m' := Overwrite(m, off, BigEndian(16, w));
    forall k | other <= k < other + 16
      ensures m'[k] == m[k]
    {
      OverwrittenAt(m, off, BigEndian(16, w), k);
    }
    assert m'[other..other + 16] == m[other..other + 16];
  }

  /** CALLDATALOAD reads what copying the call data to memory and loading it would. */
  lemma DataLoadIsCopyThenLoad(m: seq<Byte>, data: seq<Byte>, idx: nat, off: nat)
    ensures
      var grown := Expand(m, off, 16);
      Ir.LoadData(data, idx) == ReadWord(Overwrite(grown, off, PaddedSlice(data, idx, 16)), off)
  {
    var grown := Expand(m, off, 16);
    var slice := PaddedSlice(data, idx, 16);
    assert Overwrite(grown, off, slice)[off..off + 16] == slice;
    var i := if idx < |data| then idx else |data|;
    var end := if i + 16 <= |data| then i + 16 else |data|;
    assert (data[i..end] + Zeros(16 - (end - i)))[0..16] == slice;
  }
}
