/**
 Layout of assembled code: the bytes of each item, where items end up, what a
 disassembler reads back, and which positions are jump destinations.
 */
module Layout {
  import opened Words
  import opened Evm
  import E = Evm
  import opened Items
  import opened Positions

  // ----- code in chunks -----

  function Flat(chunks: seq<seq<Byte>>): seq<Byte> {
    if chunks == [] then [] else chunks[0] + Flat(chunks[1..])
  }

  /** Where chunk k starts. */
  function Offset(chunks: seq<seq<Byte>>, k: nat): nat
    requires k <= |chunks|
  {
    |Flat(chunks[..k])|
  }

  lemma {:induction false} FlatConcat(a: seq<seq<Byte>>, b: seq<seq<Byte>>)
    ensures Flat(a + b) == Flat(a) + Flat(b)
    decreases |a|
  {
    if a == [] {
      assert a + b == b;
    } else {
      assert (a + b)[1..] == a[1..] + b;
      FlatConcat(a[1..], b);
    }
  }

  lemma {:induction false} FlatSingle(c: seq<Byte>)
    ensures Flat([c]) == c
  {
    assert [c][1..] == [];
  }

  /** The code before, of and after chunk k. */
  lemma {:induction false} FlatAround(chunks: seq<seq<Byte>>, k: nat)
    requires k < |chunks|
    ensures Flat(chunks) == Flat(chunks[..k]) + chunks[k] + Flat(chunks[k + 1..])
    ensures Offset(chunks, k + 1) == Offset(chunks, k) + |chunks[k]|
  {
    assert chunks[..k + 1] == chunks[..k] + [chunks[k]];
    assert chunks == chunks[..k + 1] + chunks[k + 1..];
    FlatConcat(chunks[..k], [chunks[k]]);
    FlatConcat(chunks[..k + 1], chunks[k + 1..]);
    FlatSingle(chunks[k]);
  }

  lemma {:induction false} FlatWhole(chunks: seq<seq<Byte>>)
    ensures Offset(chunks, |chunks|) == |Flat(chunks)|
  {
    assert chunks[..|chunks|] == chunks;
  }

  lemma {:induction false} OffsetsGrow(chunks: seq<seq<Byte>>, k: nat, m: nat)
    requires k <= m <= |chunks|
    ensures Offset(chunks, k) <= Offset(chunks, m) <= |Flat(chunks)|
  {
    assert chunks[..m] == chunks[..k] + chunks[k..m];
    FlatConcat(chunks[..k], chunks[k..m]);
    assert chunks == chunks[..m] + chunks[m..];
    FlatConcat(chunks[..m], chunks[m..]);
  }

  /** Replacing a chunk by one of the same length is overwriting its bytes. */
  lemma {:induction false} FlatUpdate(chunks: seq<seq<Byte>>, k: nat, c: seq<Byte>)
    requires k < |chunks| && |c| == |chunks[k]|
    ensures Flat(chunks[k := c]) == Flat(chunks[..k]) + c + Flat(chunks[k + 1..])
    ensures forall m :: 0 <= m <= |chunks| ==> Offset(chunks[k := c], m) == Offset(chunks, m)
  {
    var updated := chunks[k := c];
    FlatAround(updated, k);
    assert updated[..k] == chunks[..k] && updated[k + 1..] == chunks[k + 1..];
    forall m | 0 <= m <= |chunks| ensures Offset(updated, m) == Offset(chunks, m) {
      SameLengths(updated[..m], chunks[..m]);
    }
  }

  lemma {:induction false} SameLengths(a: seq<seq<Byte>>, b: seq<seq<Byte>>)
    requires |a| == |b| && forall k :: 0 <= k < |a| ==> |a[k]| == |b[k]|
    ensures |Flat(a)| == |Flat(b)|
    decreases |a|
  {
    if a != [] {
      SameLengths(a[1..], b[1..]);
    }
  }

  // ----- items as bytes -----

  /** Operand bytes of an item, if tags take b bytes and other references d bytes. */
  function Width(item: Item, b: nat, d: nat): nat {
    match item
    case Operation(_) | Tag(_) => 0
    case Push(data) => if SignificantBytes(data) > 1 then SignificantBytes(data) else 1
    case PushString(_) => 16
    case PushTag(_) => b
    case _ => d
  }

  /** Operands fit a push instruction, and operations are not pushes themselves. */
  predicate Encodable(item: Item, b: nat, d: nat) {
    Width(item, b, d) <= 32 && (item.Operation? ==> !(PUSH1 <= item.op <= PUSH32))
    && (item.PushTag? ==> b > 0) && (item.PushData? || item.PushProgramSize? ==> d > 0)
    && !item.PushSub? && !item.PushSubSize? && !item.PushLibraryAddress?
  }

  function Opcode(item: Item, b: nat, d: nat): Byte
    requires Encodable(item, b, d)
  {
    match item
    case Operation(op) => op
    case Tag(_) => JUMPDEST
    case _ => PUSH1 - 1 + Width(item, b, d)
  }

  /** The first 16 characters of a string, padded with zeros. */
  function StringBytes(s: seq<Byte>): (bs: seq<Byte>)
    ensures |bs| == 16 && forall i :: 0 <= i < 16 ==> bs[i] == if i < |s| then s[i] else 0
  {
    if |s| >= 16 then s[..16] else s + Zeros(16 - |s|)
  }

  /** The operand; `v` is the value of a reference. */
  function OperandBytes(item: Item, text: seq<Byte>, b: nat, d: nat, v: nat): (bs: seq<Byte>)
    ensures |bs| == Width(item, b, d)
  {
    match item
    case Push(data) => BigEndian(Width(item, b, d), data)
    case PushString(_) => StringBytes(text)
    case _ => BigEndian(Width(item, b, d), v)
  }

  function ItemCode(item: Item, text: seq<Byte>, b: nat, d: nat, v: nat): (bs: seq<Byte>)
    requires Encodable(item, b, d)
    ensures |bs| == 1 + Width(item, b, d)
  {
    [Opcode(item, b, d)] + OperandBytes(item, text, b, d, v)
  }

  // ----- reading code back -----

  datatype Decoded = Decoded(op: Byte, data: nat)

  function Additional(b: Byte): nat {
    if IsKnown(b) then InfoOf(b).additional else 0
  }

  lemma {:induction false} AdditionalIsPushBytes(b: Byte)
    ensures Additional(b) == PushBytes(b)
  {
  }

  /** Instructions from a position on, with their operands. */
  function Disassemble(mem: seq<Byte>, pc: nat): seq<Decoded>
    decreases |mem| - pc
  {
    if pc >= |mem| then []
    else [Decoded(mem[pc], E.PushData(mem, pc, Additional(mem[pc])))] + Disassemble(mem, pc + 1 + Additional(mem[pc]))
  }

  /** Accumulates an operand; bytes past the end read as zero. */
  method ReadOperand(mem: seq<Byte>, it: nat, additional: nat) returns (data: nat)
    ensures data == E.PushData(mem, it, additional)
  {
    data := 0;
    var i := 0;
    while i < additional
      invariant 0 <= i <= additional && data == E.PushData(mem, it, i)
    {
      data := data * 256 + (if it + 1 + i < |mem| then mem[it + 1 + i] else 0);
      i := i + 1;
    }
  }

  /** Reads instructions one after the other. */
  method EachInstruction(mem: seq<Byte>) returns (out: seq<Decoded>)
    ensures out == Disassemble(mem, 0)
  {
    out := [];
    var it := 0;
    while it < |mem|
      invariant it >= 0 && out + Disassemble(mem, it) == Disassemble(mem, 0)
      decreases |mem| - it
    {
      var additional := Additional(mem[it]);
      var data := ReadOperand(mem, it, additional);
      ReadOn(out, Decoded(mem[it], data), Disassemble(mem, it + 1 + additional));
      out := out + [Decoded(mem[it], data)];
      it := it + 1 + additional;
    }
  }

  lemma {:induction false} ReadOn(a: seq<Decoded>, x: Decoded, b: seq<Decoded>)
    ensures (a + [x]) + b == a + ([x] + b)
  {
  }

  /** What an item reads back as. */
  function Expected(item: Item, text: seq<Byte>, b: nat, d: nat, v: nat): Decoded
    requires Encodable(item, b, d)
  {
    Decoded(Opcode(item, b, d),
            if item.Push? then item.data
            else if item.PushString? then FromBigEndian(StringBytes(text))
            else v % Pow256(Width(item, b, d)))
  }

  lemma {:induction false} PushDataIsBigEndian(code: seq<Byte>, pc: nat, n: nat)
    requires pc + n < |code|
    ensures E.PushData(code, pc, n) == FromBigEndian(code[pc + 1..pc + 1 + n])
    decreases n
  {
    if n > 0 {
      PushDataIsBigEndian(code, pc, n - 1);
      assert code[pc + 1..pc + 1 + n][..n - 1] == code[pc + 1..pc + n];
    }
  }

  lemma {:induction false} SignificantBytesBound(v: nat)
    ensures v < Pow256(SignificantBytes(v))
  {
    if v > 0 {
      SignificantBytesBound(v / 256);
    }
  }

  lemma {:induction false} SignificantBytesAtMost(v: nat, n: nat)
    requires v < Pow256(n)
    ensures SignificantBytes(v) <= n
    decreases n
  {
    if v > 0 {
      SignificantBytesAtMost(v / 256, n - 1);
    }
  }

  /** An item found in code reads back as itself. */
  lemma {:induction false} ItemReadsBack(code: seq<Byte>, pc: nat, item: Item, text: seq<Byte>, b: nat, d: nat, v: nat)
    requires Encodable(item, b, d) && pc + 1 + Width(item, b, d) <= |code|
    requires code[pc..pc + 1 + Width(item, b, d)] == ItemCode(item, text, b, d, v)
    ensures Additional(code[pc]) == Width(item, b, d)
    ensures Decoded(code[pc], E.PushData(code, pc, Additional(code[pc]))) == Expected(item, text, b, d, v)
  {
    var n := Width(item, b, d);
    var bytes := ItemCode(item, text, b, d, v);
    assert code[pc] == code[pc..pc + 1 + n][0] == Opcode(item, b, d);
    assert code[pc + 1..pc + 1 + n] == code[pc..pc + 1 + n][1..] == OperandBytes(item, text, b, d, v);
    AdditionalIsPushBytes(code[pc]);
    PushDataIsBigEndian(code, pc, n);
    ValueReadsBack(item, text, b, d, v);
  }

  lemma {:induction false} ValueReadsBack(item: Item, text: seq<Byte>, b: nat, d: nat, v: nat)
    requires Encodable(item, b, d)
    ensures FromBigEndian(OperandBytes(item, text, b, d, v)) == Expected(item, text, b, d, v).data
  {
    if item.Push? {
      var n := Width(item, b, d);
      BigEndianRoundTrip(n, item.data);
      SignificantBytesBound(item.data);
      if item.data == 0 {
        assert Pow256(1) == 256;
      }
      DivModUnique(item.data, 0, Pow256(n), item.data);
    } else if !item.PushString? {
      BigEndianRoundTrip(Width(item, b, d), v);
    }
  }

  // ----- a whole program -----

  /** Items with the texts of their strings and the values of their references. */
  datatype Program = Program(items: seq<Item>, texts: map<Wide, seq<Byte>>, b: nat, d: nat)

  predicate Valid(p: Program) {
    forall k :: 0 <= k < |p.items| ==> Encodable(p.items[k], p.b, p.d)
  }

  function TextOf(p: Program, item: Item): seq<Byte> {
    if item.PushString? && item.data in p.texts then p.texts[item.data] else []
  }

  function ChunkOf(p: Program, k: nat, v: nat): (c: seq<Byte>)
    requires Valid(p) && k < |p.items|
    ensures |c| == 1 + Width(p.items[k], p.b, p.d)
  {
    ItemCode(p.items[k], TextOf(p, p.items[k]), p.b, p.d, v)
  }

  function Chunks(p: Program, vals: seq<nat>): (c: seq<seq<Byte>>)
    requires Valid(p) && |vals| == |p.items|
    ensures |c| == |vals| && forall k :: 0 <= k < |c| ==> c[k] == ChunkOf(p, k, vals[k])
  {
    seq(|vals|, k requires 0 <= k < |vals| => ChunkOf(p, k, vals[k]))
  }

  function Code(p: Program, vals: seq<nat>): seq<Byte>
    requires Valid(p) && |vals| == |p.items|
  {
    Flat(Chunks(p, vals))
  }

  /** Where item k starts; this does not depend on the values of references. */
  function Start(p: Program, k: nat): nat
    requires Valid(p) && k <= |p.items|
  {
    Offset(Chunks(p, ZeroValues(|p.items|)), k)
  }

  function ZeroValues(n: nat): (vals: seq<nat>)
    ensures |vals| == n && forall k :: 0 <= k < n ==> vals[k] == 0
  {
    seq(n, _ => 0)
  }

  lemma {:induction false} StartsAgree(p: Program, vals: seq<nat>, k: nat)
    requires Valid(p) && |vals| == |p.items| && k <= |p.items|
    ensures Offset(Chunks(p, vals), k) == Start(p, k) <= |Code(p, vals)|
  {
    SameLengths(Chunks(p, vals)[..k], Chunks(p, ZeroValues(|p.items|))[..k]);
    OffsetsGrow(Chunks(p, vals), k, |vals|);
    FlatWhole(Chunks(p, vals));
  }

  /** Item k, found in the code. */
  lemma {:induction false} ChunkFound(p: Program, vals: seq<nat>, code: seq<Byte>, tail: seq<Byte>, k: nat)
    requires Valid(p) && |vals| == |p.items| && k < |p.items| && code == Code(p, vals) + tail
    ensures Start(p, k + 1) == Start(p, k) + 1 + Width(p.items[k], p.b, p.d) <= |Code(p, vals)|
    ensures code[Start(p, k)..Start(p, k) + 1 + Width(p.items[k], p.b, p.d)] == ChunkOf(p, k, vals[k])
  {
    var chunks := Chunks(p, vals);
    FlatAround(chunks, k);
    StartsAgree(p, vals, k);
    StartsAgree(p, vals, k + 1);
    SliceOut(Flat(chunks[..k]), chunks[k], Flat(chunks[k + 1..]), tail, code);
  }

  lemma {:induction false} SliceOut(a: seq<Byte>, c: seq<Byte>, rest: seq<Byte>, tail: seq<Byte>, code: seq<Byte>)
    requires code == (a + c + rest) + tail
    ensures code[|a|..|a| + |c|] == c
  {
  }

  function Reading(p: Program, vals: seq<nat>, k: nat): Decoded
    requires Valid(p) && |vals| == |p.items| && k < |p.items|
  {
    Expected(p.items[k], TextOf(p, p.items[k]), p.b, p.d, vals[k])
  }

  /** What items from k on read back as. */
  function Readings(p: Program, vals: seq<nat>, k: nat): seq<Decoded>
    requires Valid(p) && |vals| == |p.items| && k <= |p.items|
    decreases |p.items| - k
  {
    if k == |p.items| then []
    else [Reading(p, vals, k)] + Readings(p, vals, k + 1)
  }

  /** Disassembling from item k on gives the items back, then whatever follows the code. */
  lemma {:induction false} CodeReadsBack(p: Program, vals: seq<nat>, tail: seq<Byte>, k: nat)
    requires Valid(p) && |vals| == |p.items| && k <= |p.items|
    ensures
      var code := Code(p, vals) + tail;
      Disassemble(code, Start(p, k)) == Readings(p, vals, k) + Disassemble(code, Start(p, |p.items|))
    decreases |p.items| - k
  {
    var code := Code(p, vals) + tail;
    if k < |p.items| {
      ReadsOne(p, vals, code, tail, k);
      DisassembleStep(code, Start(p, k), Reading(p, vals, k), Start(p, k + 1));
      CodeReadsBack(p, vals, tail, k + 1);
      Regroup(Reading(p, vals, k), Readings(p, vals, k + 1), Disassemble(code, Start(p, |p.items|)));
    } else {
      NothingBefore(Disassemble(code, Start(p, k)));
    }
  }

  lemma {:induction false} ReadsOne(p: Program, vals: seq<nat>, code: seq<Byte>, tail: seq<Byte>, k: nat)
    requires Valid(p) && |vals| == |p.items| && k < |p.items| && code == Code(p, vals) + tail
    ensures Reads(code, Start(p, k), Reading(p, vals, k), Start(p, k + 1))
  {
    ChunkFound(p, vals, code, tail, k);
    ItemReadsBack(code, Start(p, k), p.items[k], TextOf(p, p.items[k]), p.b, p.d, vals[k]);
  }

  /** The instruction at pc, and where the next one starts. */
  predicate Reads(code: seq<Byte>, pc: nat, x: Decoded, next: nat) {
    && pc < |code| && x == Decoded(code[pc], E.PushData(code, pc, Additional(code[pc])))
    && next == pc + 1 + Additional(code[pc])
  }

  lemma {:induction false} DisassembleStep(code: seq<Byte>, pc: nat, x: Decoded, next: nat)
    requires Reads(code, pc, x, next)
    ensures Disassemble(code, pc) == [x] + Disassemble(code, next)
  {
  }

  lemma {:induction false} Regroup(x: Decoded, a: seq<Decoded>, b: seq<Decoded>)
    ensures [x] + (a + b) == ([x] + a) + b
  {
  }

  lemma {:induction false} NothingBefore(a: seq<Decoded>)
    ensures [] + a == a
  {
  }

  /** After an item the virtual machine goes on at the next one. */
  lemma {:induction false} NextItem(p: Program, vals: seq<nat>, code: seq<Byte>, tail: seq<Byte>, k: nat)
    requires Valid(p) && |vals| == |p.items| && k < |p.items| && code == Code(p, vals) + tail
    ensures Start(p, k) < |code| && Next(code, Start(p, k)) == Start(p, k + 1)
  {
    var item := p.items[k];
    ChunkFound(p, vals, code, tail, k);
    ItemReadsBack(code, Start(p, k), item, TextOf(p, item), p.b, p.d, vals[k]);
    AdditionalIsPushBytes(code[Start(p, k)]);
  }

  lemma {:induction false} FirstStart(p: Program)
    requires Valid(p)
    ensures Start(p, 0) == 0
  {
    assert Chunks(p, ZeroValues(|p.items|))[..0] == [];
  }

  /** Every item starts where the virtual machine sees an instruction. */
  lemma {:induction false} ItemsAreInstructions(p: Program, vals: seq<nat>, code: seq<Byte>, tail: seq<Byte>, k: nat)
    requires Valid(p) && |vals| == |p.items| && k < |p.items| && code == Code(p, vals) + tail
    ensures Start(p, k) in Starts(code, 0)
    decreases k
  {
    NextItem(p, vals, code, tail, k);
    if k == 0 {
      FirstStart(p);
    } else {
      ItemsAreInstructions(p, vals, code, tail, k - 1);
      NextItem(p, vals, code, tail, k - 1);
      StartsClosed(code, 0, Start(p, k - 1));
    }
  }

  /** Every tag is a valid jump destination. */
  lemma {:induction false} TagsAreJumpDests(p: Program, vals: seq<nat>, tail: seq<Byte>, k: nat)
    requires Valid(p) && |vals| == |p.items| && k < |p.items| && p.items[k].Tag?
    ensures Start(p, k) in JumpDests(Code(p, vals) + tail, 0)
  {
    var code := Code(p, vals) + tail;
    ItemsAreInstructions(p, vals, code, tail, k);
    ChunkFound(p, vals, code, tail, k);
    assert code[Start(p, k)] == ChunkOf(p, k, vals[k])[0] == JUMPDEST;
    JumpDestsAreStarts(code, 0, Start(p, k));
  }

  /** Filling a reference in is overwriting its operand. */
  lemma {:induction false} PatchIsUpdate(p: Program, vals: seq<nat>, tail: seq<Byte>, k: nat, v: nat)
    requires Valid(p) && |vals| == |p.items| && k < |p.items|
    requires p.items[k].PushTag? || p.items[k].PushData? || p.items[k].PushProgramSize?
    ensures
      var n := Width(p.items[k], p.b, p.d);
      && Start(p, k) + 1 + n <= |Code(p, vals)| && n > 0
      && Code(p, vals[k := v]) + tail == Overwrite(Code(p, vals) + tail, Start(p, k) + 1, BigEndian(n, v))
  {
    UpdatedChunks(p, vals, k, v);
    StartsAgree(p, vals, k);
    ChunkPatched(Chunks(p, vals), k, ChunkOf(p, k, v), tail, BigEndian(Width(p.items[k], p.b, p.d), v));
  }

  lemma {:induction false} ChunkPatched(
      chunks: seq<seq<Byte>>, k: nat, c: seq<Byte>, tail: seq<Byte>, operand: seq<Byte>)
    requires k < |chunks| && |c| == |chunks[k]| == 1 + |operand| && operand != []
    requires c[0] == chunks[k][0] && c == [c[0]] + operand
    ensures Offset(chunks, k) + 1 + |operand| <= |Flat(chunks)|
    ensures Flat(chunks[k := c]) + tail == Overwrite(Flat(chunks) + tail, Offset(chunks, k) + 1, operand)
  {
    FlatUpdate(chunks, k, c);
    FlatAround(chunks, k);
    Splice(Flat(chunks[..k]), chunks[k], c, Flat(chunks[k + 1..]), tail, operand);
  }

  lemma {:induction false} UpdatedChunks(p: Program, vals: seq<nat>, k: nat, v: nat)
    requires Valid(p) && |vals| == |p.items| && k < |p.items|
    ensures Chunks(p, vals[k := v]) == Chunks(p, vals)[k := ChunkOf(p, k, v)]
  {
  }

  lemma {:induction false} Splice(
      a: seq<Byte>, c: seq<Byte>, c': seq<Byte>, rest: seq<Byte>, tail: seq<Byte>, operand: seq<Byte>)
    requires |c| == |c'| == 1 + |operand| && c[0] == c'[0] && c' == [c[0]] + operand && operand != []
    ensures (a + c' + rest) + tail == Overwrite((a + c + rest) + tail, |a| + 1, operand)
  {
    var m := (a + c + rest) + tail;
    assert m[..|a| + 1] == a + [c[0]];
    assert m[|a| + 1 + |operand|..] == rest + tail;
  }
}
