/**
 The assembler: sizes of tags and references, layout of items, and resolution of labels
 by patching the code in place. Sub-assemblies and library addresses are not modelled.
 */
module Assembler {
  import opened Words
  import opened Evm
  import opened Items
  import opened Layout
  import Programs
  import Scanner

  datatype DataItem = DataItem(key: Wide, bytes: seq<Byte>)

  /** Tags are numbered below usedTags; data is in the order of its keys. */
  datatype Assembly = Assembly(
    items: seq<Item>,
    usedTags: nat,
    strings: map<Wide, seq<Byte>>,
    data: seq<DataItem>,
    auxiliaryData: seq<Byte>)

  datatype Error =
    | ZeroTag | ForeignTag | TagTooLarge | MissingString
    | InvalidSubId | NonExistingTag | TagWithoutPosition | TooLargeForReservedSpace

  datatype Assembled = Ok(bytecode: seq<Byte>) | Failed(error: Error)

  // ----- big-endian loops -----

  /** Writes the low-order bytes of a value into a buffer of given size, last byte first. */
  method ToBigEndian(value: nat, size: nat) returns (out: seq<Byte>)
    ensures out == BigEndian(size, value)
  {
    out := [];
    var v := value;
    var i := size;
    while i != 0
      invariant 0 <= i <= size && v >= 0
      invariant BigEndian(i, v) + out == BigEndian(size, value)
      decreases i
    {
      out := [v % 256] + out;
      v := v / 256;
      i := i - 1;
    }
  }

  method FromBytes(bytes: seq<Byte>) returns (value: nat)
    ensures value == FromBigEndian(bytes)
  {
    value := 0;
    var i := 0;
    while i < |bytes|
      invariant 0 <= i <= |bytes| && value == FromBigEndian(bytes[..i])
    {
      assert bytes[..i + 1][..i] == bytes[..i];
      value := value * 256 + bytes[i];
      i := i + 1;
    }
    assert bytes[..|bytes|] == bytes;
  }

  method BytesOf(value: nat) returns (n: nat)
    ensures n == SignificantBytes(value)
  {
    n := 0;
    var v := value;
    while v != 0
      invariant v >= 0 && n + SignificantBytes(v) == SignificantBytes(value)
      decreases v
    {
      n, v := n + 1, v / 256;
    }
  }

  // ----- size of the code -----

  function DataBytes(data: seq<DataItem>): nat {
    if data == [] then 0 else DataBytes(data[..|data| - 1]) + |data[|data| - 1].bytes|
  }

  /** Upper bound on the size if tags take a given number of bytes. */
  function Total(asm: Assembly, tagSize: nat): nat {
    1 + DataBytes(asm.data) + ItemsBytes(asm.items, tagSize)
  }

  lemma {:induction false} ItemsGrow(items: seq<Item>, t: nat)
    ensures ItemsBytes(items, t) <= ItemsBytes(items, 0) + |items| * t
    decreases |items|
  {
    if items != [] {
      ItemsGrow(items[..|items| - 1], t);
      assert |items| * t == (|items| - 1) * t + t;
    }
  }

  lemma {:induction false} ItemsMonotone(items: seq<Item>, t: nat, t': nat)
    requires t <= t'
    ensures ItemsBytes(items, t) <= ItemsBytes(items, t')
    decreases |items|
  {
    if items != [] {
      ItemsMonotone(items[..|items| - 1], t, t');
    }
  }

  lemma {:induction false} SquareSmall(t: nat)
    requires t >= 1
    ensures t * t < Pow256(t)
  {
    if t == 1 {
      assert Pow256(1) == 256 * Pow256(0);
    } else {
      SquareSmall(t - 1);
      assert t * t == (t - 1) * (t - 1) + 2 * t - 1;
      assert 2 * t - 1 <= 2 * ((t - 1) * (t - 1)) + 1;
    }
  }

  /** A tag size from which on the size fits. */
  function Enough(asm: Assembly): nat {
    Total(asm, 0) + |asm.items|
  }

  lemma {:induction false} EnoughFits(asm: Assembly)
    ensures SignificantBytes(Total(asm, Enough(asm))) <= Enough(asm)
  {
    var t := Enough(asm);
    ItemsGrow(asm.items, t);
    LinearBelowSquare(Total(asm, 0), |asm.items|);
    SquareSmall(t);
    SignificantBytesAtMost(Total(asm, t), t);
  }

  lemma {:induction false} LinearBelowSquare(a: nat, n: nat)
    requires a >= 1
    ensures a + n * (a + n) <= (a + n) * (a + n)
  {
    var t := a + n;
    MulMonotone(1, t, a);
    assert t * t == t * a + t * n;
    assert t * n == n * t;
  }

  /** The smallest tag size that is enough for code with tags of that size. */
  predicate IsTagSize(asm: Assembly, t: nat) {
    && t >= 1 && SignificantBytes(Total(asm, t)) <= t
    && forall t' :: 1 <= t' < t ==> SignificantBytes(Total(asm, t')) > t'
  }

  method BytesRequired(asm: Assembly) returns (ret: nat)
    ensures IsTagSize(asm, SignificantBytes(ret)) && ret == Total(asm, SignificantBytes(ret))
  {
    EnoughFits(asm);
    var t := 1;
    while true
      invariant 1 <= t <= Enough(asm)
      invariant forall t' :: 1 <= t' < t ==> SignificantBytes(Total(asm, t')) > t'
      decreases Enough(asm) - t
    {
      ret := 1;
      var i := 0;
      while i < |asm.data|
        invariant 0 <= i <= |asm.data| && ret == 1 + DataBytes(asm.data[..i])
      {
        assert asm.data[..i + 1][..i] == asm.data[..i];
        ret := ret + |asm.data[i].bytes|;
        i := i + 1;
      }
      assert asm.data[..|asm.data|] == asm.data;
      i := 0;
      while i < |asm.items|
        invariant 0 <= i <= |asm.items| && ret == 1 + DataBytes(asm.data) + ItemsBytes(asm.items[..i], t)
      {
        assert asm.items[..i + 1][..i] == asm.items[..i];
        ret := ret + ItemBytes(asm.items[i], t);
        i := i + 1;
      }
      assert asm.items[..|asm.items|] == asm.items;
      var n := BytesOf(ret);
      if n <= t {
        ReservedIsTagSize(asm, t);
        return;
      }
      t := t + 1;
    }
  }

  /** The bytes reserved for a tag are exactly the tag size found. */
  lemma {:induction false} ReservedIsTagSize(asm: Assembly, t: nat)
    requires IsTagSize(asm, t)
    ensures SignificantBytes(Total(asm, t)) == t
  {
    if t > 1 {
      assert SignificantBytes(Total(asm, t - 1)) > t - 1;
      ItemsMonotone(asm.items, t - 1, t);
      SignificantBytesBound(Total(asm, t));
      if SignificantBytes(Total(asm, t)) < t {
        Pow256Monotone(SignificantBytes(Total(asm, t)), t - 1);
        SignificantBytesAtMost(Total(asm, t - 1), t - 1);
        assert false;
      }
    }
  }

  // ----- what assembling has to achieve -----

  const TWO_32 := 0x1_0000_0000

  /**
   No sub-assemblies or libraries, tags within the range in use, distinct data keys, and
   sizes within 32 bits.
   */
  predicate WellFormed(asm: Assembly) {
    && 0 < asm.usedTags <= TWO_64
    && (forall k :: 0 <= k < |asm.items| ==> IsPlain(asm.items[k], asm.usedTags))
    && (forall i, j :: 0 <= i < j < |asm.data| ==> asm.data[i].key != asm.data[j].key)
    && Total(asm, 4) + 1 + |asm.auxiliaryData| < TWO_32
  }

  predicate IsPlain(item: Item, usedTags: nat) {
    && !item.PushSub? && !item.PushSubSize? && !item.PushLibraryAddress?
    && (item.Operation? ==> !(PUSH1 <= item.op <= PUSH32))
    && (item.Tag? && item.tag < TWO_64 ==> item.tag < usedTags)
  }

  predicate TagIn(items: seq<Item>, t: nat) {
    exists j :: 0 <= j < |items| && items[j] == Tag(t)
  }

  /** Everything referred to is there. */
  predicate Resolvable(asm: Assembly) {
    forall k :: 0 <= k < |asm.items| ==> ResolvableItem(asm, asm.items[k])
  }

  predicate ResolvableItem(asm: Assembly, item: Item) {
    && (item.Tag? ==> 0 < item.tag < TWO_64)
    && (item.PushString? ==> item.data in asm.strings)
    && (item.PushTag? ==> item.tag < asm.usedTags && (item.tag == 0 || TagIn(asm.items, item.tag)))
  }

  predicate HasReferences(asm: Assembly) {
    exists k :: 0 <= k < |asm.items| && (asm.items[k].PushData? || asm.items[k].PushProgramSize?)
  }

  /** Bytes reserved for a reference to data or to the size. */
  function ReservedForData(asm: Assembly, tagSize: nat): nat {
    SignificantBytes(Total(asm, tagSize) + 1 + |asm.auxiliaryData|)
  }

  /** A tag stands for itself, and tag 0 for anything else. */
  predicate Gives(item: Item, t: nat) {
    if t == 0 then !item.Tag? else item == Tag(t)
  }

  /** Item j is the one that gives tag t its position: the last such tag, for tag 0 the first item that is none. */
  predicate Defines(items: seq<Item>, t: nat, j: nat) {
    && j < |items| && Gives(items[j], t)
    && (t == 0 ==> forall i :: 0 <= i < j ==> !Gives(items[i], t))
    && (t != 0 ==> forall i :: j < i < |items| ==> !Gives(items[i], t))
  }

  /** A reference to a tag fits, and has the position of that tag as its value. */
  ghost predicate TagLinked(p: Program, i: nat, v: nat)
    requires Layout.Valid(p) && i < |p.items|
  {
    p.items[i].PushTag? ==>
      v < Pow256(p.b) && exists j :: Defines(p.items, p.items[i].tag, j) && v == Start(p, j)
  }

  /** Equal items have equal values. */
  ghost predicate Uniform(items: seq<Item>, vals: seq<nat>)
    requires |vals| == |items|
  {
    forall i, j :: 0 <= i < |items| && 0 <= j < |items| && items[i] == items[j] ==> vals[i] == vals[j]
  }

  /** A reference to data has the position of that data as its value. */
  predicate DataLinked(item: Item, v: nat, d: DataItem, position: nat, bytecode: seq<Byte>) {
    item == PushData(d.key) ==>
      v == position && v + |d.bytes| <= |bytecode| && bytecode[v..v + |d.bytes|] == d.bytes
  }

  /** Bytes of the first m pieces of data, as far as they are referred to. */
  function ReferencedBytes(asm: Assembly, m: nat): nat
    requires m <= |asm.data|
  {
    if m == 0 then 0
    else
      var d := asm.data[m - 1];
      ReferencedBytes(asm, m - 1) + if PushData(d.key) in asm.items then |d.bytes| else 0
  }

  /** Data that is referred to among the first m pieces. */
  function ReferencedData(asm: Assembly, m: nat): seq<Byte>
    requires m <= |asm.data|
  {
    if m == 0 then []
    else
      var d := asm.data[m - 1];
      ReferencedData(asm, m - 1) + if PushData(d.key) in asm.items then d.bytes else []
  }

  /** Whether a STOP separates code and data. */
  function Separator(asm: Assembly): nat {
    if asm.data == [] && asm.auxiliaryData == [] then 0 else 1
  }

  function DataPosition(asm: Assembly, p: Program, m: nat): nat
    requires Layout.Valid(p) && m <= |asm.data|
  {
    Start(p, |p.items|) + (Separator(asm) + ReferencedBytes(asm, m))
  }

  function FinalSize(asm: Assembly, p: Program): nat
    requires Layout.Valid(p)
  {
    DataPosition(asm, p, |asm.data|) + |asm.auxiliaryData|
  }

  predicate PointsToData(asm: Assembly, p: Program, vals: seq<nat>, bytecode: seq<Byte>, i: nat, m: nat)
    requires Layout.Valid(p) && i < |vals| == |asm.items| && m < |asm.data|
  {
    DataLinked(asm.items[i], vals[i], asm.data[m], DataPosition(asm, p, m), bytecode)
  }

  /** A reference to data that is not among the first m pieces. */
  predicate Dangling(asm: Assembly, item: Item, m: nat)
    requires m <= |asm.data|
  {
    item.PushData? && forall k :: 0 <= k < m ==> asm.data[k].key != item.data
  }

  /**
   The code, a STOP before anything that follows, all data that is referred to in the order of
   its keys, and the auxiliary data; with every reference holding what it refers to.
   */
  ghost predicate IsLinked(asm: Assembly, p: Program, vals: seq<nat>, bytecode: seq<Byte>)
    requires Layout.Valid(p) && p.items == asm.items && |vals| == |asm.items|
  {
    && Code(p, vals) <= bytecode && |bytecode| == FinalSize(asm, p)
    && bytecode[|Code(p, vals)|..] == Zeros(Separator(asm)) + ReferencedData(asm, |asm.data|) + asm.auxiliaryData
    && |asm.auxiliaryData| <= |bytecode| && bytecode[|bytecode| - |asm.auxiliaryData|..] == asm.auxiliaryData
    && Uniform(asm.items, vals)
    && (forall j :: 0 <= j < |asm.items| && asm.items[j].Tag? ==> Start(p, j) < TWO_32 - 1)
    && (forall i :: 0 <= i < |vals| ==> TagLinked(p, i, vals[i]))
    && (forall i, m :: 0 <= i < |vals| && 0 <= m < |asm.data| ==> PointsToData(asm, p, vals, bytecode, i, m))
    && (forall i :: 0 <= i < |vals| && Dangling(asm, asm.items[i], |asm.data|) ==> vals[i] == 0)
    && (forall i :: 0 <= i < |vals| && asm.items[i].PushProgramSize? ==> vals[i] == |bytecode|)
  }

  // ----- first pass: items in order -----

  /** A place in the code to be filled in, and what with: a tag or a data key. */
  datatype Ref = Ref(offset: nat, what: nat)

  predicate IsRef(p: Program, r: Ref, i: nat)
    requires Layout.Valid(p)
  {
    && i < |p.items| && r.offset == Start(p, i) + 1
    && (|| p.items[i] == PushTag(r.what)
        || (p.items[i].PushData? && p.items[i].data == r.what)
        || p.items[i].PushProgramSize?)
  }

  datatype Sort = Tags | Data | Sizes

  predicate HasSort(item: Item, sort: Sort) {
    match sort
    case Tags => item.PushTag?
    case Data => item.PushData?
    case Sizes => item.PushProgramSize?
  }

  /** `refs` lists the items of one sort among the first k; `at` says which. */
  ghost predicate Lists(p: Program, k: nat, sort: Sort, refs: seq<Ref>, at: seq<nat>)
    requires Layout.Valid(p) && k <= |p.items|
  {
    && |refs| == |at| && (forall i, j :: 0 <= i < j < |at| ==> at[i] < at[j])
    && (forall j :: 0 <= j < |at| ==> at[j] < k && IsRef(p, refs[j], at[j]) && HasSort(p.items[at[j]], sort))
    && (forall i :: 0 <= i < k && HasSort(p.items[i], sort) ==> i in at)
  }

  lemma {:induction false} ListsSkip(p: Program, k: nat, sort: Sort, refs: seq<Ref>, at: seq<nat>)
    requires Layout.Valid(p) && k < |p.items| && Lists(p, k, sort, refs, at) && !HasSort(p.items[k], sort)
    ensures Lists(p, k + 1, sort, refs, at)
  {
  }

  lemma {:induction false} ListsAdd(p: Program, k: nat, sort: Sort, refs: seq<Ref>, at: seq<nat>, r: Ref)
    requires Layout.Valid(p) && k < |p.items| && Lists(p, k, sort, refs, at)
    requires HasSort(p.items[k], sort) && IsRef(p, r, k)
    ensures Lists(p, k + 1, sort, refs + [r], at + [k])
  {
    var refs', at' := refs + [r], at + [k];
    assert at'[|at|] == k;
    forall i | 0 <= i < k + 1 && HasSort(p.items[i], sort) ensures i in at' {
      if i < k {
        assert i in at;
      }
    }
  }

  /** The position tag t has after the first k items. */
  ghost predicate PositionIs(p: Program, k: nat, t: nat, position: Option<nat>)
    requires Layout.Valid(p) && k <= |p.items|
  {
    match position
    case None => forall j :: 0 <= j < k ==> !Gives(p.items[j], t)
    case Some(n) => exists j :: Defines(p.items[..k], t, j) && n == Start(p, j)
  }

  ghost predicate Positioned(p: Program, k: nat, positions: seq<Option<nat>>)
    requires Layout.Valid(p) && k <= |p.items|
  {
    forall t :: 0 <= t < |positions| ==> PositionIs(p, k, t, positions[t])
  }

  /** What the first pass leaves behind. */
  datatype Draft = Draft(
    bytecode: seq<Byte>,
    positions: seq<Option<nat>>,
    tagRef: seq<Ref>,
    dataRef: seq<Ref>,
    sizeRef: seq<Ref>)

  /** Indices of the items the references of a draft belong to. */
  datatype Origins = Origins(tags: seq<nat>, data: seq<nat>, sizes: seq<nat>)

  ghost predicate IsDraft(asm: Assembly, p: Program, k: nat, draft: Draft, o: Origins)
    requires Layout.Valid(p) && k <= |p.items|
  {
    && draft.bytecode == Flat(Chunks(p, ZeroValues(|p.items|))[..k])
    && |draft.positions| == asm.usedTags && Positioned(p, k, draft.positions)
    && Lists(p, k, Tags, draft.tagRef, o.tags)
    && Lists(p, k, Data, draft.dataRef, o.data)
    && Lists(p, k, Sizes, draft.sizeRef, o.sizes)
  }

  lemma {:induction false} PlaceTag(p: Program, k: nat, positions: seq<Option<nat>>)
    requires Layout.Valid(p) && k < |p.items| && Positioned(p, k, positions)
    requires p.items[k].Tag? && 0 < p.items[k].tag < |positions|
    ensures Positioned(p, k + 1, positions[p.items[k].tag := Some(Start(p, k))])
  {
    var positions' := positions[p.items[k].tag := Some(Start(p, k))];
    forall t | 0 <= t < |positions'| ensures PositionIs(p, k + 1, t, positions'[t]) {
      PositionAfter(p, k, t, positions[t]);
    }
  }

  lemma {:induction false} StartsOrdered(p: Program, k: nat)
    requires Layout.Valid(p) && k < |p.items|
    ensures Start(p, k) < Start(p, k + 1)
  {
    ChunkFound(p, ZeroValues(|p.items|), Code(p, ZeroValues(|p.items|)) + [], [], k);
  }

  /** An item gives its tag a new position, or tag 0 its first one. */
  lemma {:induction false} PositionAfter(p: Program, k: nat, t: nat, position: Option<nat>)
    requires Layout.Valid(p) && k < |p.items| && PositionIs(p, k, t, position)
    ensures
      PositionIs(p, k + 1, t,
                 if Gives(p.items[k], t) && (t == 0 ==> position.None?) then Some(Start(p, k)) else position)
  {
    var before, after := p.items[..k], p.items[..k + 1];
    assert forall j :: 0 <= j < k ==> before[j] == after[j] == p.items[j];
    assert after[k] == p.items[k];
    if Gives(p.items[k], t) && (t == 0 ==> position.None?) {
      assert Defines(after, t, k);
    } else if position.Some? {
      var j :| Defines(before, t, j) && position.value == Start(p, j);
      assert Defines(after, t, j);
    }
  }

  lemma {:induction false} PlaceOther(p: Program, k: nat, positions: seq<Option<nat>>)
    requires Layout.Valid(p) && k < |p.items| && |positions| > 0 && Positioned(p, k, positions) && !p.items[k].Tag?
    ensures
      Positioned(p, k + 1, if positions[0].None? then positions[0 := Some(Start(p, k))] else positions)
  {
    var positions' := if positions[0].None? then positions[0 := Some(Start(p, k))] else positions;
    forall t | 0 <= t < |positions'| ensures PositionIs(p, k + 1, t, positions'[t]) {
      PositionAfter(p, k, t, positions[t]);
    }
  }

  /** The chunk of item k with its reference still to be filled in. */
  lemma {:induction false} NextChunk(p: Program, k: nat)
    requires Layout.Valid(p) && k < |p.items|
    ensures
      var chunks := Chunks(p, ZeroValues(|p.items|));
      Flat(chunks[..k + 1]) == Flat(chunks[..k]) + ChunkOf(p, k, 0)
  {
    var chunks := Chunks(p, ZeroValues(|p.items|));
    assert chunks[..k + 1] == chunks[..k] + [chunks[k]];
    FlatConcat(chunks[..k], [chunks[k]]);
    FlatSingle(chunks[k]);
  }

  /** Emits one item, recording its position or reference. */
  method EmitItem(asm: Assembly, p: Program, k: nat, draft: Draft, ghost o: Origins)
      returns (r: Draft, ghost o': Origins)
    requires Layout.Valid(p) && k < |p.items| && p.items == asm.items && asm.usedTags > 0
    requires IsDraft(asm, p, k, draft, o) && (p.items[k].Tag? ==> 0 < p.items[k].tag < asm.usedTags)
    ensures IsDraft(asm, p, k + 1, r, o')
  {
    var item := p.items[k];
    var start := |draft.bytecode|;
    NextChunk(p, k);
    r := draft.(bytecode := draft.bytecode + ChunkOf(p, k, 0));
    o' := o;
    if item.Tag? {
      PlaceTag(p, k, draft.positions);
      r := r.(positions := draft.positions[item.tag := Some(start)]);
    } else {
      PlaceOther(p, k, draft.positions);
      if draft.positions[0].None? {
        r := r.(positions := draft.positions[0 := Some(start)]);
      }
    }
    if item.PushTag? {
      ListsAdd(p, k, Tags, draft.tagRef, o.tags, Ref(start + 1, item.tag));
      r, o' := r.(tagRef := draft.tagRef + [Ref(start + 1, item.tag)]), o.(tags := o.tags + [k]);
    } else {
      ListsSkip(p, k, Tags, draft.tagRef, o.tags);
    }
    if item.PushData? {
      ListsAdd(p, k, Data, draft.dataRef, o.data, Ref(start + 1, item.data));
      r, o' := r.(dataRef := draft.dataRef + [Ref(start + 1, item.data)]), o'.(data := o.data + [k]);
    } else {
      ListsSkip(p, k, Data, draft.dataRef, o.data);
    }
    if item.PushProgramSize? {
      ListsAdd(p, k, Sizes, draft.sizeRef, o.sizes, Ref(start + 1, 0));
      r, o' := r.(sizeRef := draft.sizeRef + [Ref(start + 1, 0)]), o'.(sizes := o.sizes + [k]);
    } else {
      ListsSkip(p, k, Sizes, draft.sizeRef, o.sizes);
    }
  }

  /** The error an item causes by itself, if any. */
  function ItemError(asm: Assembly, item: Item, position: nat): Option<Error> {
    if item.PushString? && item.data !in asm.strings then Some(MissingString)
    else if !item.Tag? then None
    else if item.tag == 0 then Some(ZeroTag)
    else if item.tag >= TWO_64 then Some(ForeignTag)
    else if position >= TWO_32 - 1 then Some(TagTooLarge)
    else None
  }

  /** Item k causes an error. */
  predicate ItemFault(asm: Assembly, p: Program, k: nat, e: Error)
    requires Layout.Valid(p)
  {
    k < |p.items| && ItemError(asm, p.items[k], Start(p, k)) == Some(e)
  }

  /** The error of the first item that causes one. */
  ghost predicate FirstItemFault(asm: Assembly, p: Program, e: Error)
    requires Layout.Valid(p)
  {
    exists k: nat :: ItemFault(asm, p, k, e)
                     && forall i :: 0 <= i < k ==> ItemError(asm, p.items[i], Start(p, i)).None?
  }

  lemma {:induction false} EmptyDraft(asm: Assembly, p: Program, draft: Draft)
    requires WellFormed(asm) && Layout.Valid(p) && p.items == asm.items
    requires draft == Draft([], seq(asm.usedTags, _ => None), [], [], [])
    ensures IsDraft(asm, p, 0, draft, Origins([], [], []))
  {
    assert Chunks(p, ZeroValues(|p.items|))[..0] == [];
  }

  lemma {:induction false} DraftLength(asm: Assembly, p: Program, k: nat, draft: Draft, o: Origins)
    requires Layout.Valid(p) && k <= |p.items| && IsDraft(asm, p, k, draft, o)
    ensures |draft.bytecode| == Start(p, k)
  {
  }

  method FirstPass(asm: Assembly, p: Program) returns (e: Option<Error>, draft: Draft, ghost o: Origins)
    requires WellFormed(asm) && Layout.Valid(p) && p.items == asm.items
    ensures e.None? ==> IsDraft(asm, p, |p.items|, draft, o)
    ensures e.None? ==> forall k :: 0 <= k < |p.items| ==> ItemError(asm, p.items[k], Start(p, k)).None?
    ensures e.Some? ==> FirstItemFault(asm, p, e.value)
  {
    draft := Draft([], seq(asm.usedTags, _ => None), [], [], []);
    o := Origins([], [], []);
    EmptyDraft(asm, p, draft);
    var k := 0;
    while k < |p.items|
      invariant 0 <= k <= |p.items| && IsDraft(asm, p, k, draft, o)
      invariant forall i :: 0 <= i < k ==> ItemError(asm, p.items[i], Start(p, i)).None?
    {
      DraftLength(asm, p, k, draft, o);
      e := ItemError(asm, p.items[k], |draft.bytecode|);
      assert e == ItemError(asm, p.items[k], Start(p, k));
      if e.Some? {
        assert ItemFault(asm, p, k, e.value);
        return;
      }
      draft, o := EmitItem(asm, p, k, draft, o);
      k := k + 1;
    }
    e := None;
  }

  // ----- references are filled in -----

  /** Overwrites the operand of the reference at item i. */
  method Patch(p: Program, bytecode: seq<Byte>, offset: nat, width: nat, v: nat, ghost i: nat, ghost vals: seq<nat>,
               ghost tail: seq<Byte>)
      returns (patched: seq<Byte>)
    requires Layout.Valid(p) && |vals| == |p.items| && i < |p.items| && bytecode == Code(p, vals) + tail
    requires p.items[i].PushTag? || p.items[i].PushData? || p.items[i].PushProgramSize?
    requires offset == Start(p, i) + 1 && width == Width(p.items[i], p.b, p.d)
    ensures patched == Code(p, vals[i := v]) + tail
  {
    PatchIsUpdate(p, vals, tail, i, v);
    var bytes := ToBigEndian(v, width);
    patched := bytecode[..offset] + bytes + bytecode[offset + width..];
  }

  /** The error a reference to a tag causes, if any. */
  function TagError(positions: seq<Option<nat>>, b: nat, t: nat): Option<Error> {
    if t >= TWO_64 then Some(InvalidSubId)
    else if t >= |positions| then Some(NonExistingTag)
    else if positions[t].None? then Some(TagWithoutPosition)
    else if SignificantBytes(positions[t].value) > b then Some(TooLargeForReservedSpace)
    else None
  }

  predicate TagFault(p: Program, positions: seq<Option<nat>>, i: nat, e: Error) {
    i < |p.items| && p.items[i].PushTag? && TagError(positions, p.b, p.items[i].tag) == Some(e)
  }

  /** The error of the first reference to a tag that causes one. */
  ghost predicate FirstTagFault(p: Program, positions: seq<Option<nat>>, e: Error) {
    exists i: nat :: TagFault(p, positions, i, e)
                     && forall k :: 0 <= k < i && p.items[k].PushTag? ==> TagError(positions, p.b, p.items[k].tag).None?
  }

  /** Faults of items come before those of references to tags. */
  ghost predicate IsFirstFault(asm: Assembly, p: Program, e: Error)
    requires Layout.Valid(p)
  {
    || FirstItemFault(asm, p, e)
    || (&& (forall k :: 0 <= k < |p.items| ==> ItemError(asm, p.items[k], Start(p, k)).None?)
        && exists positions :: && |positions| == asm.usedTags && Positioned(p, |p.items|, positions)
                               && FirstTagFault(p, positions, e))
  }

  /** Values of references of other sorts stay as they are. */
  ghost predicate OthersKept(p: Program, sort: Sort, vals: seq<nat>, vals': seq<nat>) {
    && |vals| == |vals'| == |p.items|
    && forall i :: 0 <= i < |vals| && !HasSort(p.items[i], sort) ==> vals'[i] == vals[i]
  }

  /** References listed so far have been given the position of their tag. */
  ghost predicate Resolved(p: Program, positions: seq<Option<nat>>, at: seq<nat>, n: nat, vals: seq<nat>)
    requires n <= |at| && |vals| == |p.items|
  {
    forall j :: 0 <= j < n ==>
      && at[j] < |p.items| && p.items[at[j]].PushTag?
      && TagError(positions, p.b, p.items[at[j]].tag).None?
      && Some(vals[at[j]]) == positions[p.items[at[j]].tag]
  }

  lemma {:induction false} ResolvedOneMore(
      p: Program, draft: Draft, at: seq<nat>, j: nat, vals0: seq<nat>, vals: seq<nat>)
    requires Layout.Valid(p) && Lists(p, |p.items|, Tags, draft.tagRef, at) && j < |at|
    requires OthersKept(p, Tags, vals0, vals) && Resolved(p, draft.positions, at, j, vals)
    requires TagError(draft.positions, p.b, draft.tagRef[j].what).None?
    ensures
      var vals' := vals[at[j] := draft.positions[draft.tagRef[j].what].value];
      OthersKept(p, Tags, vals0, vals') && Resolved(p, draft.positions, at, j + 1, vals')
  {
    assert IsRef(p, draft.tagRef[j], at[j]) && HasSort(p.items[at[j]], Tags);
  }

  lemma {:induction false} FaultIsFirst(p: Program, draft: Draft, at: seq<nat>, j: nat, vals: seq<nat>, e: Error)
    requires Layout.Valid(p) && |vals| == |p.items| && Lists(p, |p.items|, Tags, draft.tagRef, at) && j < |at|
    requires Resolved(p, draft.positions, at, j, vals)
    requires TagError(draft.positions, p.b, draft.tagRef[j].what) == Some(e)
    ensures FirstTagFault(p, draft.positions, e)
  {
    assert IsRef(p, draft.tagRef[j], at[j]) && HasSort(p.items[at[j]], Tags);
    forall i | 0 <= i < at[j] && p.items[i].PushTag?
      ensures TagError(draft.positions, p.b, p.items[i].tag).None?
    {
      assert HasSort(p.items[i], Tags) && i in at;
      var m :| 0 <= m < |at| && at[m] == i;
      assert m < j;
    }
    assert TagFault(p, draft.positions, at[j], e);
  }

  method ResolveTags(p: Program, draft: Draft, bytecode: seq<Byte>, ghost at: seq<nat>, ghost vals: seq<nat>,
                     ghost tail: seq<Byte>)
      returns (e: Option<Error>, r: seq<Byte>, ghost vals': seq<nat>)
    requires Layout.Valid(p) && |vals| == |p.items| && bytecode == Code(p, vals) + tail
    requires Lists(p, |p.items|, Tags, draft.tagRef, at)
    ensures e.None? ==> OthersKept(p, Tags, vals, vals') && r == Code(p, vals') + tail
    ensures e.None? ==> Resolved(p, draft.positions, at, |at|, vals')
    ensures e.Some? ==> FirstTagFault(p, draft.positions, e.value)
  {
    r, vals' := bytecode, vals;
    var j := 0;
    while j < |draft.tagRef|
      invariant 0 <= j <= |draft.tagRef| && OthersKept(p, Tags, vals, vals')
      invariant r == Code(p, vals') + tail && Resolved(p, draft.positions, at, j, vals')
    {
      var ref := draft.tagRef[j];
      assert IsRef(p, ref, at[j]) && HasSort(p.items[at[j]], Tags);
      e := TagError(draft.positions, p.b, ref.what);
      if e.Some? {
        FaultIsFirst(p, draft, at, j, vals', e.value);
        return;
      }
      ResolvedOneMore(p, draft, at, j, vals, vals');
      r := Patch(p, r, ref.offset, p.b, draft.positions[ref.what].value, at[j], vals', tail);
      vals' := vals'[at[j] := draft.positions[ref.what].value];
      j := j + 1;
    }
    e := None;
  }

  /** Resolved references hold positions of their tags. */
  lemma {:induction false} ResolvedLinked(p: Program, draft: Draft, at: seq<nat>, vals: seq<nat>, i: nat)
    requires Layout.Valid(p) && |vals| == |p.items| && i < |p.items|
    requires Positioned(p, |p.items|, draft.positions) && Lists(p, |p.items|, Tags, draft.tagRef, at)
    requires Resolved(p, draft.positions, at, |at|, vals)
    ensures TagLinked(p, i, vals[i])
  {
    if p.items[i].PushTag? {
      assert HasSort(p.items[i], Tags) && i in at;
      var j :| 0 <= j < |at| && at[j] == i;
      var t := p.items[i].tag;
      assert Some(vals[i]) == draft.positions[t];
      assert PositionIs(p, |p.items|, t, draft.positions[t]) && p.items[..|p.items|] == p.items;
      SignificantBytesBound(vals[i]);
      Pow256Monotone(SignificantBytes(vals[i]), p.b);
    }
  }

  lemma {:induction false} ResolvedUniform(p: Program, draft: Draft, at: seq<nat>, vals: seq<nat>, vals': seq<nat>)
    requires Layout.Valid(p) && Lists(p, |p.items|, Tags, draft.tagRef, at) && OthersKept(p, Tags, vals, vals')
    requires Resolved(p, draft.positions, at, |at|, vals') && Uniform(p.items, vals)
    ensures Uniform(p.items, vals')
  {
    forall i, j | 0 <= i < |p.items| && 0 <= j < |p.items| && p.items[i] == p.items[j]
      ensures vals'[i] == vals'[j]
    {
      if p.items[i].PushTag? {
        assert HasSort(p.items[i], Tags) && i in at && HasSort(p.items[j], Tags) && j in at;
        var k :| 0 <= k < |at| && at[k] == i;
        var l :| 0 <= l < |at| && at[l] == j;
        assert Some(vals'[i]) == draft.positions[p.items[i].tag] == Some(vals'[j]);
      } else {
        assert !HasSort(p.items[i], Tags) && !HasSort(p.items[j], Tags);
      }
    }
  }

  // ----- data and size -----

  /** References to data with a given key, among the first n listed, have the value v. */
  ghost predicate KeyFilled(p: Program, key: Wide, v: nat, at: seq<nat>, n: nat, vals: seq<nat>)
    requires n <= |at| && |vals| == |p.items|
  {
    forall j :: 0 <= j < n && at[j] < |p.items| && p.items[at[j]] == PushData(key) ==> vals[at[j]] == v
  }

  /** Only references to a given key have changed. */
  ghost predicate OtherKeysKept(p: Program, key: Wide, vals: seq<nat>, vals': seq<nat>) {
    && |vals| == |vals'| == |p.items|
    && forall i :: 0 <= i < |vals| && p.items[i] != PushData(key) ==> vals'[i] == vals[i]
  }

  /** One more reference looked at: filled in if it is to the key. */
  lemma {:induction false} KeyFilledOneMore(
      p: Program, refs: seq<Ref>, key: Wide, v: nat, at: seq<nat>, j: nat, vals0: seq<nat>, vals: seq<nat>)
    requires Layout.Valid(p) && Lists(p, |p.items|, Data, refs, at) && j < |at|
    requires OtherKeysKept(p, key, vals0, vals) && KeyFilled(p, key, v, at, j, vals)
    ensures
      var vals' := if refs[j].what == key then vals[at[j] := v] else vals;
      OtherKeysKept(p, key, vals0, vals') && KeyFilled(p, key, v, at, j + 1, vals')
  {
    assert IsRef(p, refs[j], at[j]) && HasSort(p.items[at[j]], Data);
  }

  /** Fills in all references to one piece of data. */
  method FillKey(p: Program, refs: seq<Ref>, key: Wide, bytecode: seq<Byte>, ghost at: seq<nat>, ghost vals: seq<nat>,
                 ghost tail: seq<Byte>)
      returns (r: seq<Byte>, ghost vals': seq<nat>)
    requires Layout.Valid(p) && |vals| == |p.items| && bytecode == Code(p, vals) + tail
    requires Lists(p, |p.items|, Data, refs, at)
    ensures OtherKeysKept(p, key, vals, vals') && r == Code(p, vals') + tail
    ensures KeyFilled(p, key, |bytecode|, at, |at|, vals')
  {
    r, vals' := bytecode, vals;
    var v := |bytecode|;
    var j := 0;
    while j < |refs|
      invariant 0 <= j <= |refs| && OtherKeysKept(p, key, vals, vals') && r == Code(p, vals') + tail
      invariant KeyFilled(p, key, v, at, j, vals')
    {
      KeyFilledOneMore(p, refs, key, v, at, j, vals, vals');
      if refs[j].what == key {
        r := PatchRef(p, refs, j, r, v, at, vals', tail);
        vals' := vals'[at[j] := v];
      }
      j := j + 1;
    }
  }

  method PatchRef(p: Program, refs: seq<Ref>, j: nat, bytecode: seq<Byte>, v: nat, ghost at: seq<nat>,
                  ghost vals: seq<nat>, ghost tail: seq<Byte>)
      returns (patched: seq<Byte>)
    requires Layout.Valid(p) && |vals| == |p.items| && bytecode == Code(p, vals) + tail
    requires Lists(p, |p.items|, Data, refs, at) && j < |refs|
    ensures patched == Code(p, vals[at[j] := v]) + tail
  {
    assert IsRef(p, refs[j], at[j]) && HasSort(p.items[at[j]], Data);
    patched := Patch(p, bytecode, refs[j].offset, p.d, v, at[j], vals, tail);
  }

  method IsReferenced(p: Program, refs: seq<Ref>, key: Wide, ghost at: seq<nat>) returns (found: bool)
    requires Layout.Valid(p) && Lists(p, |p.items|, Data, refs, at)
    ensures found <==> PushData(key) in p.items
  {
    found := false;
    var j := 0;
    while j < |refs|
      invariant 0 <= j <= |refs| && (found <==> exists m :: 0 <= m < j && p.items[at[m]] == PushData(key))
    {
      assert IsRef(p, refs[j], at[j]) && HasSort(p.items[at[j]], Data);
      if refs[j].what == key {
        found := true;
      }
      j := j + 1;
    }
    ListedKeys(p, refs, at, key);
  }

  lemma {:induction false} ListedKeys(p: Program, refs: seq<Ref>, at: seq<nat>, key: Wide)
    requires Layout.Valid(p) && Lists(p, |p.items|, Data, refs, at)
    ensures (exists m :: 0 <= m < |at| && p.items[at[m]] == PushData(key)) <==> PushData(key) in p.items
  {
    if PushData(key) in p.items {
      var i :| 0 <= i < |p.items| && p.items[i] == PushData(key);
      assert i in at;
    }
  }

  /** A reference to data points to it, so many bytes behind the code, which takes n bytes. */
  predicate TailLinked(item: Item, v: nat, d: DataItem, n: nat, behind: nat, tail: seq<Byte>) {
    item == PushData(d.key) ==>
      v == n + behind && behind + |d.bytes| <= |tail| && tail[behind..behind + |d.bytes|] == d.bytes
  }

  /** Item i, if it refers to piece k of the data, points to it. */
  predicate IsPlaced(asm: Assembly, vals: seq<nat>, n: nat, tail: seq<Byte>, i: nat, k: nat)
    requires i < |vals| == |asm.items| && k < |asm.data|
  {
    TailLinked(asm.items[i], vals[i], asm.data[k], n, Separator(asm) + ReferencedBytes(asm, k), tail)
  }

  ghost predicate DataPlaced(asm: Assembly, vals: seq<nat>, m: nat, n: nat, tail: seq<Byte>)
    requires |vals| == |asm.items| && m <= |asm.data|
  {
    && |tail| == Separator(asm) + ReferencedBytes(asm, m) && tail == Zeros(Separator(asm)) + ReferencedData(asm, m)
    && (forall i, k :: 0 <= i < |vals| && 0 <= k < m ==> IsPlaced(asm, vals, n, tail, i, k))
    && (forall i :: 0 <= i < |vals| && Dangling(asm, asm.items[i], m) ==> vals[i] == 0)
  }

  lemma {:induction false} TailGrows(
      item: Item, v: nat, d: DataItem, n: nat, behind: nat, tail: seq<Byte>, more: seq<Byte>)
    requires TailLinked(item, v, d, n, behind, tail)
    ensures TailLinked(item, v, d, n, behind, tail + more)
  {
    if item == PushData(d.key) {
      assert (tail + more)[behind..behind + |d.bytes|] == tail[behind..behind + |d.bytes|];
    }
  }

  /** Filling in references to the next piece of data and appending it. */
  lemma {:induction false} PlacedOneMore(
      asm: Assembly, p: Program, refs: seq<Ref>, at: seq<nat>, vals: seq<nat>, vals': seq<nat>, m: nat, n: nat,
      tail: seq<Byte>)
    requires WellFormed(asm) && Layout.Valid(p) && p.items == asm.items && |vals| == |asm.items| && m < |asm.data|
    requires Lists(p, |p.items|, Data, refs, at) && DataPlaced(asm, vals, m, n, tail)
    requires OtherKeysKept(p, asm.data[m].key, vals, vals')
    requires KeyFilled(p, asm.data[m].key, n + |tail|, at, |at|, vals')
    requires PushData(asm.data[m].key) in asm.items
    ensures DataPlaced(asm, vals', m + 1, n, tail + asm.data[m].bytes)
  {
    var d := asm.data[m];
    Appended(Zeros(Separator(asm)), ReferencedData(asm, m), d.bytes);
    StillDangling(asm, vals, vals', m);
    StillPlaced(asm, p, refs, at, vals, vals', m, n, tail);
  }

  lemma {:induction false} StillPlaced(
      asm: Assembly, p: Program, refs: seq<Ref>, at: seq<nat>, vals: seq<nat>, vals': seq<nat>, m: nat, n: nat,
      tail: seq<Byte>)
    requires WellFormed(asm) && Layout.Valid(p) && p.items == asm.items && |vals| == |asm.items| && m < |asm.data|
    requires Lists(p, |p.items|, Data, refs, at) && |tail| == Separator(asm) + ReferencedBytes(asm, m)
    requires forall i, k :: 0 <= i < |vals| && 0 <= k < m ==> IsPlaced(asm, vals, n, tail, i, k)
    requires OtherKeysKept(p, asm.data[m].key, vals, vals')
    requires KeyFilled(p, asm.data[m].key, n + |tail|, at, |at|, vals')
    ensures forall i, k :: 0 <= i < |vals'| && 0 <= k < m + 1 ==>
      IsPlaced(asm, vals', n, tail + asm.data[m].bytes, i, k)
  {
    var d := asm.data[m];
    forall i, k | 0 <= i < |vals'| && 0 <= k < m + 1
      ensures IsPlaced(asm, vals', n, tail + d.bytes, i, k)
    {
      if k < m {
        assert IsPlaced(asm, vals, n, tail, i, k);
        assert asm.data[k].key != d.key;
        TailGrows(asm.items[i], vals[i], asm.data[k], n, Separator(asm) + ReferencedBytes(asm, k), tail, d.bytes);
      } else {
        JustPlaced(p, refs, at, vals', d, i, n, tail);
      }
    }
  }

  lemma {:induction false} StillDangling(asm: Assembly, vals: seq<nat>, vals': seq<nat>, m: nat)
    requires |vals| == |vals'| == |asm.items| && m < |asm.data|
    requires forall i :: 0 <= i < |vals| && asm.items[i] != PushData(asm.data[m].key) ==> vals'[i] == vals[i]
    requires forall i :: 0 <= i < |vals| && Dangling(asm, asm.items[i], m) ==> vals[i] == 0
    ensures forall i :: 0 <= i < |vals| && Dangling(asm, asm.items[i], m + 1) ==> vals'[i] == 0
  {
    forall i | 0 <= i < |vals| && Dangling(asm, asm.items[i], m + 1) ensures vals'[i] == 0 {
      assert asm.data[m].key != asm.items[i].data && Dangling(asm, asm.items[i], m);
    }
  }

  lemma {:induction false} JustPlaced(
      p: Program, refs: seq<Ref>, at: seq<nat>, vals: seq<nat>, d: DataItem, i: nat, n: nat, tail: seq<Byte>)
    requires Layout.Valid(p) && |vals| == |p.items| && i < |p.items| && Lists(p, |p.items|, Data, refs, at)
    requires KeyFilled(p, d.key, n + |tail|, at, |at|, vals)
    ensures TailLinked(p.items[i], vals[i], d, n, |tail|, tail + d.bytes)
  {
    if p.items[i] == PushData(d.key) {
      assert HasSort(p.items[i], Data) && i in at;
      var j :| 0 <= j < |at| && at[j] == i;
      assert vals[at[j]] == n + |tail|;
      assert (tail + d.bytes)[|tail|..|tail| + |d.bytes|] == d.bytes;
    }
  }

  lemma {:induction false} PlacedUnreferenced(asm: Assembly, vals: seq<nat>, m: nat, n: nat, tail: seq<Byte>)
    requires |vals| == |asm.items| && m < |asm.data| && DataPlaced(asm, vals, m, n, tail)
    requires PushData(asm.data[m].key) !in asm.items
    ensures DataPlaced(asm, vals, m + 1, n, tail)
  {
    StillDangling(asm, vals, vals, m);
    assert ReferencedData(asm, m + 1) == ReferencedData(asm, m);
  }

  lemma {:induction false} FilledUniform(
      p: Program, refs: seq<Ref>, at: seq<nat>, key: Wide, v: nat, vals: seq<nat>, vals': seq<nat>)
    requires Layout.Valid(p) && Lists(p, |p.items|, Data, refs, at) && OtherKeysKept(p, key, vals, vals')
    requires KeyFilled(p, key, v, at, |at|, vals') && Uniform(p.items, vals)
    ensures Uniform(p.items, vals')
  {
    forall i | 0 <= i < |p.items| && p.items[i] == PushData(key) ensures vals'[i] == v {
      assert HasSort(p.items[i], Data) && i in at;
      var k :| 0 <= k < |at| && at[k] == i;
      assert vals'[at[k]] == v;
    }
  }

  /** Appends one piece of data if it is referred to, filling in the references. */
  method AppendOne(asm: Assembly, p: Program, refs: seq<Ref>, m: nat, bytecode: seq<Byte>, ghost at: seq<nat>,
                   ghost vals: seq<nat>, ghost tail: seq<Byte>)
      returns (r: seq<Byte>, ghost vals': seq<nat>, ghost tail': seq<Byte>)
    requires WellFormed(asm) && Layout.Valid(p) && p.items == asm.items && |vals| == |p.items| && m < |asm.data|
    requires bytecode == Code(p, vals) + tail && Lists(p, |p.items|, Data, refs, at)
    requires DataPlaced(asm, vals, m, Start(p, |p.items|), tail) && Uniform(p.items, vals)
    ensures OthersKept(p, Data, vals, vals') && r == Code(p, vals') + tail' && Uniform(p.items, vals')
    ensures DataPlaced(asm, vals', m + 1, Start(p, |p.items|), tail')
  {
    r, vals', tail' := bytecode, vals, tail;
    var d := asm.data[m];
    var found := IsReferenced(p, refs, d.key, at);
    if found {
      CodeLength(p, vals);
      r, vals' := FillKey(p, refs, d.key, bytecode, at, vals, tail);
      PlacedOneMore(asm, p, refs, at, vals, vals', m, Start(p, |p.items|), tail);
      FilledUniform(p, refs, at, d.key, |bytecode|, vals, vals');
      Appended(Code(p, vals'), tail, d.bytes);
      r, tail' := r + d.bytes, tail + d.bytes;
    } else {
      PlacedUnreferenced(asm, vals, m, Start(p, |p.items|), tail);
    }
  }

  method AppendData(asm: Assembly, p: Program, draft: Draft, bytecode: seq<Byte>, ghost at: seq<nat>,
                    ghost vals: seq<nat>, ghost tail: seq<Byte>)
      returns (r: seq<Byte>, ghost vals': seq<nat>, ghost tail': seq<Byte>)
    requires WellFormed(asm) && Layout.Valid(p) && p.items == asm.items && |vals| == |p.items|
    requires bytecode == Code(p, vals) + tail && Lists(p, |p.items|, Data, draft.dataRef, at)
    requires tail == Zeros(Separator(asm)) && Uniform(p.items, vals)
    requires forall i :: 0 <= i < |vals| && p.items[i].PushData? ==> vals[i] == 0
    ensures OthersKept(p, Data, vals, vals') && r == Code(p, vals') + tail' && Uniform(p.items, vals')
    ensures DataPlaced(asm, vals', |asm.data|, Start(p, |p.items|), tail')
  {
    r, vals', tail' := bytecode, vals, tail;
    var m := 0;
    assert tail == tail + [];
    while m < |asm.data|
      invariant 0 <= m <= |asm.data| && OthersKept(p, Data, vals, vals') && r == Code(p, vals') + tail'
      invariant DataPlaced(asm, vals', m, Start(p, |p.items|), tail') && Uniform(p.items, vals')
    {
      r, vals', tail' := AppendOne(asm, p, draft.dataRef, m, r, at, vals', tail');
      m := m + 1;
    }
  }

  lemma {:induction false} Appended(a: seq<Byte>, b: seq<Byte>, c: seq<Byte>)
    ensures (a + b) + c == a + (b + c)
  {
  }

  lemma {:induction false} CodeLength(p: Program, vals: seq<nat>)
    requires Layout.Valid(p) && |vals| == |p.items|
    ensures |Code(p, vals)| == Start(p, |p.items|)
  {
    StartsAgree(p, vals, |p.items|);
    FlatWhole(Chunks(p, vals));
  }

  /** Fills in the size of the whole program. */
  method FillSizes(p: Program, refs: seq<Ref>, bytecode: seq<Byte>, ghost at: seq<nat>, ghost vals: seq<nat>,
                   ghost tail: seq<Byte>)
      returns (r: seq<Byte>, ghost vals': seq<nat>)
    requires Layout.Valid(p) && |vals| == |p.items| && bytecode == Code(p, vals) + tail
    requires Lists(p, |p.items|, Sizes, refs, at)
    ensures OthersKept(p, Sizes, vals, vals') && r == Code(p, vals') + tail
    ensures forall i :: 0 <= i < |p.items| && p.items[i].PushProgramSize? ==> vals'[i] == |bytecode|
  {
    r, vals' := bytecode, vals;
    var j := 0;
    while j < |refs|
      invariant 0 <= j <= |refs| && OthersKept(p, Sizes, vals, vals') && r == Code(p, vals') + tail
      invariant forall m :: 0 <= m < j ==> vals'[at[m]] == |bytecode|
    {
      assert IsRef(p, refs[j], at[j]) && HasSort(p.items[at[j]], Sizes);
      r := Patch(p, r, refs[j].offset, p.d, |bytecode|, at[j], vals', tail);
      vals' := vals'[at[j] := |bytecode|];
      j := j + 1;
    }
    forall i | 0 <= i < |p.items| && p.items[i].PushProgramSize? ensures vals'[i] == |bytecode| {
      assert HasSort(p.items[i], Sizes) && i in at;
    }
  }

  // ----- assembling -----

  lemma {:induction false} SizesFit(asm: Assembly, t: nat)
    requires WellFormed(asm) && IsTagSize(asm, t)
    ensures t <= 4 && 1 <= SignificantBytes(Total(asm, t) + 1 + |asm.auxiliaryData|) <= 4
  {
    Pow256IsPow2(4);
    assert Pow256(4) == TWO_32 by {
      assert Pow256(1) == 256 && Pow256(2) == 0x1_0000 && Pow256(3) == 0x100_0000;
    }
    assert t > 4 ==> SignificantBytes(Total(asm, 4)) > 4;
    SignificantBytesAtMost(Total(asm, 4), 4);
    ItemsMonotone(asm.items, t, 4);
    SignificantBytesAtMost(Total(asm, t) + 1 + |asm.auxiliaryData|, 4);
  }

  lemma {:induction false} ProgramValid(asm: Assembly, p: Program)
    requires WellFormed(asm) && p.items == asm.items && 1 <= p.b <= 4 && 1 <= p.d <= 4
    ensures Layout.Valid(p)
  {
    forall k | 0 <= k < |p.items| ensures Encodable(p.items[k], p.b, p.d) {
      assert IsPlain(asm.items[k], asm.usedTags);
      if p.items[k].Push? {
        Pow256IsPow2(32);
        Pow2At256();
        SignificantBytesAtMost(p.items[k].data, 32);
      }
    }
  }

  lemma {:induction false} SignificantBytesMonotone(v: nat, w: nat)
    requires v <= w
    ensures SignificantBytes(v) <= SignificantBytes(w)
  {
    SignificantBytesBound(w);
    SignificantBytesAtMost(v, SignificantBytes(w));
  }

  /** Without references to data or sizes, items take exactly the bytes that were counted. */
  lemma {:induction false} StartIsItemsBytes(asm: Assembly, p: Program, k: nat)
    requires WellFormed(asm) && Layout.Valid(p) && p.items == asm.items && !HasReferences(asm) && k <= |p.items|
    ensures Start(p, k) == ItemsBytes(asm.items[..k], p.b)
    decreases k
  {
    if k == 0 {
      assert Chunks(p, ZeroValues(|p.items|))[..0] == [];
    } else {
      StartIsItemsBytes(asm, p, k - 1);
      ChunkFound(p, ZeroValues(|p.items|), Code(p, ZeroValues(|p.items|)) + [], [], k - 1);
      assert asm.items[..k][..k - 1] == asm.items[..k - 1];
      assert IsPlain(asm.items[k - 1], asm.usedTags);
    }
  }

  /** Then every position fits the space reserved for tags. */
  lemma {:induction false} PositionsFit(asm: Assembly, p: Program, k: nat)
    requires WellFormed(asm) && Layout.Valid(p) && p.items == asm.items && !HasReferences(asm) && k <= |p.items|
    requires IsTagSize(asm, p.b)
    ensures Start(p, k) < TWO_32 - 1 && SignificantBytes(Start(p, k)) <= p.b
  {
    StartIsItemsBytes(asm, p, k);
    StartIsItemsBytes(asm, p, |p.items|);
    assert asm.items[..|p.items|] == asm.items;
    StartsAgree(p, ZeroValues(|p.items|), k);
    CodeLength(p, ZeroValues(|p.items|));
    SizesFit(asm, p.b);
    ItemsMonotone(asm.items, p.b, 4);
    SignificantBytesMonotone(Start(p, k), Total(asm, p.b));
    ReservedIsTagSize(asm, p.b);
  }

  lemma {:induction false} NoItemErrors(asm: Assembly, p: Program, k: nat)
    requires WellFormed(asm) && Layout.Valid(p) && p.items == asm.items && !HasReferences(asm)
    requires IsTagSize(asm, p.b) && Resolvable(asm) && k < |p.items|
    ensures ItemError(asm, p.items[k], Start(p, k)).None?
  {
    PositionsFit(asm, p, k);
    assert ResolvableItem(asm, asm.items[k]);
  }

  lemma {:induction false} NoTagErrors(asm: Assembly, p: Program, positions: seq<Option<nat>>, i: nat)
    requires WellFormed(asm) && Layout.Valid(p) && p.items == asm.items && !HasReferences(asm)
    requires IsTagSize(asm, p.b) && Resolvable(asm) && i < |p.items| && p.items[i].PushTag?
    requires |positions| == asm.usedTags && Positioned(p, |p.items|, positions)
    ensures TagError(positions, p.b, p.items[i].tag).None?
  {
    var t := p.items[i].tag;
    assert ResolvableItem(asm, asm.items[i]);
    assert PositionIs(p, |p.items|, t, positions[t]) && p.items[..|p.items|] == p.items;
    var k :| 0 <= k < |p.items| && Gives(p.items[k], t);
    var j :| Defines(p.items, t, j) && positions[t].value == Start(p, j);
    PositionsFit(asm, p, j);
  }

  lemma {:induction false} ItemErrorExplained(asm: Assembly, p: Program, e: Error)
    requires WellFormed(asm) && Layout.Valid(p) && p.items == asm.items && IsTagSize(asm, p.b)
    requires FirstItemFault(asm, p, e)
    ensures HasReferences(asm) || !Resolvable(asm)
  {
    var k: nat :| ItemFault(asm, p, k, e);
    if !HasReferences(asm) && Resolvable(asm) {
      NoItemErrors(asm, p, k);
    }
  }

  lemma {:induction false} TagErrorExplained(asm: Assembly, p: Program, positions: seq<Option<nat>>, e: Error)
    requires WellFormed(asm) && Layout.Valid(p) && p.items == asm.items && IsTagSize(asm, p.b)
    requires |positions| == asm.usedTags && Positioned(p, |p.items|, positions)
    requires FirstTagFault(p, positions, e)
    ensures HasReferences(asm) || !Resolvable(asm)
  {
    var i: nat :| TagFault(p, positions, i, e);
    if !HasReferences(asm) && Resolvable(asm) {
      NoTagErrors(asm, p, positions, i);
    }
  }

  /** What was resolved without errors was resolvable. */
  lemma {:induction false} NoErrorsResolvable(asm: Assembly, p: Program, draft: Draft, at: seq<nat>, vals: seq<nat>)
    requires Layout.Valid(p) && p.items == asm.items && |vals| == |p.items|
    requires forall k :: 0 <= k < |p.items| ==> ItemError(asm, p.items[k], Start(p, k)).None?
    requires |draft.positions| == asm.usedTags && Positioned(p, |p.items|, draft.positions)
    requires Lists(p, |p.items|, Tags, draft.tagRef, at) && Resolved(p, draft.positions, at, |at|, vals)
    ensures Resolvable(asm)
  {
    forall k | 0 <= k < |asm.items| ensures ResolvableItem(asm, asm.items[k]) {
      assert ItemError(asm, p.items[k], Start(p, k)).None?;
      if p.items[k].PushTag? {
        assert HasSort(p.items[k], Tags) && k in at;
        var j :| 0 <= j < |at| && at[j] == k;
        ResolvedThere(asm, p, draft.positions, p.items[k].tag);
      }
    }
  }

  lemma {:induction false} ResolvedThere(asm: Assembly, p: Program, positions: seq<Option<nat>>, t: nat)
    requires Layout.Valid(p) && p.items == asm.items && t < |positions| && positions[t].Some?
    requires Positioned(p, |p.items|, positions)
    ensures t == 0 || TagIn(asm.items, t)
  {
    assert PositionIs(p, |p.items|, t, positions[t]) && p.items[..|p.items|] == p.items;
  }

  lemma {:induction false} Linked(
      asm: Assembly, p: Program, draft: Draft, o: Origins, v1: seq<nat>, v2: seq<nat>, v3: seq<nat>,
      tail: seq<Byte>, aux: seq<Byte>, bytecode: seq<Byte>)
    requires WellFormed(asm) && Layout.Valid(p) && p.items == asm.items && IsDraft(asm, p, |p.items|, draft, o)
    requires |v1| == |p.items| && Resolved(p, draft.positions, o.tags, |o.tags|, v1)
    requires OthersKept(p, Data, v1, v2) && OthersKept(p, Sizes, v2, v3)
    requires DataPlaced(asm, v2, |asm.data|, Start(p, |p.items|), tail) && Uniform(p.items, v2)
    requires aux == asm.auxiliaryData && bytecode == Code(p, v3) + (tail + aux)
    requires forall i :: 0 <= i < |p.items| && p.items[i].PushProgramSize? ==> v3[i] == |bytecode|
    requires forall k :: 0 <= k < |p.items| ==> ItemError(asm, p.items[k], Start(p, k)).None?
    ensures IsLinked(asm, p, v3, bytecode)
  {
    CodeLength(p, v3);
    forall j | 0 <= j < |p.items| && p.items[j].Tag? ensures Start(p, j) < TWO_32 - 1 {
      assert ItemError(asm, p.items[j], Start(p, j)).None?;
    }
    SizedUniform(p, v2, v3, |bytecode|);
    assert tail + aux == Zeros(Separator(asm)) + ReferencedData(asm, |asm.data|) + aux;
    forall i | 0 <= i < |v3| && Dangling(asm, asm.items[i], |asm.data|) ensures v3[i] == 0 {
      assert !HasSort(p.items[i], Sizes);
    }
    forall i | 0 <= i < |v3| ensures TagLinked(p, i, v3[i]) {
      LinkedToTag(p, draft, o.tags, v1, v2, v3, i);
    }
    forall i, m | 0 <= i < |v3| && 0 <= m < |asm.data|
      ensures PointsToData(asm, p, v3, bytecode, i, m)
    {
      LinkedToData(asm, p, v2, v3, tail, aux, i, m);
    }
  }

  lemma {:induction false} SizedUniform(p: Program, vals: seq<nat>, vals': seq<nat>, size: nat)
    requires OthersKept(p, Sizes, vals, vals') && Uniform(p.items, vals)
    requires forall i :: 0 <= i < |p.items| && p.items[i].PushProgramSize? ==> vals'[i] == size
    ensures Uniform(p.items, vals')
  {
    forall i | 0 <= i < |p.items| && !p.items[i].PushProgramSize? ensures vals'[i] == vals[i] {
      assert !HasSort(p.items[i], Sizes);
    }
  }

  lemma {:induction false} LinkedToTag(
      p: Program, draft: Draft, at: seq<nat>, v1: seq<nat>, v2: seq<nat>, v3: seq<nat>, i: nat)
    requires Layout.Valid(p) && |v1| == |p.items| && i < |p.items|
    requires Positioned(p, |p.items|, draft.positions) && Lists(p, |p.items|, Tags, draft.tagRef, at)
    requires Resolved(p, draft.positions, at, |at|, v1)
    requires OthersKept(p, Data, v1, v2) && OthersKept(p, Sizes, v2, v3)
    ensures TagLinked(p, i, v3[i])
  {
    if p.items[i].PushTag? {
      assert !HasSort(p.items[i], Data) && !HasSort(p.items[i], Sizes);
      ResolvedLinked(p, draft, at, v1, i);
    }
  }

  lemma {:induction false} LinkedToData(
      asm: Assembly, p: Program, v2: seq<nat>, v3: seq<nat>, tail: seq<Byte>, aux: seq<Byte>, i: nat, m: nat)
    requires Layout.Valid(p) && p.items == asm.items && |v2| == |p.items| && OthersKept(p, Sizes, v2, v3)
    requires DataPlaced(asm, v2, |asm.data|, Start(p, |p.items|), tail) && i < |p.items| && m < |asm.data|
    ensures DataLinked(asm.items[i], v3[i], asm.data[m], DataPosition(asm, p, m), Code(p, v3) + (tail + aux))
  {
    CodeLength(p, v3);
    if asm.items[i] == PushData(asm.data[m].key) {
      assert !HasSort(p.items[i], Sizes) && IsPlaced(asm, v2, Start(p, |p.items|), tail, i, m);
      DataInCode(asm.items[i], v2[i], asm.data[m], Code(p, v3), Separator(asm) + ReferencedBytes(asm, m), tail, aux);
    }
  }

  lemma {:induction false} DataInCode(
      item: Item, v: nat, d: DataItem, code: seq<Byte>, behind: nat, tail: seq<Byte>, aux: seq<Byte>)
    requires TailLinked(item, v, d, |code|, behind, tail)
    ensures DataLinked(item, v, d, |code| + behind, code + (tail + aux))
  {
    if item == PushData(d.key) {
      assert (code + (tail + aux))[v..v + |d.bytes|] == tail[behind..behind + |d.bytes|];
    }
  }

  /** Chooses how many bytes references take. */
  method Reserve(asm: Assembly) returns (p: Program)
    requires WellFormed(asm)
    ensures Layout.Valid(p) && p.items == asm.items && p.texts == asm.strings
    ensures IsTagSize(asm, p.b) && p.d == ReservedForData(asm, p.b)
  {
    var bytesRequiredForCode := BytesRequired(asm);
    var bytesPerTag := BytesOf(bytesRequiredForCode);
    SizesFit(asm, bytesPerTag);
    var bytesPerDataRef := BytesOf(bytesRequiredForCode + 1 + |asm.auxiliaryData|);
    p := Program(asm.items, asm.strings, bytesPerTag, bytesPerDataRef);
    ProgramValid(asm, p);
  }

  /** Code and data as the first pass leaves them, with the separator. */
  method Separate(asm: Assembly, p: Program, draft: Draft, ghost o: Origins)
      returns (bytecode: seq<Byte>, ghost tail: seq<Byte>)
    requires Layout.Valid(p) && p.items == asm.items && IsDraft(asm, p, |p.items|, draft, o)
    ensures bytecode == Code(p, ZeroValues(|p.items|)) + tail
    ensures tail == Zeros(Separator(asm))
  {
    ghost var vals := ZeroValues(|p.items|);
    FlatWhole(Chunks(p, vals));
    assert Chunks(p, vals)[..|p.items|] == Chunks(p, vals);
    bytecode, tail := draft.bytecode, [];
    if asm.data != [] || asm.auxiliaryData != [] {
      bytecode, tail := bytecode + [0], [0];
    }
  }

  /** Fills in all references and appends the data. */
  method Link(asm: Assembly, p: Program, draft: Draft, ghost o: Origins)
      returns (e: Option<Error>, bytecode: seq<Byte>, ghost vals: seq<nat>)
    requires WellFormed(asm) && Layout.Valid(p) && p.items == asm.items && IsDraft(asm, p, |p.items|, draft, o)
    requires forall k :: 0 <= k < |p.items| ==> ItemError(asm, p.items[k], Start(p, k)).None?
    ensures e.None? ==> |vals| == |asm.items| && IsLinked(asm, p, vals, bytecode) && Resolvable(asm)
    ensures e.Some? ==> FirstTagFault(p, draft.positions, e.value)
  {
    ghost var tail, v1, v2, tail2;
    vals := ZeroValues(|p.items|);
    bytecode, tail := Separate(asm, p, draft, o);
    e, bytecode, v1 := ResolveTags(p, draft, bytecode, o.tags, vals, tail);
    if e.Some? {
      return;
    }
    NoErrorsResolvable(asm, p, draft, o.tags, v1);
    ResolvedUniform(p, draft, o.tags, vals, v1);
    assert forall i :: 0 <= i < |v1| && p.items[i].PushData? ==> !HasSort(p.items[i], Tags);
    bytecode, v2, tail2 := AppendData(asm, p, draft, bytecode, o.data, v1, tail);
    Appended(Code(p, v2), tail2, asm.auxiliaryData);
    bytecode := bytecode + asm.auxiliaryData;
    bytecode, vals := FillSizes(p, draft.sizeRef, bytecode, o.sizes, v2, tail2 + asm.auxiliaryData);
    CodeLength(p, v2);
    CodeLength(p, vals);
    Linked(asm, p, draft, o, v1, v2, vals, tail2, asm.auxiliaryData, bytecode);
  }

  /**
   Assembles items into bytecode. If that succeeds, every reference holds the position it
   refers to; if it fails, the first fault is reported. It succeeds only if everything referred
   to is there, and without references to data or sizes also whenever it is: no tag is too
   large for the space reserved.
   */
  method Assemble(asm: Assembly) returns (r: Assembled, ghost p: Program, ghost vals: seq<nat>)
    requires WellFormed(asm)
    ensures Layout.Valid(p) && p.items == asm.items && p.texts == asm.strings && IsTagSize(asm, p.b)
    ensures p.d == ReservedForData(asm, p.b)
    ensures r.Ok? ==> |vals| == |asm.items| && IsLinked(asm, p, vals, r.bytecode) && Resolvable(asm)
    ensures r.Failed? ==> IsFirstFault(asm, p, r.error)
    ensures !HasReferences(asm) && Resolvable(asm) ==> r.Ok?
  {
    var program := Reserve(asm);
    p, vals := program, [];
    var e, draft;
    ghost var o;
    e, draft, o := FirstPass(asm, program);
    if e.Some? {
      ItemErrorExplained(asm, p, e.value);
      assert IsFirstFault(asm, p, e.value);
      return Failed(e.value), p, vals;
    }
    var bytecode;
    e, bytecode, vals := Link(asm, program, draft, o);
    if e.Some? {
      TagErrorExplained(asm, p, draft.positions, e.value);
      assert IsFirstFault(asm, p, e.value);
      return Failed(e.value), p, vals;
    }
    r := Ok(bytecode);
  }

  // ----- what linked code does -----

  /** Linked code disassembles to its items, references holding their values. */
  lemma {:induction false} LinkedReadsBack(asm: Assembly, p: Program, vals: seq<nat>, bytecode: seq<Byte>)
    requires Layout.Valid(p) && p.items == asm.items && |vals| == |asm.items| && IsLinked(asm, p, vals, bytecode)
    ensures Disassemble(bytecode, 0) == Readings(p, vals, 0) + Disassemble(bytecode, Start(p, |p.items|))
  {
    var tail := bytecode[|Code(p, vals)|..];
    assert bytecode == Code(p, vals) + tail;
    assert Chunks(p, ZeroValues(|p.items|))[..0] == [];
    CodeReadsBack(p, vals, tail, 0);
  }

  /** A pushed tag reads back as the position of the tag, and that is a valid jump destination. */
  lemma {:induction false} LabelsAreJumpDests(asm: Assembly, p: Program, vals: seq<nat>, bytecode: seq<Byte>, i: nat)
    requires Layout.Valid(p) && p.items == asm.items && |vals| == |asm.items| && IsLinked(asm, p, vals, bytecode)
    requires i < |p.items| && p.items[i].PushTag? && p.items[i].tag != 0
    ensures Expected(p.items[i], TextOf(p, p.items[i]), p.b, p.d, vals[i]).data == vals[i]
    ensures vals[i] in JumpDests(bytecode, 0)
  {
    var tail := bytecode[|Code(p, vals)|..];
    assert bytecode == Code(p, vals) + tail;
    assert TagLinked(p, i, vals[i]);
    var j :| Defines(p.items, p.items[i].tag, j) && vals[i] == Start(p, j);
    TagsAreJumpDests(p, vals, tail, j);
    DivModUnique(vals[i], 0, Pow256(p.b), vals[i]);
  }

  /** Every pushed tag is an entry of the jump table the virtual machine compiles for the code. */
  lemma {:induction false} LabelsInJumpTable(
      asm: Assembly, p: Program, vals: seq<nat>, bytecode: seq<Byte>, i: nat, spans: seq<Scanner.Span>,
      table: map<nat, nat>)
    requires Layout.Valid(p) && p.items == asm.items && |vals| == |asm.items| && IsLinked(asm, p, vals, bytecode)
    requires i < |p.items| && p.items[i].PushTag? && p.items[i].tag != 0
    requires Scanner.Partition(bytecode, spans) && Programs.IsJumpTable(bytecode, spans, table)
    ensures vals[i] in table
  {
    LabelsAreJumpDests(asm, p, vals, bytecode, i);
    Programs.TableIsJumpDests(bytecode, spans, table, vals[i]);
  }

  // ----- references to data and sizes -----

  /** The size of the program reads back if and only if it fits the bytes reserved for it. */
  lemma {:induction false} SizeReadsBack(asm: Assembly, p: Program, vals: seq<nat>, bytecode: seq<Byte>, i: nat)
    requires Layout.Valid(p) && p.items == asm.items && |vals| == |asm.items| && IsLinked(asm, p, vals, bytecode)
    requires i < |p.items| && p.items[i].PushProgramSize?
    ensures Expected(p.items[i], TextOf(p, p.items[i]), p.b, p.d, vals[i]).data == |bytecode|
            <==> FinalSize(asm, p) < Pow256(p.d)
  {
    ModIsSelf(|bytecode|, Pow256(p.d));
  }

  /** Likewise for the position of data. */
  lemma {:induction false} DataReadsBack(
      asm: Assembly, p: Program, vals: seq<nat>, bytecode: seq<Byte>, i: nat, m: nat)
    requires Layout.Valid(p) && p.items == asm.items && |vals| == |asm.items| && IsLinked(asm, p, vals, bytecode)
    requires i < |p.items| && m < |asm.data| && p.items[i] == PushData(asm.data[m].key)
    ensures
      var n := DataPosition(asm, p, m);
      && n + |asm.data[m].bytes| <= |bytecode| && bytecode[n..n + |asm.data[m].bytes|] == asm.data[m].bytes
      && (Expected(p.items[i], TextOf(p, p.items[i]), p.b, p.d, vals[i]).data == n <==> n < Pow256(p.d))
  {
    assert PointsToData(asm, p, vals, bytecode, i, m);
    ModIsSelf(DataPosition(asm, p, m), Pow256(p.d));
  }

  lemma ModIsSelf(v: nat, n: nat)
    requires n > 0
    ensures v % n == v <==> v < n
  {
    if v < n {
      DivModUnique(v, 0, n, v);
    }
  }

  /** References for which no fewer bytes were counted than they take. */
  predicate CountedInFull(item: Item, b: nat, d: nat) {
    (item.PushData? ==> d <= b) && (item.PushProgramSize? ==> d <= 3)
  }

  lemma {:induction false} StartWithinCount(asm: Assembly, p: Program, k: nat)
    requires WellFormed(asm) && Layout.Valid(p) && p.items == asm.items && k <= |p.items|
    requires forall i :: 0 <= i < |p.items| ==> CountedInFull(p.items[i], p.b, p.d)
    ensures Start(p, k) <= ItemsBytes(asm.items[..k], p.b)
    decreases k
  {
    if k == 0 {
      assert Chunks(p, ZeroValues(|p.items|))[..0] == [];
    } else {
      StartWithinCount(asm, p, k - 1);
      ChunkFound(p, ZeroValues(|p.items|), Code(p, ZeroValues(|p.items|)) + [], [], k - 1);
      assert asm.items[..k][..k - 1] == asm.items[..k - 1];
      assert IsPlain(asm.items[k - 1], asm.usedTags) && CountedInFull(p.items[k - 1], p.b, p.d);
    }
  }

  lemma {:induction false} ReferencedWithinCount(asm: Assembly, m: nat)
    requires m <= |asm.data|
    ensures ReferencedBytes(asm, m) <= DataBytes(asm.data[..m])
  {
    if m > 0 {
      ReferencedWithinCount(asm, m - 1);
      assert asm.data[..m][..m - 1] == asm.data[..m - 1];
    }
  }

  /** If references were counted in full, all of them fit. */
  lemma {:induction false} ReferencesFit(asm: Assembly, p: Program, m: nat)
    requires WellFormed(asm) && Layout.Valid(p) && p.items == asm.items && m <= |asm.data|
    requires p.d == ReservedForData(asm, p.b)
    requires forall i :: 0 <= i < |p.items| ==> CountedInFull(p.items[i], p.b, p.d)
    ensures DataPosition(asm, p, m) <= FinalSize(asm, p) < Pow256(p.d)
  {
    StartWithinCount(asm, p, |p.items|);
    assert asm.items[..|p.items|] == asm.items;
    ReferencedWithinCount(asm, |asm.data|);
    assert asm.data[..|asm.data|] == asm.data;
    ReferencedMonotone(asm, m, |asm.data|);
    SignificantBytesBound(Total(asm, p.b) + 1 + |asm.auxiliaryData|);
  }

  lemma {:induction false} ReferencedMonotone(asm: Assembly, m: nat, n: nat)
    requires m <= n <= |asm.data|
    ensures ReferencedBytes(asm, m) <= ReferencedBytes(asm, n)
    decreases n
  {
    if m < n {
      ReferencedMonotone(asm, m, n - 1);
    }
  }

  /** Three references to data, one to the size, and auxiliary data that brings the code to 2^16 bytes. */
  function Overflowing(aux: seq<Byte>): Assembly {
    Assembly([PushData(0), PushData(0), PushData(0), PushProgramSize], 1, map[], [], aux)
  }

  lemma {:induction false} OverflowingCount(aux: seq<Byte>, t: nat)
    ensures Total(Overflowing(aux), t) == 8 + 3 * t
  {
    var one, two, three := [PushData(0)], [PushData(0), PushData(0)], [PushData(0), PushData(0), PushData(0)];
    assert one[..0] == [] && ItemsBytes(one, t) == 1 + t;
    assert two[..1] == one && ItemsBytes(two, t) == 2 + 2 * t;
    assert three[..2] == two && ItemsBytes(three, t) == 3 + 3 * t;
    assert Overflowing(aux).items[..3] == three;
  }

  lemma {:induction false} OverflowingStart(p: Program, k: nat)
    requires Layout.Valid(p) && p.d == 2 && p.items == Overflowing([]).items && k <= 4
    ensures Start(p, k) == 3 * k
  {
    if k == 0 {
      assert Chunks(p, ZeroValues(|p.items|))[..0] == [];
    } else {
      OverflowingStart(p, k - 1);
      ChunkFound(p, ZeroValues(|p.items|), Code(p, ZeroValues(|p.items|)) + [], [], k - 1);
    }
  }

  /** The size is then 2^16, but two bytes are reserved for it: it reads back as zero. */
  lemma {:induction false} SizeTruncated(aux: seq<Byte>, p: Program)
    requires |aux| == 0xfff3 && Layout.Valid(p) && p.items == Overflowing(aux).items
    requires IsTagSize(Overflowing(aux), p.b) && p.d == ReservedForData(Overflowing(aux), p.b)
    ensures WellFormed(Overflowing(aux))
    ensures FinalSize(Overflowing(aux), p) == Pow256(p.d)
  {
    var asm := Overflowing(aux);
    OverflowingCount(aux, 1);
    OverflowingCount(aux, 4);
    OverflowingCount(aux, p.b);
    assert SignificantBytes(11) == 1;
    assert p.b == 1;
    assert SignificantBytes(0xffff) == 2 by {
      assert SignificantBytes(0xff) == 1;
    }
    OverflowingStart(p, 4);
    assert Pow256(2) == 0x1_0000 by {
      assert Pow256(1) == 256;
    }
  }
}
