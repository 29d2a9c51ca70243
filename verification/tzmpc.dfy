/**
 * The example firmware's driver for the TrustZone Memory Protection
 * Controller of the ARM CoreLink SIE-200 (Example/Secure/TzMpcDriver.hpp,
 * Example/Secure/TzMpcDriver.cpp). The controller splits memory into blocks
 * of `2^(BLK_CFG + 5)` bytes and keeps one bit per block in 32-bit lookup-table
 * words ("groups"), selected through the BLK_IDX register; a set bit makes the
 * block Non-Secure.
 *
 * Registers are 32-bit words written here as 32 booleans, bit 0 first. The
 * device is the registers plus the log of the writes the driver issues.
 */
module TzMpc {
  import opened Words

  type Bits = s: seq<bool> | |s| == 32 witness seq(32, _ => false)

  function Zeros(): (r: Bits)
    ensures forall i :: 0 <= i < 32 ==> !r[i]
  {
    seq(32, _ => false)
  }

  function Ones(): (r: Bits)
    ensures forall i :: 0 <= i < 32 ==> r[i]
  {
    seq(32, _ => true)
  }

  function And(a: Bits, b: Bits): (r: Bits)
    ensures forall i :: 0 <= i < 32 ==> r[i] == (a[i] && b[i])
  {
    seq(32, i requires 0 <= i < 32 => a[i] && b[i])
  }

  function Or(a: Bits, b: Bits): (r: Bits)
    ensures forall i :: 0 <= i < 32 ==> r[i] == (a[i] || b[i])
  {
    seq(32, i requires 0 <= i < 32 => a[i] || b[i])
  }

  function Xor(a: Bits, b: Bits): (r: Bits)
    ensures forall i :: 0 <= i < 32 ==> r[i] == (a[i] != b[i])
  {
    seq(32, i requires 0 <= i < 32 => a[i] != b[i])
  }

  function Not(a: Bits): (r: Bits)
    ensures forall i :: 0 <= i < 32 ==> r[i] == !a[i]
  {
    seq(32, i requires 0 <= i < 32 => !a[i])
  }

  /** `x << p`: bit `i` of the result is bit `i - p` of `x`, and zero below `p`. */
  function ShiftLeft(x: Bits, p: nat): (r: Bits)
    requires p < 32
  {
    seq(32, i requires 0 <= i < 32 => i >= p && x[i - p])
  }

  /** `1 << k`. */
  function Single(k: nat): (r: Bits)
    requires k < 32
    ensures forall i :: 0 <= i < 32 ==> r[i] == (i == k)
  {
    ShiftLeft(seq(32, i => i == 0), k)
  }

  /** `U32OnesFromUnchecked`: all ones shifted left by `p`, for `p < 32`. */
  function OnesFromUnchecked(p: nat): (r: Bits)
    requires p < 32
    ensures forall i :: 0 <= i < 32 ==> (r[i] <==> i >= p)
  {
    ShiftLeft(Ones(), p)
  }

  /** `U32OnesFrom`: the bits from `p` upwards set; none when `p` is 32. */
  function OnesFrom(p: nat): (r: Bits)
    requires p <= 32
    ensures forall i :: 0 <= i < 32 ==> (r[i] <==> i >= p)
  {
    if p == 32 then Zeros() else OnesFromUnchecked(p)
  }

  /** The masks `UpdateGroupLut` applies: the new word is `(prev & and) ^ xor`. */
  datatype Masks = Masks(and: Bits, xor: Bits)

  /** What a group word becomes under `masks`. */
  function Apply(prev: Bits, masks: Masks): Bits {
    Xor(And(prev, masks.and), masks.xor)
  }

  /** A rule narrowing the masks to the bits of `filter`, the in-range blocks of a boundary group. */
  type Filter = (Masks, Bits) -> Masks

  /** `FilterMask(andMask, xorMask, filter)` as written: `{andMask & ~filter, xorMask & filter}`. */
  function FilterMask(masks: Masks, filter: Bits): Masks {
    Masks(And(masks.and, Not(filter)), And(masks.xor, filter))
  }

  /** As written, a narrowed update sets in-range bits to the XOR mask and ANDs every other bit with the AND mask. */
  lemma ApplyFilterMask(prev: Bits, masks: Masks, filter: Bits)
    ensures forall i :: 0 <= i < 32 ==>
              Apply(prev, FilterMask(masks, filter))[i] == (if filter[i] then masks.xor[i] else prev[i] && masks.and[i])
  {
  }

  /**
   * The narrowing the callers need: bits of `filter` get the full update and
   * every other bit keeps its value, `{andMask | ~filter, xorMask & filter}`.
   */
  function FilterMaskPreserving(masks: Masks, filter: Bits): Masks {
    Masks(Or(masks.and, Not(filter)), And(masks.xor, filter))
  }

  /** Narrowed this way, in-range bits get the full update and every other bit keeps its value. */
  lemma ApplyFilterMaskPreserving(prev: Bits, masks: Masks, filter: Bits)
    ensures forall i :: 0 <= i < 32 ==>
              Apply(prev, FilterMaskPreserving(masks, filter))[i] == (if filter[i] then Apply(prev, masks)[i] else prev[i])
  {
  }

  // ---------------------------------------------------------------------------
  // The device

  datatype Write = CtrlWrite(value: Bits) | IdxWrite(group: nat) | LutWrite(value: Bits)

  /**
   * CTRL, BLK_CFG, BLK_IDX and the lookup table, with the writes issued so
   * far and, separately, the values written to BLK_IDX in order.
   */
  datatype Mpc = Mpc(ctrl: Bits, blkCfg: word, idx: nat, lut: nat -> Bits, log: seq<Write>, seeks: seq<nat>)

  function WriteCtrl(m: Mpc, v: Bits): Mpc {
    m.(ctrl := v, log := m.log + [CtrlWrite(v)])
  }

  /** Set or clear one CTRL bit by read-modify-write, as both CTRL setters do. */
  function SetCtrlBit(m: Mpc, k: nat, e: bool): Mpc
    requires k < 32
  {
    WriteCtrl(m, if e then Or(m.ctrl, Single(k)) else And(m.ctrl, Not(Single(k))))
  }

  /** `SetEnableBusError`: bit 4 of CTRL becomes `e`; every other bit is kept. */
  function SetEnableBusError(m: Mpc, e: bool): (r: Mpc)
    ensures r.ctrl[4] == e && forall i :: 0 <= i < 32 && i != 4 ==> r.ctrl[i] == m.ctrl[i]
    ensures r.log == m.log + [CtrlWrite(r.ctrl)] && r.idx == m.idx && r.lut == m.lut && r.seeks == m.seeks
  {
    SetCtrlBit(m, 4, e)
  }

  /** `SetEnableAutoIncrement`: bit 8 of CTRL becomes `e`; every other bit is kept. */
  function SetEnableAutoIncrement(m: Mpc, e: bool): (r: Mpc)
    ensures r.ctrl[8] == e && forall i :: 0 <= i < 32 && i != 8 ==> r.ctrl[i] == m.ctrl[i]
    ensures r.log == m.log + [CtrlWrite(r.ctrl)] && r.idx == m.idx && r.lut == m.lut && r.seeks == m.seeks
  {
    SetCtrlBit(m, 8, e)
  }

  /** `GetBlockSizeShift`: BLK_CFG plus 5, in 32-bit arithmetic. */
  function BlockSizeShift(m: Mpc): word {
    AddW(m.blkCfg, 5)
  }

  function SeekToGroup(m: Mpc, g: nat): Mpc {
    m.(idx := g, log := m.log + [IdxWrite(g)], seeks := m.seeks + [g])
  }

  /** `UpdateGroupLut`: read the selected group word, mask it, and write it back. */
  function UpdateGroupLut(m: Mpc, masks: Masks): (r: Mpc)
    ensures r.lut(m.idx) == Apply(m.lut(m.idx), masks)
    ensures forall g: nat :: g != m.idx ==> r.lut(g) == m.lut(g)
    ensures r.idx == m.idx && r.ctrl == m.ctrl && r.log == m.log + [LutWrite(r.lut(m.idx))] && r.seeks == m.seeks
  {
    var v := Apply(m.lut(m.idx), masks);
    m.(lut := g => if g == m.idx then v else m.lut(g), log := m.log + [LutWrite(v)])
  }

  // ---------------------------------------------------------------------------
  // `UpdateRange`

  /** `n` consecutive group numbers from `g`. */
  function Consecutive(g: nat, n: nat): (r: seq<nat>)
    ensures |r| == n
    decreases n
  {
    if n == 0 then [] else [g] + Consecutive(g + 1, n - 1)
  }

  /** The loop over the groups strictly inside the range: each gets the unnarrowed update. */
  function FullGroups(m: Mpc, group: nat, endGroup: nat, masks: Masks): (r: Mpc)
    requires m.idx == group
    ensures r.ctrl == m.ctrl && r.idx == if group < endGroup then endGroup else group
    decreases endGroup - group
  {
    if group >= endGroup then m
    else FullGroups(SeekToGroup(UpdateGroupLut(m, masks), group + 1), group + 1, endGroup, masks)
  }

  /** The loop gives each group from `group` up to, not including, `endGroup` the plain update, and no other. */
  lemma {:induction false} FullGroupsLut(m: Mpc, group: nat, endGroup: nat, masks: Masks, g: nat)
    requires m.idx == group
    ensures FullGroups(m, group, endGroup, masks).lut(g)
            == if group <= g < endGroup then Apply(m.lut(g), masks) else m.lut(g)
    decreases endGroup - group
  {
    if group < endGroup {
      var m1 := SeekToGroup(UpdateGroupLut(m, masks), group + 1);
      FullGroupsLut(m1, group + 1, endGroup, masks, g);
    }
  }

  /** The loop seeks to each following group in turn, up to the end group. */
  lemma {:induction false} FullGroupsSeeks(m: Mpc, group: nat, endGroup: nat, masks: Masks)
    requires m.idx == group
    ensures FullGroups(m, group, endGroup, masks).seeks
            == m.seeks + Consecutive(group + 1, if group < endGroup then endGroup - group else 0)
    decreases endGroup - group
  {
    if group < endGroup {
      var m1 := FullGroupsStep(m, group, endGroup, masks);
      FullGroupsSeeks(m1, group + 1, endGroup, masks);
      ConsecutiveAppend(m.seeks, group + 1, 1, endGroup - group);
    }
  }

  /** The loop only appends to the log. */
  lemma {:induction false} FullGroupsLog(m: Mpc, group: nat, endGroup: nat, masks: Masks)
    requires m.idx == group
    ensures m.log <= FullGroups(m, group, endGroup, masks).log
    decreases endGroup - group
  {
    if group < endGroup {
      var m1 := FullGroupsStep(m, group, endGroup, masks);
      FullGroupsLog(m1, group + 1, endGroup, masks);
    }
  }

  /** One turn of the loop: update the selected group, then seek to the next. */
  lemma FullGroupsStep(m: Mpc, group: nat, endGroup: nat, masks: Masks) returns (m1: Mpc)
    requires m.idx == group < endGroup
    ensures m1.idx == group + 1 && m1.seeks == m.seeks + Consecutive(group + 1, 1) && m.log <= m1.log
    ensures FullGroups(m, group, endGroup, masks) == FullGroups(m1, group + 1, endGroup, masks)
  {
    m1 := SeekToGroup(UpdateGroupLut(m, masks), group + 1);
    assert Consecutive(group + 1, 1) == [group + 1];
  }


  /**
   * `UpdateRange`, with the narrowing of the boundary groups as a parameter:
   * both bounds become block numbers; an empty range writes nothing.
   * Otherwise auto-increment is turned off, and the start group, every group
   * strictly inside, and the end group when the range does not end on its
   * first block are updated in ascending order. The shift must stay below 32:
   * a wider shift is undefined in C.
   */
  function UpdateRangeWith(m: Mpc, start: word, end: word, masks: Masks, filter: Filter): (r: Mpc)
    requires BlockSizeShift(m) < 32
  {
    UpdateBlocks(m, Blocks(m, start, end).0, Blocks(m, start, end).1, masks, filter)
  }

  /** `UpdateRange` once both bounds are block numbers. */
  function UpdateBlocks(m: Mpc, s: nat, e: nat, masks: Masks, filter: Filter): (r: Mpc) {
    if s >= e then m
    else
      var sg := s / 32;
      var eg := e / 32;
      var m1 := Begin(m, sg);
      if sg == eg then UpdateGroupLut(m1, filter(masks, Xor(OnesFrom(s % 32), OnesFrom(e % 32))))
      else Rest(Head(m1, s, masks, filter), e, masks, filter)
  }

  /** The start group of a range that spans several groups, updated only when the range does not start on its first block. */
  function Head(m: Mpc, s: nat, masks: Masks, filter: Filter): (r: Mpc) {
    if s % 32 != 0 then StartGroup(m, s, masks, filter) else m
  }

  /**
   * The rest of a range that spans several groups, from the first group it
   * covers fully: the loop over the full groups, then the end group when the
   * range does not end on its first block.
   */
  function Rest(m: Mpc, e: nat, masks: Masks, filter: Filter): (r: Mpc) {
    var m3 := FullGroups(m, m.idx, e / 32, masks);
    if e % 32 != 0 then UpdateGroupLut(m3, filter(masks, Not(OnesFrom(e % 32)))) else m3
  }

  /** The first two writes of a non-empty update: auto-increment off, then seek to the start group. */
  function Begin(m: Mpc, sg: nat): (r: Mpc)
    ensures r.idx == sg && r.lut == m.lut
    ensures r.log == m.log + [CtrlWrite(SetEnableAutoIncrement(m, false).ctrl), IdxWrite(sg)]
    ensures r.seeks == m.seeks + [sg]
  {
    SeekToGroup(SetEnableAutoIncrement(m, false), sg)
  }

  /** A start group the range only partly covers: update its in-range bits and seek to the next group. */
  function StartGroup(m: Mpc, s: nat, masks: Masks, filter: Filter): (r: Mpc)
    ensures r.log == m.log + [LutWrite(r.lut(m.idx)), IdxWrite(m.idx + 1)] && r.seeks == m.seeks + [m.idx + 1]
    ensures r.idx == m.idx + 1 && r.lut(m.idx) == Apply(m.lut(m.idx), filter(masks, OnesFrom(s % 32)))
    ensures forall g: nat :: g != m.idx ==> r.lut(g) == m.lut(g)
  {
    SeekToGroup(UpdateGroupLut(m, filter(masks, OnesFrom(s % 32))), m.idx + 1)
  }

  /** The block range `[s, e)` the byte range covers. */
  function Blocks(m: Mpc, start: word, end: word): (nat, nat)
    requires BlockSizeShift(m) < 32
  {
    (ShiftRight(start, BlockSizeShift(m)), ShiftRight(end, BlockSizeShift(m)))
  }

  /** `x >> k` on a natural. */
  function ShiftRight(x: nat, k: nat): (r: nat)
    ensures r <= x
  {
    if k == 0 then x else ShiftRight(x / 2, k - 1)
  }

  /** The lookup-table words a bound narrows: the groups the range only partly covers. */
  predicate Boundary(s: nat, e: nat, g: nat) {
    var sg := s / 32;
    var eg := e / 32;
    (g == sg && s % 32 != 0) || (g == eg && e % 32 != 0 && sg < eg) || (g == sg && sg == eg)
  }

  /**
   * Which words `UpdateBlocks` writes, and with what: groups below the
   * start group and above the end group, and the end group when the range
   * ends on its first block, are never written; a boundary group gets the
   * narrowed masks for its in-range bits; every other group in between gets
   * the plain masks.
   */
  lemma UpdateBlocksWords(m: Mpc, s: nat, e: nat, masks: Masks, filter: Filter, g: nat)
    ensures var r := UpdateBlocks(m, s, e, masks, filter);
            r.lut(g) == (if s >= e || g < s / 32 || g > e / 32 || (g == e / 32 && e % 32 == 0 && s / 32 < e / 32) then m.lut(g)
                         else if Boundary(s, e, g) then Apply(m.lut(g), filter(masks, InRange(s, e, g)))
                         else Apply(m.lut(g), masks))
  {
    if s < e {
      var sg := s / 32;
      var eg := e / 32;
      if sg == eg {
        InRangeSingle(s, e);
      } else {
        ManyGroupsIsRest(m, s, e, masks, filter);
        var m2 := Head(Begin(m, sg), s, masks, filter);
        FullGroupsLut(m2, m2.idx, eg, masks, g);
        if s % 32 != 0 {
          InRangeStart(s, e);
        }
        if e % 32 != 0 {
          InRangeEnd(s, e);
        }
      }
    }
  }

  /** The bits of group `g` whose blocks lie in `[s, e)`. */
  function InRange(s: nat, e: nat, g: nat): (r: Bits)
    ensures forall b :: 0 <= b < 32 ==> (r[b] <==> s <= 32 * g + b < e)
  {
    seq(32, b requires 0 <= b < 32 => s <= 32 * g + b < e)
  }

  lemma InRangeSingle(s: nat, e: nat)
    requires s < e && s / 32 == e / 32
    ensures Xor(OnesFrom(s % 32), OnesFrom(e % 32)) == InRange(s, e, s / 32)
  {
  }

  lemma InRangeStart(s: nat, e: nat)
    requires s / 32 < e / 32
    ensures OnesFrom(s % 32) == InRange(s, e, s / 32)
  {
  }

  lemma InRangeEnd(s: nat, e: nat)
    requires s / 32 < e / 32
    ensures Not(OnesFrom(e % 32)) == InRange(s, e, e / 32)
  {
  }

  /** Block `32 * g + b` lies in `[s, e)`. */
  predicate Covered(s: nat, e: nat, g: nat, b: nat) {
    s <= 32 * g + b < e
  }

  /** `UpdateRange` as written, narrowing the boundary groups with `FilterMask`. */
  function UpdateRange(m: Mpc, start: word, end: word, masks: Masks): Mpc
    requires BlockSizeShift(m) < 32
  {
    UpdateRangeWith(m, start, end, masks, FilterMask)
  }

  /** `UpdateRange` with the boundary groups narrowed by `FilterMaskPreserving`. */
  function UpdateRangeFixed(m: Mpc, start: word, end: word, masks: Masks): Mpc
    requires BlockSizeShift(m) < 32
  {
    UpdateRangeWith(m, start, end, masks, FilterMaskPreserving)
  }

  /**
   * The writes of `UpdateBlocks`: an empty range changes nothing;
   * otherwise the first write turns auto-increment off, and BLK_IDX is then
   * set to each group from the start group to the end group, once each, in
   * ascending order.
   */
  lemma UpdateBlocksWrites(m: Mpc, s: nat, e: nat, masks: Masks, filter: Filter)
    ensures var r := UpdateBlocks(m, s, e, masks, filter);
            (s >= e ==> r == m)
            && (s < e ==> m.log < r.log
                          && r.log[|m.log|] == CtrlWrite(SetEnableAutoIncrement(m, false).ctrl)
                          && r.seeks == m.seeks + Consecutive(s / 32, e / 32 - s / 32 + 1))
  {
    if s < e {
      UpdateBlocksSeeks(m, s, e, masks, filter);
      UpdateBlocksLog(m, s, e, masks, filter);
      var b := Begin(m, s / 32);
      assert b.log[|m.log|] == CtrlWrite(SetEnableAutoIncrement(m, false).ctrl);
    }
  }

  lemma UpdateBlocksLog(m: Mpc, s: nat, e: nat, masks: Masks, filter: Filter)
    requires s < e
    ensures Begin(m, s / 32).log <= UpdateBlocks(m, s, e, masks, filter).log
  {
    var m1 := Begin(m, s / 32);
    if s / 32 < e / 32 {
      var m2 := Head(m1, s, masks, filter);
      assert UpdateBlocks(m, s, e, masks, filter) == Rest(m2, e, masks, filter);
      FullGroupsLog(m2, m2.idx, e / 32, masks);
    }
  }

  lemma UpdateBlocksSeeks(m: Mpc, s: nat, e: nat, masks: Masks, filter: Filter)
    requires s < e
    ensures UpdateBlocks(m, s, e, masks, filter).seeks == m.seeks + Consecutive(s / 32, e / 32 - s / 32 + 1)
  {
    if s / 32 == e / 32 {
      assert Consecutive(s / 32, 1) == [s / 32];
    } else {
      ManyGroupsIsRest(m, s, e, masks, filter);
      ManyGroupsSeeks(m, s, e, masks, filter);
    }
  }

  lemma ManyGroupsSeeks(m: Mpc, s: nat, e: nat, masks: Masks, filter: Filter)
    requires s / 32 < e / 32
    ensures Rest(Head(Begin(m, s / 32), s, masks, filter), e, masks, filter).seeks
            == m.seeks + Consecutive(s / 32, e / 32 - s / 32 + 1)
  {
    var sg := s / 32;
    var k := if s % 32 != 0 then 2 else 1;
    var m2 := Head(Begin(m, sg), s, masks, filter);
    var n := e / 32 - sg + 1;
    HeadSeeks(m, s, masks, filter);
    assert m2.idx + 1 == sg + k && e / 32 - m2.idx == n - k;
    RestSeeks(m2, e, masks, filter);
    assert Consecutive(m2.idx + 1, e / 32 - m2.idx) == Consecutive(sg + k, n - k);
    ConsecutiveAppend(m.seeks, sg, k, n);
  }

  lemma ManyGroupsIsRest(m: Mpc, s: nat, e: nat, masks: Masks, filter: Filter)
    requires s < e && s / 32 < e / 32
    ensures UpdateBlocks(m, s, e, masks, filter) == Rest(Head(Begin(m, s / 32), s, masks, filter), e, masks, filter)
  {
  }

  lemma HeadSeeks(m: Mpc, s: nat, masks: Masks, filter: Filter)
    ensures var k := if s % 32 != 0 then 2 else 1;
            var r := Head(Begin(m, s / 32), s, masks, filter);
            r.seeks == m.seeks + Consecutive(s / 32, k) && r.idx == s / 32 + k - 1
  {
    var k := if s % 32 != 0 then 2 else 1;
    assert Consecutive(s / 32, k) == if k == 2 then [s / 32, s / 32 + 1] else [s / 32];
  }

  lemma RestSeeks(m: Mpc, e: nat, masks: Masks, filter: Filter)
    requires m.idx <= e / 32
    ensures Rest(m, e, masks, filter).seeks == m.seeks + Consecutive(m.idx + 1, e / 32 - m.idx)
  {
    FullGroupsSeeks(m, m.idx, e / 32, masks);
  }

  lemma ConsecutiveAppend(a: seq<nat>, g: nat, k: nat, n: nat)
    requires k <= n
    ensures a + Consecutive(g, k) + Consecutive(g + k, n - k) == a + Consecutive(g, n)
  {
    ConsecutiveSplit(g, k, n);
    assert a + Consecutive(g, k) + Consecutive(g + k, n - k) == a + (Consecutive(g, k) + Consecutive(g + k, n - k));
  }

  lemma {:induction false} ConsecutiveSplit(g: nat, k: nat, n: nat)
    requires k <= n
    ensures Consecutive(g, k) + Consecutive(g + k, n - k) == Consecutive(g, n)
    decreases k
  {
    if k > 0 {
      ConsecutiveSplit(g + 1, k - 1, n - 1);
    }
  }

  /** Where block `32 * g + b` lies relative to the groups `UpdateBlocks` writes. */
  lemma CoveredGroups(s: nat, e: nat, g: nat, b: nat)
    requires b < 32
    ensures s >= e || g < s / 32 || g > e / 32 || (g == e / 32 && e % 32 == 0) ==> !Covered(s, e, g, b)
    ensures s < e && s / 32 < g < e / 32 ==> Covered(s, e, g, b)
    ensures s < e && g == s / 32 && s % 32 == 0 && s / 32 < e / 32 ==> Covered(s, e, g, b)
  {
  }

  /**
   * `UpdateBlocks` with the corrected narrowing changes exactly the blocks of
   * `[s, e)`: each of them gets the update, every other block keeps its bit.
   */
  lemma UpdateBlocksFixedBits(m: Mpc, s: nat, e: nat, masks: Masks, g: nat, b: nat)
    requires b < 32
    ensures UpdateBlocks(m, s, e, masks, FilterMaskPreserving).lut(g)[b]
            == if Covered(s, e, g, b) then Apply(m.lut(g), masks)[b] else m.lut(g)[b]
  {
    UpdateBlocksWords(m, s, e, masks, FilterMaskPreserving, g);
    CoveredGroups(s, e, g, b);
    if s < e && Boundary(s, e, g) {
      ApplyFilterMaskPreserving(m.lut(g), masks, InRange(s, e, g));
    }
  }

  /**
   * `UpdateBlocks` as written: the groups the range covers fully get the
   * update; in a boundary group the in-range blocks are set to the XOR mask
   * and every other block is ANDed with the AND mask instead of keeping its
   * bit.
   */
  lemma UpdateBlocksBits(m: Mpc, s: nat, e: nat, masks: Masks, g: nat, b: nat)
    requires b < 32
    ensures UpdateBlocks(m, s, e, masks, FilterMask).lut(g)[b]
            == if s < e && Boundary(s, e, g) then (if Covered(s, e, g, b) then masks.xor[b] else m.lut(g)[b] && masks.and[b])
               else if Covered(s, e, g, b) then Apply(m.lut(g), masks)[b]
               else m.lut(g)[b]
  {
    UpdateBlocksWords(m, s, e, masks, FilterMask, g);
    CoveredGroups(s, e, g, b);
    if s < e && Boundary(s, e, g) {
      ApplyFilterMask(m.lut(g), masks, InRange(s, e, g));
    }
  }

  /** `UpdateRange` with the corrected narrowing, bit by bit, in terms of the byte range. */
  lemma UpdateRangeFixedBits(m: Mpc, start: word, end: word, masks: Masks, g: nat, b: nat)
    requires BlockSizeShift(m) < 32 && b < 32
    ensures var (s, e) := Blocks(m, start, end);
            UpdateRangeFixed(m, start, end, masks).lut(g)[b]
            == if Covered(s, e, g, b) then Apply(m.lut(g), masks)[b] else m.lut(g)[b]
  {
    UpdateBlocksFixedBits(m, Blocks(m, start, end).0, Blocks(m, start, end).1, masks, g, b);
  }

  /** `UpdateRange` as written, bit by bit, in terms of the byte range. */
  lemma UpdateRangeBits(m: Mpc, start: word, end: word, masks: Masks, g: nat, b: nat)
    requires BlockSizeShift(m) < 32 && b < 32
    ensures var (s, e) := Blocks(m, start, end);
            UpdateRange(m, start, end, masks).lut(g)[b]
            == if s < e && Boundary(s, e, g) then (if Covered(s, e, g, b) then masks.xor[b] else m.lut(g)[b] && masks.and[b])
               else if Covered(s, e, g, b) then Apply(m.lut(g), masks)[b]
               else m.lut(g)[b]
  {
    UpdateBlocksBits(m, Blocks(m, start, end).0, Blocks(m, start, end).1, masks, g, b);
  }

  /**
   * The corrected `UpdateRange` issues the source's writes to CTRL and
   * BLK_IDX, in the same order (`UpdateBlocksWrites` holds for either
   * narrowing): nothing for an empty range, else auto-increment off first and
   * then each group from the start group to the end group once, ascending.
   */
  lemma UpdateRangeWrites(m: Mpc, start: word, end: word, masks: Masks)
    requires BlockSizeShift(m) < 32
    ensures var (s, e) := Blocks(m, start, end);
            var r := UpdateRangeFixed(m, start, end, masks);
            (s >= e ==> r == m)
            && (s < e ==> m.log < r.log
                          && r.log[|m.log|] == CtrlWrite(SetEnableAutoIncrement(m, false).ctrl)
                          && r.seeks == m.seeks + Consecutive(s / 32, e / 32 - s / 32 + 1))
  {
    UpdateBlocksWrites(m, Blocks(m, start, end).0, Blocks(m, start, end).1, masks, FilterMaskPreserving);
  }

  lemma UpdateRangeFixedAll(m: Mpc, start: word, end: word, masks: Masks)
    requires BlockSizeShift(m) < 32
    ensures forall g: nat, b :: 0 <= b < 32 ==>
              UpdateRangeFixed(m, start, end, masks).lut(g)[b]
              == if Covered(Blocks(m, start, end).0, Blocks(m, start, end).1, g, b) then Apply(m.lut(g), masks)[b]
                 else m.lut(g)[b]
  {
    forall g: nat, b | 0 <= b < 32
      ensures UpdateRangeFixed(m, start, end, masks).lut(g)[b]
              == if Covered(Blocks(m, start, end).0, Blocks(m, start, end).1, g, b) then Apply(m.lut(g), masks)[b]
                 else m.lut(g)[b]
    {
      UpdateRangeFixedBits(m, start, end, masks, g, b);
    }
  }

  /**
   * `AssignRangeToNonSecure`: the blocks of the range become Non-Secure and
   * every other block keeps its attribute. Built on the corrected narrowing;
   * on a group-aligned range it is the update as written
   * (`AlignedRangeAgrees`).
   */
  function AssignRangeToNonSecure(m: Mpc, start: word, end: word): (r: Mpc)
    requires BlockSizeShift(m) < 32
    ensures forall g: nat, b :: 0 <= b < 32 ==>
              (r.lut(g)[b] <==> Covered(Blocks(m, start, end).0, Blocks(m, start, end).1, g, b) || m.lut(g)[b])
  {
    UpdateRangeFixedAll(m, start, end, Masks(Zeros(), Ones()));
    UpdateRangeFixed(m, start, end, Masks(Zeros(), Ones()))
  }

  /**
   * `AssignRangeToSecure`: the blocks of the range become Secure and every
   * other block keeps its attribute. Built on the corrected narrowing, like
   * `AssignRangeToNonSecure`.
   */
  function AssignRangeToSecure(m: Mpc, start: word, end: word): (r: Mpc)
    requires BlockSizeShift(m) < 32
    ensures forall g: nat, b :: 0 <= b < 32 ==>
              (r.lut(g)[b] <==> !Covered(Blocks(m, start, end).0, Blocks(m, start, end).1, g, b) && m.lut(g)[b])
  {
    UpdateRangeFixedAll(m, start, end, Masks(Zeros(), Zeros()));
    UpdateRangeFixed(m, start, end, Masks(Zeros(), Zeros()))
  }

  /**
   * When both ends of the block range are group-aligned no group is narrowed,
   * so the update as written and the corrected one agree exactly, writes
   * included, and so do both `AssignRange` operations with it.
   */
  lemma AlignedRangeAgrees(m: Mpc, start: word, end: word)
    requires BlockSizeShift(m) < 32
    requires Blocks(m, start, end).0 % 32 == 0 && Blocks(m, start, end).1 % 32 == 0
    ensures forall masks :: UpdateRange(m, start, end, masks) == UpdateRangeFixed(m, start, end, masks)
    ensures AssignRangeToNonSecure(m, start, end) == UpdateRange(m, start, end, Masks(Zeros(), Ones()))
    ensures AssignRangeToSecure(m, start, end) == UpdateRange(m, start, end, Masks(Zeros(), Zeros()))
  {
    var (s, e) := Blocks(m, start, end);
    if s < e {
      MultiplesApart(s, e, 32);
      assert s / 32 < e / 32;
    }
  }

  /** Shifting `c * 2^(j + k)` right by `k` gives `c * 2^j`. */
  lemma {:induction false} ShiftRightMultiple(c: nat, j: nat, k: nat)
    ensures ShiftRight(c * Pow2(j + k), k) == c * Pow2(j)
    decreases k
  {
    if k > 0 {
      assert c * Pow2(j + k) == 2 * (c * Pow2(j + k - 1));
      ShiftRightMultiple(c, j, k - 1);
    }
  }

  /**
   * The two ranges the example firmware assigns, `[0x20_0000, 0x40_0000)` and
   * `[0, 0x20_0000)`, are group-aligned for every block size up to 64 KiB
   * (BLK_CFG at most 11), so there the corrected update is the one the
   * firmware performs.
   */
  lemma FirmwareRangesAligned(m: Mpc)
    requires m.blkCfg <= 11
    ensures AssignRangeToNonSecure(m, 0x20_0000, 0x40_0000) == UpdateRange(m, 0x20_0000, 0x40_0000, Masks(Zeros(), Ones()))
    ensures AssignRangeToNonSecure(m, 0, 0x20_0000) == UpdateRange(m, 0, 0x20_0000, Masks(Zeros(), Ones()))
  {
    var k: nat := m.blkCfg + 5;
    assert BlockSizeShift(m) == k;
    GroupAlignedShift(0, k);
    GroupAlignedShift(1, k);
    GroupAlignedShift(2, k);
    assert Blocks(m, 0x20_0000, 0x40_0000) == (ShiftRight(1 * 0x20_0000, k), ShiftRight(2 * 0x20_0000, k));
    assert Blocks(m, 0, 0x20_0000) == (ShiftRight(0 * 0x20_0000, k), ShiftRight(1 * 0x20_0000, k));
    AlignedRangeAgrees(m, 0x20_0000, 0x40_0000);
    AlignedRangeAgrees(m, 0, 0x20_0000);
  }

  /** A multiple of 2 MiB shifted right by 5 to 16 bits is still a multiple of 32. */
  lemma GroupAlignedShift(c: nat, k: nat)
    requires 5 <= k <= 16
    ensures ShiftRight(c * 0x20_0000, k) % 32 == 0
  {
    var j: nat := 21 - k;
    TwoMiB();
    ShiftRightMultiple(c, j, k);
    Pow2AboveFive(j);
    MultipleOf32(c, Pow2(j - 5));
  }

  lemma TwoMiB()
    ensures Pow2(21) == 0x20_0000
  {
    assert Pow2(5) == 32;
    Pow2Add(5, 5);
    Pow2Add(10, 10);
    assert Pow2(21) == 2 * Pow2(20);
  }

  lemma Pow2AboveFive(j: nat)
    requires j >= 5
    ensures Pow2(j) == 32 * Pow2(j - 5)
  {
    Pow2Add(j - 5, 5);
  }

  lemma MultipleOf32(c: nat, p: nat)
    ensures (c * (32 * p)) % 32 == 0
  {
    assert c * (32 * p) == 32 * (c * p);
    ModUnique(c * (32 * p), 32, c * p, 0);
  }

  /**
   * The discrepancy, concretely: with 32-byte blocks (BLK_CFG 0) and every
   * block of group 0 Non-Secure, assigning bytes `[32, 64)` (block 1 only) to
   * Non-Secure as written makes block 0 Secure; the corrected update leaves
   * it Non-Secure.
   */
  lemma AssignNonSecureAsWrittenClearsNeighbour(m: Mpc)
    requires m.blkCfg == 0 && m.lut(0) == Ones()
    ensures !UpdateRange(m, 32, 64, Masks(Zeros(), Ones())).lut(0)[0]
    ensures AssignRangeToNonSecure(m, 32, 64).lut(0)[0]
  {
    assert Blocks(m, 32, 64) == (1, 2);
    UpdateRangeBits(m, 32, 64, Masks(Zeros(), Ones()), 0, 0);
  }
}
