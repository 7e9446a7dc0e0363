/** One traced page on the heap: the tree node, its tail queue of block entries, and the 38-record
    arrays the entries point to. */
module Chain {
  import opened TraceSpec

  class RecBlockEntry {
    var recArr: array?<MemRec>
    var next: RecBlockEntry?
    var prev: RecBlockEntry?

    /** Fresh from malloc. */
    constructor ()
    {
      recArr := null;
      next, prev := null, null;
    }
  }

  class TailHead {
    var first: RecBlockEntry?
    var last: RecBlockEntry?

    constructor ()
    {
      first, last := null, null;
    }
  }

  class RecTreeNode {
    var pageNum: nat
    var listHead: TailHead?
    var recModEntry: RecBlockEntry?
    var memRecIdx: nat
    /** The blocks from the oldest to the newest, their arrays, and the records they hold. */
    ghost var chain: seq<RecBlockEntry>
    ghost var arrs: seq<array<MemRec>>
    ghost var recs: seq<MemRec>
    /** recs, and behind them what ts_memcpy_traced has cut off but left in the blocks. */
    ghost var slots: seq<MemRec>

    constructor ()
    {
      pageNum, memRecIdx := 0, 0;
      listHead, recModEntry := null, null;
      chain, arrs, recs, slots := [], [], [], [];
    }

    /** The tail queue: newest block first, linked both ways, no block or array twice. */
    ghost predicate Linked()
      reads `chain, `arrs, `listHead, listHead, chain
    {
      && listHead != null && |chain| == |arrs| >= 1
      && (forall i :: 0 <= i < |chain| ==> chain[i].recArr == arrs[i] && arrs[i].Length == MEMRECPERENTRY)
      && (forall i, j :: 0 <= i < j < |chain| ==> chain[i] != chain[j])
      && (forall i, j :: 0 <= i < j < |arrs| ==> arrs[i] != arrs[j])
      && chain[0].next == null && chain[|chain| - 1].prev == null
      && (forall i {:trigger chain[i].next} :: 1 <= i < |chain| ==> chain[i].next == chain[i - 1])
      && (forall i {:trigger chain[i].prev} :: 0 <= i < |chain| - 1 ==> chain[i].prev == chain[i + 1])
      && listHead.first == chain[|chain| - 1] && listHead.last == chain[0]
    }

    /** recModEntry is the head; every other block is full. */
    ghost predicate Tallied()
      reads this
    {
      && |chain| >= 1 && recModEntry == chain[|chain| - 1]
      && memRecIdx <= MEMRECPERENTRY && (|chain| > 1 ==> memRecIdx >= 1)
      && |recs| == MEMRECPERENTRY * (|chain| - 1) + memRecIdx && recs <= slots
      && |slots| <= MEMRECPERENTRY * |chain|
    }

    /** Slot k is in block k / 38. */
    ghost predicate Holds()
      reads this, arrs
    {
      forall i, j :: 0 <= i < |arrs| && 0 <= j < arrs[i].Length && MEMRECPERENTRY * i + j < |slots| ==>
        arrs[i][j] == slots[MEMRECPERENTRY * i + j]
    }

    ghost predicate Valid()
      reads this, listHead, chain, arrs
    {
      Linked() && Tallied() && Holds()
    }

    /** The page consists of objects among objs. */
    ghost predicate Within(objs: set<object>)
      reads this
    {
      && this in objs && listHead != null && listHead in objs
      && (forall e :: e in chain ==> e in objs) && (forall a :: a in arrs ==> a in objs)
    }

    /** A page of which nothing was written is as it was. */
    twostate lemma Untouched(kept: set<object>)
      requires old(Valid() && Within(kept)) && unchanged(kept)
      ensures unchanged(this) && Valid()
    {
    }

    /** The array records are appended to. */
    ghost function BlockArray(): (arr: array<MemRec>)
      requires Valid()
      reads this, listHead, chain, arrs
      ensures recModEntry != null && recModEntry in chain && recModEntry.recArr == arr && arr in arrs
    {
      arrs[|arrs| - 1]
    }

    /** The test of insertRec: the address that arrives is not larger than the last one. */
    predicate NotLarger(offset: nat)
      requires Valid()
      reads this, listHead, chain, arrs
      ensures NotLarger(offset) <==> recs != [] && recs[|recs| - 1].pageOffset >= offset
    {
      assert memRecIdx > 0 ==> recs[|recs| - 1] == arrs[|arrs| - 1][memRecIdx - 1];
      memRecIdx > 0 && recModEntry.recArr[memRecIdx - 1].pageOffset >= offset
    }

    /** writeRec, index below the block size. */
    method Append(rec: MemRec)
      requires Valid() && memRecIdx < MEMRECPERENTRY
      modifies `memRecIdx, `recs, `slots, recModEntry.recArr
      ensures Valid() && recs == old(recs) + [rec]
    {
      recModEntry.recArr[memRecIdx] := rec;
      memRecIdx := memRecIdx + 1;
      recs := recs + [rec];
      slots := recs;
    }

    /** TAILQ_INSERT_HEAD of a new block. */
    method InsertHead(rbe: RecBlockEntry, recArr: array<MemRec>)
      requires Linked() && rbe !in chain && recArr !in arrs && recArr.Length == MEMRECPERENTRY
      modifies `chain, `arrs, listHead, rbe, listHead.first
      ensures Linked() && chain == old(chain) + [rbe] && arrs == old(arrs) + [recArr]
    {
      rbe.recArr := recArr;
      rbe.next := listHead.first;
      rbe.prev := null;
      listHead.first.prev := rbe;
      listHead.first := rbe;
      chain := chain + [rbe];
      arrs := arrs + [recArr];
    }

    /** writeRec, block full: the record starts a new block. */
    method PushBlock(rbe: RecBlockEntry, recArr: array<MemRec>, rec: MemRec)
      requires Valid() && memRecIdx == MEMRECPERENTRY
      requires rbe !in chain && recArr !in arrs && recArr.Length == MEMRECPERENTRY
      modifies this, listHead, rbe, recArr, recModEntry
      ensures Valid() && recs == old(recs) + [rec]
      ensures chain == old(chain) + [rbe] && arrs == old(arrs) + [recArr]
      ensures pageNum == old(pageNum) && listHead == old(listHead)
    {
      hide Linked;
      HeadOfQueue();
      FullBlocks();
      InsertHead(rbe, recArr);
      recModEntry := rbe;
      recArr[0] := rec;
      memRecIdx := 1;
      recs := recs + [rec];
      slots := recs;
    }

    lemma FullBlocks()
      requires Valid()
      ensures |arrs| == |chain| && forall i :: 0 <= i < |arrs| ==> arrs[i].Length == MEMRECPERENTRY
    {
    }

    /** addTreeNode: a page with one empty block. */
    method Init(page: nat, head: TailHead, ent: RecBlockEntry, recArr: array<MemRec>)
      requires recArr.Length == MEMRECPERENTRY
      modifies this, head, ent
      ensures Valid() && recs == [] && memRecIdx == 0
      ensures chain == [ent] && arrs == [recArr] && pageNum == page && listHead == head
    {
      ent.recArr := recArr;
      ent.next, ent.prev := null, null;
      head.first, head.last := ent, ent;
      pageNum := page;
      listHead := head;
      recModEntry := ent;
      memRecIdx := 0;
      chain, arrs, recs, slots := [ent], [recArr], [], [];
    }

    /** TAILQ_REMOVE of the first entry, when it is not the only one. */
    method RemoveFirst()
      requires Linked() && |chain| > 1
      modifies `chain, `arrs, listHead, chain[|chain| - 2]
      ensures Linked() && chain == old(chain[..|chain| - 1]) && arrs == old(arrs[..|arrs| - 1])
    {
      listHead.first.next.prev := null;
      listHead.first := listHead.first.next;
      chain := chain[..|chain| - 1];
      arrs := arrs[..|arrs| - 1];
    }

    /** What a walk from the head sees first. */
    lemma HeadOfQueue()
      requires Linked()
      ensures listHead != null && |chain| == |arrs| >= 1 && listHead.first == chain[|chain| - 1]
      ensures listHead.first.next == if |chain| == 1 then null else chain[|chain| - 2]
    {
    }

    /** Block b, its array, its records and the link to the next newer block. */
    lemma BlockFacts(b: nat)
      requires Valid() && b < |chain|
      ensures chain[b].recArr == arrs[b] && arrs[b].Length == MEMRECPERENTRY
      ensures chain[b] == recModEntry <==> b == |chain| - 1
      ensures chain[b].prev == if b == |chain| - 1 then null else chain[b + 1]
      ensures var idx := if b == |chain| - 1 then memRecIdx else MEMRECPERENTRY;
        && idx <= MEMRECPERENTRY && MEMRECPERENTRY * b + idx <= |recs|
        && (b == |chain| - 1 ==> MEMRECPERENTRY * b + idx == |recs|)
        && forall j :: 0 <= j < idx ==> arrs[b][j] == recs[MEMRECPERENTRY * b + j]
    {
    }

    /** A page with at most 38 records has one block, which holds the slots. */
    lemma OneBlockFacts()
      requires Valid() && |recs| <= MEMRECPERENTRY
      ensures |chain| == |arrs| == 1 && memRecIdx == |recs| && listHead != null && recs <= slots
      ensures listHead.last == recModEntry == chain[0] && chain[0].prev == null && chain[0].recArr == arrs[0]
    {
    }

    lemma OneArrayFacts()
      requires Valid() && |arrs| == 1
      ensures |slots| <= arrs[0].Length == MEMRECPERENTRY
      ensures forall j :: 0 <= j < |slots| ==> arrs[0][j] == slots[j]
    {
      assert forall j :: 0 <= j < |slots| ==> arrs[0][j] == slots[MEMRECPERENTRY * 0 + j];
    }

    lemma ValidIsLinked()
      requires Valid()
      ensures Linked()
    {
    }

    /** ts_memcpy_traced on a page of one block: records from k on are cut off, not erased. */
    method Truncate(k: nat)
      requires Valid() && |chain| == 1 && k <= memRecIdx
      modifies `recModEntry, `memRecIdx, `recs
      ensures Valid() && recs == old(recs)[..k]
    {
      memRecIdx := k;
      recModEntry := listHead.last;
      recs := recs[..k];
    }

    /** After the reset: the one block that is left counts as empty. */
    method Restart()
      requires Linked() && |chain| == 1
      modifies `recModEntry, `memRecIdx, `recs, `slots
      ensures Valid() && recs == [] && memRecIdx == 0
    {
      recModEntry := listHead.first;
      memRecIdx := 0;
      recs, slots := [], [];
    }
  }
}
