/**
 * Whole runs of the event stream parser: what the emitted blocks say about the stream,
 * and the way back from a written stream to what was written.
 */
module EventRuns {
  import opened Text
  import opened EventText
  import opened EventStream

  // ---- grouping --------------------------------------------------------

  /** What matters of a part: heartbeats and texts without events leave nothing. */
  datatype Item = Happened(events: seq<DahuaEvent>) | Snapshot(jpeg: seq<byte>)

  function ItemsOf(part: Part): seq<Item> {
    if IsImage(part) then [Snapshot(part.body)]
    else if PartEvents(part) == [] then []
    else [Happened(PartEvents(part))]
  }

  function Items(parts: seq<Part>): seq<Item> {
    if parts == [] then [] else ItemsOf(parts[0]) + Items(parts[1..])
  }

  /**
   * The simple grouping: each batch of events is one block, with the snapshot that
   * comes right after it; any other snapshot belongs to nobody.
   */
  function Group(items: seq<Item>): seq<Block> {
    if items == [] then []
    else
      match items[0]
      case Snapshot(_) => Group(items[1..])
      case Happened(events) =>
        var jpeg := if |items| > 1 && items[1].Snapshot? then Some(items[1].jpeg) else None;
        [Block(events, jpeg)] + Group(items[1..])
  }

  function Waiting(pending: Pending): seq<Item> {
    if pending.Some? && pending.value != [] then [Happened(pending.value)] else []
  }

  /** One part at the front of the stream. */
  lemma ConsumeGroups(pending: Pending, part: Part, more: seq<Item>)
    ensures var (p, out) := Consume(pending, part);
            Group(Waiting(pending) + (ItemsOf(part) + more)) == out + Group(Waiting(p) + more)
  {
    hide PartEvents, IsImage;
    var items, w := ItemsOf(part), Waiting(pending);
    var (p, out) := Consume(pending, part);
    var whole := w + (items + more);
    if w != [] {
      assert whole[1..] == items + more;
    } else {
      assert whole == items + more;
    }
    if items != [] {
      assert (items + more)[1..] == more;
      assert items + more == [items[0]] + more;
    } else {
      assert items + more == more;
    }
    assert Waiting(p) + more
        == if items == [] then w + more else if items[0].Happened? then items + more else more;
  }

  lemma ConsumeAllFront(pending: Pending, part: Part, rest: seq<Part>)
    ensures var first := Consume(pending, part);
            var end := ConsumeAll(first.0, rest);
            ConsumeAll(pending, [part] + rest) == (end.0, first.1 + end.1)
  {
    hide Consume;
    var first := Consume(pending, part);
    ConsumeAllSnoc(pending, [], part);
    assert [] + [part] == [part] && [] + first.1 == first.1;
    ConsumeAllAppend(pending, [part], rest);
  }

  lemma SlotAtTheEnd(pending: Pending)
    ensures WaitingBlock(pending) == Group(Waiting(pending))
  {
  }

  /** The stateful slot refines the simple grouping of the part list. */
  lemma {:induction false} SlotRefinesGrouping(pending: Pending, parts: seq<Part>)
    ensures var end := ConsumeAll(pending, parts);
            end.1 + WaitingBlock(end.0) == Group(Waiting(pending) + Items(parts))
    decreases |parts|
  {
    hide Consume, ItemsOf, Group, Waiting, WaitingBlock;
    if parts == [] {
      SlotAtTheEnd(pending);
      assert Waiting(pending) + [] == Waiting(pending) && [] + WaitingBlock(pending) == WaitingBlock(pending);
    } else {
      hide ConsumeAll;
      var first, rest := Consume(pending, parts[0]), parts[1..];
      assert [parts[0]] + rest == parts;
      ConsumeAllFront(pending, parts[0], rest);
      SlotRefinesGrouping(first.0, rest);
      ConsumeGroups(pending, parts[0], Items(rest));
      var end := ConsumeAll(first.0, rest);
      assert first.1 + end.1 + WaitingBlock(end.0) == first.1 + (end.1 + WaitingBlock(end.0));
    }
  }

  function BlockEvents(blocks: seq<Block>): seq<DahuaEvent> {
    if blocks == [] then [] else blocks[0].events + BlockEvents(blocks[1..])
  }

  function ItemEvents(items: seq<Item>): seq<DahuaEvent> {
    if items == [] then []
    else (if items[0].Happened? then items[0].events else []) + ItemEvents(items[1..])
  }

  /** No event is lost, repeated or moved by the grouping. */
  lemma {:induction false} GroupKeepsEvents(items: seq<Item>)
    ensures BlockEvents(Group(items)) == ItemEvents(items)
  {
    if items != [] {
      GroupKeepsEvents(items[1..]);
      if items[0].Happened? {
        var blocks := Group(items);
        assert blocks[1..] == Group(items[1..]);
      }
    }
  }

  function SnapshotsAfterEvents(items: seq<Item>): seq<seq<byte>> {
    if |items| < 2 then []
    else
      (if items[0].Happened? && items[1].Snapshot? then [items[1].jpeg] else []) + SnapshotsAfterEvents(items[1..])
  }

  function BlockSnapshots(blocks: seq<Block>): seq<seq<byte>> {
    if blocks == [] then []
    else (if blocks[0].jpeg.Some? then [blocks[0].jpeg.value] else []) + BlockSnapshots(blocks[1..])
  }

  /** The snapshots delivered are exactly those that follow a batch of events, in order. */
  lemma {:induction false} GroupKeepsSnapshots(items: seq<Item>)
    ensures BlockSnapshots(Group(items)) == SnapshotsAfterEvents(items)
  {
    if items != [] {
      GroupKeepsSnapshots(items[1..]);
      if items[0].Happened? {
        var blocks := Group(items);
        assert blocks[1..] == Group(items[1..]);
      }
    }
  }

  /** The boundary in force once the whole stream is known. */
  function BoundaryOf(name: Option<string>, stream: seq<byte>): Option<seq<byte>> {
    if Initial(name).boundary.Some? then Initial(name).boundary else Detect(stream)
  }

  /** Blocks of a whole run: those of the pushes, then the one that `flush` gives. */
  function Delivered(name: Option<string>, chunks: seq<seq<byte>>): seq<Block> {
    var (st, blocks) := Run(Initial(name), chunks);
    blocks + WaitingBlock(st.pending)
  }

  /** Every run delivers the simple grouping of the parts of the whole stream. */
  lemma RunGroupsParts(name: Option<string>, chunks: seq<seq<byte>>)
    ensures var stream := Concat(chunks);
            var boundary := BoundaryOf(name, stream);
            Delivered(name, chunks)
            == if boundary.Some? then Group(Items(TakeParts(boundary.value, stream).parts)) else []
  {
    hide Detect, TakeParts, ConsumeAll, Run, Items, Group;
    var start, stream := Initial(name), Concat(chunks);
    InitialIsSettled(name);
    ChunkInvariance(start, chunks);
    assert start.buf + stream == stream;
    var boundary := BoundaryOf(name, stream);
    if boundary.Some? {
      var parts := TakeParts(boundary.value, stream).parts;
      SlotRefinesGrouping(None, parts);
      assert Waiting(None) + Items(parts) == Items(parts);
    }
  }

  /** Event conservation over a whole run, and of the snapshots next to them. */
  lemma RunConservesEvents(name: Option<string>, chunks: seq<seq<byte>>)
    requires BoundaryOf(name, Concat(chunks)).Some?
    ensures var parts := TakeParts(BoundaryOf(name, Concat(chunks)).value, Concat(chunks)).parts;
            && BlockEvents(Delivered(name, chunks)) == ItemEvents(Items(parts))
            && BlockSnapshots(Delivered(name, chunks)) == SnapshotsAfterEvents(Items(parts))
  {
    hide Delivered, Group, BlockEvents, ItemEvents, BlockSnapshots, SnapshotsAfterEvents, TakeParts, Items, BoundaryOf;
    RunGroupsParts(name, chunks);
    var parts := TakeParts(BoundaryOf(name, Concat(chunks)).value, Concat(chunks)).parts;
    GroupKeepsEvents(Items(parts));
    GroupKeepsSnapshots(Items(parts));
  }

  // ---- a part without a length -----------------------------------------

  /**
   * Once the front part has its headers but no length, the parser is stuck: no
   * continuation of the stream makes it give another block.
   */
  lemma NoLengthIsFinal(st: State, boundary: seq<byte>, chunks: seq<seq<byte>>)
    requires st.boundary == Some(boundary) && ScanPart(boundary, st.buf).NoLength?
    ensures Run(st, chunks) == (st.(buf := st.buf + Concat(chunks)), [])
  {
    var x := Concat(chunks);
    ScanStable(boundary, st.buf, x);
    ChunkInvariance(st, chunks);
    assert ConsumeAll(st.pending, []) == (st.pending, []);
  }
}
