/** Writing a project dump in parts: every part opens with a header, blocks follow, and a new part
    is started before a block that would take the current one over the chunk size. */
module PartRolling {
  import opened Bytes

  const NEWLINE: byte := 10

  function Newlines(data: Data): nat {
    if data == [] then 0 else (if data[0] == NEWLINE then 1 else 0) + Newlines(data[1..])
  }

  lemma {:induction false} NewlinesOfConcatenation(a: Data, b: Data)
    ensures Newlines(a + b) == Newlines(a) + Newlines(b)
  {
    if a == [] {
      assert a + b == b;
    } else {
      assert (a + b)[1..] == a[1..] + b;
      NewlinesOfConcatenation(a[1..], b);
    }
  }

  // The bytes 10.
  lemma {:induction false} NewlinesAreTens(data: Data)
    ensures Newlines(data) == multiset(data)[10]
  {
    if data != [] {
      NewlinesAreTens(data[1..]);
      assert data == [data[0]] + data[1..];
    }
  }

  // One file's text, wrapped in its markers.
  datatype Block = Block(path: string, data: Data)

  // Where a block starts in its part.
  datatype Record = Record(path: string, offsetBytes: nat, offsetLines: nat)

  // The record names the block, its byte offset slices the block out of the part, and its line offset
  // counts the newlines before it.
  ghost predicate Locates(record: Record, block: Block, part: Data) {
    && record.path == block.path
    && record.offsetBytes + |block.data| <= |part|
    && part[record.offsetBytes..record.offsetBytes + |block.data|] == block.data
    && record.offsetLines == Newlines(part[..record.offsetBytes])
  }

  lemma LocatesInLonger(record: Record, block: Block, part: Data, more: Data)
    requires Locates(record, block, part)
    ensures Locates(record, block, part + more)
  {
    var end := record.offsetBytes + |block.data|;
    assert (part + more)[record.offsetBytes..end] == part[record.offsetBytes..end];
    assert (part + more)[..record.offsetBytes] == part[..record.offsetBytes];
  }

  lemma LocatesAtEnd(block: Block, part: Data)
    ensures Locates(Record(block.path, |part|, Newlines(part)), block, part + block.data)
  {
    assert (part + block.data)[|part|..|part| + |block.data|] == block.data;
    assert (part + block.data)[..|part|] == part;
  }

  // `header(i)` is what part i opens with; parts count from 1.
  datatype Config = Config(singleFile: bool, chunkSize: int, header: nat -> Data) {
    ghost predicate Valid() {
      forall i: nat :: header(i) != []
    }

    // A part's file contents.
    function PartData(i: nat, blocks: seq<Block>): Data {
      if blocks == [] then header(i)
      else PartData(i, blocks[..|blocks| - 1]) + blocks[|blocks| - 1].data
    }

    function PartRecords(i: nat, blocks: seq<Block>): (records: seq<Record>)
      ensures |records| == |blocks|
    {
      if blocks == [] then []
      else
        var before := blocks[..|blocks| - 1];
        PartRecords(i, before)
        + [Record(blocks[|blocks| - 1].path, |PartData(i, before)|, Newlines(PartData(i, before)))]
    }

    lemma OneMoreBlock(i: nat, blocks: seq<Block>, block: Block)
      ensures PartData(i, blocks + [block]) == PartData(i, blocks) + block.data
      ensures PartRecords(i, blocks + [block])
              == PartRecords(i, blocks)
                 + [Record(block.path, |PartData(i, blocks)|, Newlines(PartData(i, blocks)))]
    {
      assert (blocks + [block])[..|blocks|] == blocks;
    }

    // The layout after one more block; layout[i] are the blocks of part i + 1.
    function Placed(layout: seq<seq<Block>>, block: Block): seq<seq<Block>>
      requires layout != []
    {
      var last := |layout| - 1;
      var written := PartData(|layout|, layout[last]);
      if !singleFile && |written| + |block.data| > chunkSize && |written| > 0 then layout + [[block]]
      else layout[last := layout[last] + [block]]
    }

    function PlacedAll(blocks: seq<Block>): (layout: seq<seq<Block>>)
      ensures layout != []
    {
      if blocks == [] then [[]] else Placed(PlacedAll(blocks[..|blocks| - 1]), blocks[|blocks| - 1])
    }

    // ---------------------------------------------------------------- what a layout guarantees

    // Every block is found at its recorded byte offset, and its recorded line offset counts the
    // lines before it.
    lemma {:induction false} RecordsLocateBlocks(i: nat, blocks: seq<Block>, k: nat)
      requires k < |blocks|
      ensures Locates(PartRecords(i, blocks)[k], blocks[k], PartData(i, blocks))
      decreases |blocks|
    {
      var before, last := blocks[..|blocks| - 1], blocks[|blocks| - 1];
      var part := PartData(i, before);
      assert PartData(i, blocks) == part + last.data;
      if k < |blocks| - 1 {
        RecordsLocateBlocks(i, before, k);
        assert PartRecords(i, blocks)[k] == PartRecords(i, before)[k];
        hide *;
        LocatesInLonger(PartRecords(i, before)[k], blocks[k], part, last.data);
      } else {
        assert PartRecords(i, blocks)[k] == Record(last.path, |part|, Newlines(part));
        hide *;
        LocatesAtEnd(last, part);
      }
    }

    function Flatten(layout: seq<seq<Block>>): seq<Block> {
      if layout == [] then [] else Flatten(layout[..|layout| - 1]) + layout[|layout| - 1]
    }

    // A part is its header followed by its blocks, so dropping headers loses nothing else.
    lemma {:induction false} PartIsHeaderAndBlocks(i: nat, blocks: seq<Block>)
      ensures PartData(i, blocks) == header(i) + Joined(blocks)
    {
      if blocks != [] {
        PartIsHeaderAndBlocks(i, blocks[..|blocks| - 1]);
      }
    }

    static function Joined(blocks: seq<Block>): Data {
      if blocks == [] then [] else Joined(blocks[..|blocks| - 1]) + blocks[|blocks| - 1].data
    }

    lemma FlattenInTwo(layout: seq<seq<Block>>, part: seq<Block>)
      ensures Flatten(layout + [part]) == Flatten(layout) + part
    {
      assert (layout + [part])[..|layout|] == layout;
    }

    lemma PlacingAppends(layout: seq<seq<Block>>, block: Block)
      requires layout != []
      ensures Flatten(Placed(layout, block)) == Flatten(layout) + [block]
    {
      hide PartData, Flatten;
      var last := |layout| - 1;
      var front := layout[..last];
      assert layout == front + [layout[last]];
      FlattenInTwo(front, layout[last]);
      FlattenInTwo(layout, [block]);
      FlattenInTwo(front, layout[last] + [block]);
      assert layout[last := layout[last] + [block]] == front + [layout[last] + [block]];
    }

    // Nothing is lost, repeated or reordered.
    lemma {:induction false} PlacingConserves(blocks: seq<Block>)
      ensures Flatten(PlacedAll(blocks)) == blocks
    {
      if blocks == [] {
        FlattenInTwo([], []);
        var empty: seq<seq<Block>> := [[]];
        assert [] + [[]] == empty;
      } else {
        var before, block := blocks[..|blocks| - 1], blocks[|blocks| - 1];
        PlacingConserves(before);
        PlacingAppends(PlacedAll(before), block);
      }
    }

    // Every part but the first holds a block, and in chunked mode no part with two blocks is over
    // the limit.
    ghost predicate WellRolled(layout: seq<seq<Block>>) {
      && layout != []
      && (singleFile ==> |layout| == 1)
      && (forall i :: 0 < i < |layout| ==> layout[i] != [])
      && (!singleFile ==> forall i :: 0 <= i < |layout| && |layout[i]| > 1 ==>
            |PartData(i + 1, layout[i])| <= chunkSize)
    }

    lemma {:induction false} PlacingRollsWell(blocks: seq<Block>)
      requires Valid()
      ensures WellRolled(PlacedAll(blocks))
    {
      if blocks != [] {
        var layout := PlacedAll(blocks[..|blocks| - 1]);
        PlacingRollsWell(blocks[..|blocks| - 1]);
        PlacingOneRollsWell(layout, blocks[|blocks| - 1]);
      }
    }

    lemma PlacingOneRollsWell(layout: seq<seq<Block>>, block: Block)
      requires Valid() && WellRolled(layout)
      ensures WellRolled(Placed(layout, block))
    {
      var last, after := |layout| - 1, Placed(layout, block);
      assert |PartData(|layout|, layout[last])| > 0 by {
        PartIsHeaderAndBlocks(|layout|, layout[last]);
      }
      forall i | 0 <= i < |after| && |after[i]| > 1 && !singleFile
        ensures |PartData(i + 1, after[i])| <= chunkSize
      {
        if |after| == |layout| && i == last {
          assert after[i][..|after[i]| - 1] == layout[last];
        }
      }
    }

    // A new part is started only for a block that does not fit, and the first part takes a block
    // only if it fits.
    ghost predicate RolledOnlyWhenFull(layout: seq<seq<Block>>)
      requires WellRolled(layout)
    {
      !singleFile ==>
        && (forall i :: 0 < i < |layout| ==> |PartData(i, layout[i - 1])| + |layout[i][0].data| > chunkSize)
        && (|layout[0]| == 1 ==> |PartData(1, layout[0])| <= chunkSize)
    }

    lemma {:induction false} PlacingRollsOnlyWhenFull(blocks: seq<Block>)
      requires Valid()
      ensures WellRolled(PlacedAll(blocks)) && RolledOnlyWhenFull(PlacedAll(blocks))
    {
      PlacingRollsWell(blocks);
      if blocks != [] {
        var before := blocks[..|blocks| - 1];
        PlacingRollsOnlyWhenFull(before);
        PlacingOneRollsWhenFull(PlacedAll(before), blocks[|blocks| - 1]);
      }
    }

    lemma PlacingOneRollsWhenFull(layout: seq<seq<Block>>, block: Block)
      requires Valid() && WellRolled(layout) && RolledOnlyWhenFull(layout) && WellRolled(Placed(layout, block))
      ensures RolledOnlyWhenFull(Placed(layout, block))
    {
      var last, after := |layout| - 1, Placed(layout, block);
      HasHeader(|layout|, layout[last]);
      OneMoreBlock(|layout|, layout[last], block);
      forall i | 0 < i < |after| && !singleFile
        ensures |PartData(i, after[i - 1])| + |after[i][0].data| > chunkSize
      {
        if i == |layout| {
          assert after[i] == [block];
        } else {
          assert after[i][0] == layout[i][0];
        }
      }
      if |after| == |layout| == 1 && |after[0]| == 1 {
        assert layout[0] == [] && after[0] == [] + [block];
      }
    }

    lemma HasHeader(i: nat, blocks: seq<Block>)
      requires Valid()
      ensures |PartData(i, blocks)| > 0
    {
      PartIsHeaderAndBlocks(i, blocks);
    }

    // These rules leave no choice: only one layout of the blocks keeps them.
    lemma {:induction false} OnlyOneLayout(layout: seq<seq<Block>>)
      requires Valid() && WellRolled(layout) && RolledOnlyWhenFull(layout)
      ensures layout == PlacedAll(Flatten(layout))
      decreases |layout|, |layout[|layout| - 1]|
    {
      var last := |layout| - 1;
      var part := layout[last];
      assert layout == layout[..last] + [part];
      FlattenInTwo(layout[..last], part);
      if part == [] {
        assert layout[..0] == [] && Flatten(layout) == [];
      } else {
        var block, front := part[|part| - 1], part[..|part| - 1];
        assert part == front + [block];
        var before := if last > 0 && front == [] then layout[..last] else layout[last := front];
        BeforeLastBlock(layout, before, block);
        OnlyOneLayout(before);
        var all := Flatten(layout);
        assert all == Flatten(before) + [block];
        assert all[..|all| - 1] == Flatten(before);
      }
    }

    // Without its last block, the layout kept the rules, and the block went where it is.
    lemma BeforeLastBlock(layout: seq<seq<Block>>, before: seq<seq<Block>>, block: Block)
      requires Valid() && WellRolled(layout) && RolledOnlyWhenFull(layout)
      requires layout[|layout| - 1] != [] && block == layout[|layout| - 1][|layout[|layout| - 1]| - 1]
      requires var last := |layout| - 1; var front := layout[last][..|layout[last]| - 1];
               before == if last > 0 && front == [] then layout[..last] else layout[last := front]
      ensures WellRolled(before) && RolledOnlyWhenFull(before) && Placed(before, block) == layout
      ensures Flatten(layout) == Flatten(before) + [block]
    {
      var last := |layout| - 1;
      var part := layout[last];
      var front := part[..|part| - 1];
      assert part == front + [block];
      if last > 0 && front == [] {
        assert layout == layout[..last] + [[block]];
        hide *;
        StartedNewPart(layout[..last], block);
      } else {
        assert before[last] == front && layout == before[last := front + [block]];
        hide *;
        JoinedLastPart(before, block);
      }
      PlacingAppends(before, block);
    }

    lemma StartedNewPart(before: seq<seq<Block>>, block: Block)
      requires Valid() && before != [] && WellRolled(before + [[block]]) && RolledOnlyWhenFull(before + [[block]])
      ensures WellRolled(before) && RolledOnlyWhenFull(before) && Placed(before, block) == before + [[block]]
    {
      var layout := before + [[block]];
      HasHeader(|before|, before[|before| - 1]);
      hide PartData;
      assert forall i :: 0 <= i < |before| ==> layout[i] == before[i];
      assert layout[|before|][0] == block;
    }

    lemma JoinedLastPart(before: seq<seq<Block>>, block: Block)
      requires Valid() && before != [] && (|before| > 1 ==> before[|before| - 1] != [])
      requires var layout := before[|before| - 1 := before[|before| - 1] + [block]];
               WellRolled(layout) && RolledOnlyWhenFull(layout)
      ensures WellRolled(before) && RolledOnlyWhenFull(before)
      ensures Placed(before, block) == before[|before| - 1 := before[|before| - 1] + [block]]
    {
      hide *;
      FrontIsWellRolled(before, block);
      FrontIsRolledOnlyWhenFull(before, block);
      LastPartHasRoom(before, block);
    }

    lemma FrontIsWellRolled(before: seq<seq<Block>>, block: Block)
      requires before != [] && (|before| > 1 ==> before[|before| - 1] != [])
      requires WellRolled(before[|before| - 1 := before[|before| - 1] + [block]])
      ensures WellRolled(before)
    {
      var last := |before| - 1;
      OneMoreBlock(last + 1, before[last], block);
      hide PartData;
      var layout := before[last := before[last] + [block]];
      assert forall i :: 0 <= i < last ==> layout[i] == before[i];
      assert |layout[last]| == |before[last]| + 1;
    }

    lemma FrontIsRolledOnlyWhenFull(before: seq<seq<Block>>, block: Block)
      requires before != [] && WellRolled(before)
      requires var layout := before[|before| - 1 := before[|before| - 1] + [block]];
               WellRolled(layout) && RolledOnlyWhenFull(layout)
      ensures RolledOnlyWhenFull(before)
    {
      var last := |before| - 1;
      OneMoreBlock(last + 1, before[last], block);
      hide PartData;
      var layout := before[last := before[last] + [block]];
      assert forall i :: 0 <= i < last ==> layout[i] == before[i];
      assert before[last] != [] ==> layout[last][0] == before[last][0];
    }

    lemma LastPartHasRoom(before: seq<seq<Block>>, block: Block)
      requires Valid() && before != [] && (|before| > 1 ==> before[|before| - 1] != [])
      requires var layout := before[|before| - 1 := before[|before| - 1] + [block]];
               WellRolled(layout) && RolledOnlyWhenFull(layout)
      ensures Placed(before, block) == before[|before| - 1 := before[|before| - 1] + [block]]
    {
      var last := |before| - 1;
      OneMoreBlock(last + 1, before[last], block);
      hide PartData;
      var layout := before[last := before[last] + [block]];
      assert |layout[last]| == |before[last]| + 1;
      if last == 0 && before[last] == [] {
        FirstPartFits(layout);
      }
      assert !singleFile ==> |PartData(last + 1, layout[last])| <= chunkSize;
    }

    lemma FirstPartFits(layout: seq<seq<Block>>)
      requires WellRolled(layout) && RolledOnlyWhenFull(layout) && |layout[0]| == 1
      ensures !singleFile ==> |PartData(1, layout[0])| <= chunkSize
    {
    }

    // What the rules say of the bytes written.
    lemma LayoutMeans(layout: seq<seq<Block>>, written: seq<Data>)
      requires WellRolled(layout) && RolledOnlyWhenFull(layout) && |written| == |layout|
      requires forall i :: 0 <= i < |layout| ==> written[i] == PartData(i + 1, layout[i])
      ensures forall i :: 0 <= i < |layout| ==> written[i] == header(i + 1) + Joined(layout[i])
      ensures singleFile ==> layout == [Flatten(layout)]
      ensures !singleFile ==>
                && (forall i :: 0 < i < |layout| ==>
                      layout[i] != [] && |written[i - 1]| + |layout[i][0].data| > chunkSize)
                && (forall i :: 0 <= i < |layout| && |layout[i]| > (if i == 0 then 0 else 1) ==>
                      |written[i]| <= chunkSize)
    {
      forall i | 0 <= i < |layout| {
        PartIsHeaderAndBlocks(i + 1, layout[i]);
      }
      if singleFile {
        assert layout[..0] == [] && layout[0] == [] + layout[0];
        assert layout == [layout[0]] && Flatten(layout) == layout[0];
      }
      hide PartData, Joined, Flatten;
    }

    // The first part stays without blocks, although there are some, exactly when its header and the
    // first block together exceed the limit: then even the first block starts a new part.
    lemma {:induction false} FirstPartIsEmpty(blocks: seq<Block>)
      requires Valid() && blocks != []
      ensures PlacedAll(blocks)[0] == [] <==> !singleFile && |header(1)| + |blocks[0].data| > chunkSize
      decreases |blocks|
    {
      hide Flatten, WellRolled, PartData;
      var before, block := blocks[..|blocks| - 1], blocks[|blocks| - 1];
      var layout := PlacedAll(before);
      if before == [] {
        var empty: seq<seq<Block>> := [[]];
        assert layout == empty;
        FirstBlock(block);
      } else {
        FirstPartIsEmpty(before);
        assert before[0] == blocks[0];
        OnlyPartHoldsBlocks(before);
        LaterBlocksLeaveFirstPart(layout, block);
      }
    }

    lemma FirstBlock(block: Block)
      requires Valid()
      ensures Placed([[]], block)[0] == [] <==> !singleFile && |header(1)| + |block.data| > chunkSize
    {
      var empty: seq<Block> := [];
      assert PartData(1, empty) == header(1);
    }

    lemma OnlyPartHoldsBlocks(blocks: seq<Block>)
      requires blocks != []
      ensures |PlacedAll(blocks)| == 1 ==> PlacedAll(blocks)[0] != []
    {
      PlacingConserves(blocks);
      var layout := PlacedAll(blocks);
      if |layout| == 1 {
        assert layout[..0] == [];
        assert Flatten(layout) == layout[0];
      }
    }

    lemma LaterBlocksLeaveFirstPart(layout: seq<seq<Block>>, block: Block)
      requires layout != [] && (|layout| == 1 ==> layout[0] != [])
      ensures Placed(layout, block)[0] == [] <==> layout[0] == []
    {
    }
  }

  // The writer's state: the bytes of every part so far and the records kept about them.
  class DumpWriter {
    const config: Config
    var written: seq<Data>
    var records: seq<seq<Record>>
    var bytesInPart: nat
    var linesInPart: nat
    ghost var layout: seq<seq<Block>>

    ghost predicate Valid()
      reads this
    {
      && layout != [] && |written| == |records| == |layout|
      && (forall i :: 0 <= i < |layout| ==>
            && written[i] == config.PartData(i + 1, layout[i])
            && records[i] == config.PartRecords(i + 1, layout[i]))
      && bytesInPart == |written[|written| - 1]|
      && linesInPart == Newlines(written[|written| - 1])
    }

    constructor (config: Config)
      ensures Valid() && this.config == config && layout == config.PlacedAll([])
    {
      this.config := config;
      var header := config.header(1);
      written, records := [header], [[]];
      bytesInPart, linesInPart := |header|, Newlines(header);
      layout := [[]];
    }

    lemma BlocksCanBeFound()
      requires Valid()
      ensures |records| == |written| == |layout|
      ensures forall i, k :: 0 <= i < |layout| && 0 <= k < |layout[i]| ==>
                |records[i]| == |layout[i]| && Locates(records[i][k], layout[i][k], written[i])
    {
      hide Locates;
      forall i, k | 0 <= i < |layout| && 0 <= k < |layout[i]|
        ensures Locates(records[i][k], layout[i][k], written[i])
      {
        config.RecordsLocateBlocks(i + 1, layout[i], k);
      }
    }

    // Starts the next part with its header.
    method RollPart()
      requires Valid() && !config.singleFile
      modifies this
      ensures Valid() && layout == old(layout) + [[]]
    {
      var header := config.header(|written| + 1);
      written, records := written + [header], records + [[]];
      bytesInPart, linesInPart := |header|, Newlines(header);
      layout := layout + [[]];
    }

    // Writes the block to the current part and records where it starts.
    method AppendBlock(block: Block)
      requires Valid()
      modifies this
      ensures Valid()
      ensures layout == old(layout)[|old(layout)| - 1 := old(layout)[|old(layout)| - 1] + [block]]
    {
      var last := |written| - 1;
      ghost var blocks := layout[last];
      config.OneMoreBlock(last + 1, blocks, block);
      NewlinesOfConcatenation(written[last], block.data);
      records := records[last := records[last] + [Record(block.path, bytesInPart, linesInPart)]];
      written := written[last := written[last] + block.data];
      bytesInPart, linesInPart := bytesInPart + |block.data|, linesInPart + Newlines(block.data);
      layout := layout[last := blocks + [block]];
    }

    method WriteBlock(block: Block)
      requires Valid()
      modifies this
      ensures Valid() && layout == config.Placed(old(layout), block)
    {
      assert bytesInPart == |config.PartData(|layout|, layout[|layout| - 1])|;
      hide Config.PartRecords, Newlines;
      if !config.singleFile && bytesInPart + |block.data| > config.chunkSize && bytesInPart > 0 {
        RollPart();
      }
      AppendBlock(block);
    }
  }

  // Dumps all blocks: each part's file is its header and its blocks, the parts' blocks are the blocks in
  // order, and a new part is started exactly when the next block would take the current one over the
  // limit.
  method DumpAll(config: Config, blocks: seq<Block>) returns (writer: DumpWriter)
    requires config.Valid()
    ensures fresh(writer) && writer.Valid() && writer.config == config
    ensures writer.layout == config.PlacedAll(blocks)
    ensures config.Flatten(writer.layout) == blocks && config.WellRolled(writer.layout)
    ensures |writer.written| == |writer.layout|
    ensures forall i :: 0 <= i < |writer.layout| ==>
              writer.written[i] == config.header(i + 1) + Config.Joined(writer.layout[i])
    ensures |writer.records| == |writer.layout|
    ensures forall i, k :: 0 <= i < |writer.layout| && 0 <= k < |writer.layout[i]| ==>
              && |writer.records[i]| == |writer.layout[i]|
              && Locates(writer.records[i][k], writer.layout[i][k], writer.written[i])
    ensures config.singleFile ==> writer.layout == [blocks]
    ensures !config.singleFile ==>
              && (forall i :: 0 < i < |writer.layout| ==>
                    && writer.layout[i] != []
                    && |writer.written[i - 1]| + |writer.layout[i][0].data| > config.chunkSize)
              && (forall i :: 0 <= i < |writer.layout| && |writer.layout[i]| > (if i == 0 then 0 else 1) ==>
                    |writer.written[i]| <= config.chunkSize)
  {
    hide Config.WellRolled, Config.RolledOnlyWhenFull, Config.PartData, Config.Joined, Config.Flatten,
      Locates;
    writer := new DumpWriter(config);
    for k := 0 to |blocks|
      invariant fresh(writer) && writer.Valid() && writer.config == config
      invariant writer.layout == config.PlacedAll(blocks[..k])
    {
      assert blocks[..k + 1][..k] == blocks[..k];
      writer.WriteBlock(blocks[k]);
    }
    assert blocks[..|blocks|] == blocks;
    config.PlacingConserves(blocks);
    config.PlacingRollsOnlyWhenFull(blocks);
    config.LayoutMeans(writer.layout, writer.written);
    writer.BlocksCanBeFound();
  }
}
