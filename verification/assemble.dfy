/** Question assembly (generate_questions in src/main.rs): the piece list is cut into
    contiguous blocks, a new block opening at every "prompt" piece after the first piece,
    and each block is folded into one question. */
module Assemble {
  import opened Types

  /** The half-open index range [lo, hi) of one question's pieces. */
  datatype Block = Block(lo: nat, hi: nat)

  predicate IsPrompt(d: DataPiece)
  {
    d.dataType == PromptTag
  }

  /** The tags a block may hold; any other tag stops the run. */
  predicate Known(tag: string)
  {
    tag == PromptTag || tag == CorrectTag || tag == IncorrectTag
  }

  /** A non-empty, in-bounds range that opens at index 0 or at a prompt and holds no
      further prompt. */
  ghost predicate WellCut(pieces: seq<DataPiece>, b: Block)
  {
    && b.lo < b.hi <= |pieces|
    && (b.lo == 0 || IsPrompt(pieces[b.lo]))
    && forall j :: b.lo < j < b.hi ==> !IsPrompt(pieces[j])
  }

  ghost predicate Adjacent(blocks: seq<Block>)
  {
    forall k :: 0 <= k < |blocks| - 1 ==> blocks[k].hi == blocks[k + 1].lo
  }

  /** The blocks are well cut and lie end to end over [0, end). */
  ghost predicate Tiles(pieces: seq<DataPiece>, blocks: seq<Block>, end: nat)
  {
    && (forall k :: 0 <= k < |blocks| ==> WellCut(pieces, blocks[k]))
    && Adjacent(blocks)
    && (if |blocks| == 0 then end == 0 else blocks[0].lo == 0 && blocks[|blocks| - 1].hi == end)
  }

  /** The cut generate_questions makes: the well-cut tiling of the whole list, and the
      single empty block [0, 0) for an empty list. */
  ghost predicate IsPromptPartition(pieces: seq<DataPiece>, blocks: seq<Block>)
  {
    if |pieces| == 0 then blocks == [Block(0, 0)]
    else |blocks| > 0 && Tiles(pieces, blocks, |pieces|)
  }

  /** Number of prompt pieces at index 1 or later. */
  function LaterPrompts(pieces: seq<DataPiece>): nat
  {
    if |pieces| <= 1 then 0
    else LaterPrompts(pieces[..|pieces| - 1]) + (if IsPrompt(pieces[|pieces| - 1]) then 1 else 0)
  }

  lemma LaterPromptsStep(pieces: seq<DataPiece>, i: nat)
    requires i < |pieces|
    ensures LaterPrompts(pieces[..i + 1])
            == LaterPrompts(pieces[..i]) + (if 0 < i && IsPrompt(pieces[i]) then 1 else 0)
  {
    assert pieces[..i + 1][..i] == pieces[..i];
  }

  /** Data of the last piece tagged `tag`, or "" when there is none. */
  function LastData(block: seq<DataPiece>, tag: string): string
  {
    if |block| == 0 then ""
    else if block[|block| - 1].dataType == tag then block[|block| - 1].data
    else LastData(block[..|block| - 1], tag)
  }

  /** Data of every piece tagged `tag`, in block order. */
  function AllData(block: seq<DataPiece>, tag: string): seq<string>
  {
    if |block| == 0 then []
    else
      AllData(block[..|block| - 1], tag)
      + (if block[|block| - 1].dataType == tag then [block[|block| - 1].data] else [])
  }

  /** Reference definition of the question a block stands for: the last prompt wins, the
      last correct answer wins, the incorrect answers accumulate in order. */
  function BlockQuestion(block: seq<DataPiece>): Question
  {
    Question(LastData(block, PromptTag), LastData(block, CorrectTag), AllData(block, IncorrectTag))
  }

  /** The first piece in [lo, hi) with an unknown tag exists and `e` names its tag. */
  ghost predicate FirstUnknownIs(pieces: seq<DataPiece>, lo: nat, hi: nat, e: Error)
    requires hi <= |pieces|
  {
    exists j :: lo <= j < hi && !Known(pieces[j].dataType)
                && (forall m :: lo <= m < j ==> Known(pieces[m].dataType))
                && e == UnhandledProperty(pieces[j].dataType)
  }

  ghost predicate FollowsBlocks(pieces: seq<DataPiece>, blocks: seq<Block>, questions: seq<Question>)
  {
    && |questions| == |blocks|
    && forall k :: 0 <= k < |blocks| ==>
         blocks[k].lo <= blocks[k].hi <= |pieces|
         && questions[k] == BlockQuestion(pieces[blocks[k].lo..blocks[k].hi])
  }

  /** The first loop of generate_questions: a block is closed at every prompt whose index
      differs from the current start, and the last block is closed at the end. */
  method Partition(pieces: seq<DataPiece>) returns (blocks: seq<Block>)
    ensures IsPromptPartition(pieces, blocks)
    ensures |blocks| == 1 + LaterPrompts(pieces)
  {
    blocks := [];
    var start := 0;
    for i := 0 to |pieces|
      invariant start <= i
      invariant 0 < start ==> start < i && IsPrompt(pieces[start])
      invariant 0 < i ==> start < i
      invariant Tiles(pieces, blocks, start)
      invariant forall j :: start < j < i ==> !IsPrompt(pieces[j])
      invariant |blocks| == LaterPrompts(pieces[..i])
    {
      LaterPromptsStep(pieces, i);
      if i != start && pieces[i].dataType == PromptTag {
        TilesExtend(pieces, blocks, start, i);
        blocks := blocks + [Block(start, i)];
        start := i;
      }
    }
    assert pieces[..|pieces|] == pieces;
    if |pieces| > 0 {
      TilesExtend(pieces, blocks, start, |pieces|);
    } else {
      TilesEmpty(pieces, blocks);
    }
    blocks := blocks + [Block(start, |pieces|)];
  }

  lemma TilesExtend(pieces: seq<DataPiece>, blocks: seq<Block>, start: nat, end: nat)
    requires Tiles(pieces, blocks, start)
    requires start < end <= |pieces| && (start == 0 || IsPrompt(pieces[start]))
    requires forall j :: start < j < end ==> !IsPrompt(pieces[j])
    ensures Tiles(pieces, blocks + [Block(start, end)], end)
  {
    assert WellCut(pieces, Block(start, end));
  }

  lemma TilesEmpty(pieces: seq<DataPiece>, blocks: seq<Block>)
    requires Tiles(pieces, blocks, 0)
    ensures blocks == []
  {
  }

  /** With every piece before `lo` known, the first unknown piece of [lo, hi) is the first
      unknown piece of the whole list. */
  lemma FirstUnknownWidens(pieces: seq<DataPiece>, lo: nat, hi: nat, e: Error)
    requires lo <= hi <= |pieces|
    requires forall j :: 0 <= j < lo ==> Known(pieces[j].dataType)
    requires FirstUnknownIs(pieces, lo, hi, e)
    ensures FirstUnknownIs(pieces, 0, |pieces|, e)
  {
    var j :| lo <= j < hi && !Known(pieces[j].dataType)
             && (forall m :: lo <= m < j ==> Known(pieces[m].dataType))
             && e == UnhandledProperty(pieces[j].dataType);
    assert forall m :: 0 <= m < j ==> Known(pieces[m].dataType);
  }

  /** The second loop of generate_questions, for one block: each piece overwrites the
      prompt or the correct answer, or appends an incorrect answer; any other tag panics. */
  method AssembleBlock(pieces: seq<DataPiece>, b: Block) returns (r: Result<Question, Error>)
    requires b.lo <= b.hi <= |pieces|
    ensures r.Failure? <==> exists j :: b.lo <= j < b.hi && !Known(pieces[j].dataType)
    ensures r.Failure? ==> FirstUnknownIs(pieces, b.lo, b.hi, r.error)
    ensures r.Success? ==> r.value == BlockQuestion(pieces[b.lo..b.hi])
  {
    var text := "";
    var answer := "";
    var wrongAnswers: seq<string> := [];
    for i := b.lo to b.hi
      invariant forall m :: b.lo <= m < i ==> Known(pieces[m].dataType)
      invariant Question(text, answer, wrongAnswers) == BlockQuestion(pieces[b.lo..i])
    {
      assert pieces[b.lo..i + 1][..i - b.lo] == pieces[b.lo..i];
      var d := pieces[i];
      if d.dataType == PromptTag {
        text := d.data;
      } else if d.dataType == CorrectTag {
        answer := d.data;
      } else if d.dataType == IncorrectTag {
        wrongAnswers := wrongAnswers + [d.data];
      } else {
        return Failure(UnhandledProperty(pieces[i].dataType));
      }
    }
    return Success(Question(text, answer, wrongAnswers));
  }

  /** generate_questions: one question per block, in block order; the first piece with an
      unknown tag stops the whole run. */
  method GenerateQuestions(pieces: seq<DataPiece>) returns (r: Result<seq<Question>, Error>)
    ensures r.Failure? <==> exists j :: 0 <= j < |pieces| && !Known(pieces[j].dataType)
    ensures r.Failure? ==> FirstUnknownIs(pieces, 0, |pieces|, r.error)
    ensures r.Success? ==> |r.value| == 1 + LaterPrompts(pieces)
    ensures r.Success? ==>
              exists blocks :: IsPromptPartition(pieces, blocks) && FollowsBlocks(pieces, blocks, r.value)
    ensures |pieces| == 0 ==> r == Success([Question("", "", [])])
  {
    var blocks := Partition(pieces);
    PartitionBounds(pieces, blocks);
    var questions: seq<Question> := [];
    ghost var done := 0;
    for k := 0 to |blocks|
      invariant |questions| == k
      invariant forall m :: 0 <= m < k ==> questions[m] == BlockQuestion(pieces[blocks[m].lo..blocks[m].hi])
      invariant k < |blocks| ==> done == blocks[k].lo
      invariant k == |blocks| ==> done == |pieces|
      invariant forall j :: 0 <= j < done ==> Known(pieces[j].dataType)
    {
      var q := AssembleBlock(pieces, blocks[k]);
      if q.Failure? {
        FirstUnknownWidens(pieces, blocks[k].lo, blocks[k].hi, q.error);
        return Failure(q.error);
      }
      AppendQuestion(pieces, blocks, questions, k, q.value);
      questions := questions + [q.value];
      done := blocks[k].hi;
    }
    assert FollowsBlocks(pieces, blocks, questions);
    if |pieces| == 0 {
      assert pieces[blocks[0].lo..blocks[0].hi] == [];
      assert questions == [BlockQuestion([])];
    }
    return Success(questions);
  }

  lemma AppendQuestion(pieces: seq<DataPiece>, blocks: seq<Block>, questions: seq<Question>, k: nat, q: Question)
    requires |questions| == k < |blocks|
    requires forall m :: 0 <= m < |blocks| ==> blocks[m].lo <= blocks[m].hi <= |pieces|
    requires forall m :: 0 <= m < k ==> questions[m] == BlockQuestion(pieces[blocks[m].lo..blocks[m].hi])
    requires q == BlockQuestion(pieces[blocks[k].lo..blocks[k].hi])
    ensures forall m :: 0 <= m < k + 1 ==>
              (questions + [q])[m] == BlockQuestion(pieces[blocks[m].lo..blocks[m].hi])
  {
  }

  /** The facts about a partition that the assembly loop relies on. */
  lemma PartitionBounds(pieces: seq<DataPiece>, blocks: seq<Block>)
    requires IsPromptPartition(pieces, blocks)
    ensures |blocks| > 0 && blocks[0].lo == 0 && blocks[|blocks| - 1].hi == |pieces|
    ensures Adjacent(blocks)
    ensures forall k :: 0 <= k < |blocks| ==> blocks[k].lo <= blocks[k].hi <= |pieces|
  {
    if |pieces| > 0 {
      assert forall k :: 0 <= k < |blocks| ==> WellCut(pieces, blocks[k]);
    }
  }

  /** Every index below `end` lies in one of the tiling blocks. */
  lemma {:induction false} TilesCover(pieces: seq<DataPiece>, blocks: seq<Block>, end: nat, j: nat)
    requires Tiles(pieces, blocks, end) && j < end
    ensures exists k :: 0 <= k < |blocks| && blocks[k].lo <= j < blocks[k].hi
  {
    var n := |blocks| - 1;
    if j < blocks[n].lo {
      var front := blocks[..n];
      assert n > 0;
      assert Tiles(pieces, front, blocks[n].lo) by {
        assert blocks[n - 1].hi == blocks[n].lo;
      }
      TilesCover(pieces, front, blocks[n].lo, j);
      var k :| 0 <= k < |front| && front[k].lo <= j < front[k].hi;
      assert blocks[k] == front[k];
    } else {
      assert blocks[n].lo <= j < blocks[n].hi;
    }
  }

  /** A block opens exactly at index 0 and at every later prompt. */
  lemma BlockStarts(pieces: seq<DataPiece>, blocks: seq<Block>, j: nat)
    requires IsPromptPartition(pieces, blocks)
    ensures (exists k :: 0 <= k < |blocks| && blocks[k].lo == j)
            <==> (j == 0 || (j < |pieces| && IsPrompt(pieces[j])))
  {
    if |pieces| > 0 {
      if exists k :: 0 <= k < |blocks| && blocks[k].lo == j {
        var k :| 0 <= k < |blocks| && blocks[k].lo == j;
        assert WellCut(pieces, blocks[k]);
      }
      if j < |pieces| && (j == 0 || IsPrompt(pieces[j])) {
        TilesCover(pieces, blocks, |pieces|, j);
        var k :| 0 <= k < |blocks| && blocks[k].lo <= j < blocks[k].hi;
        assert WellCut(pieces, blocks[k]);
        if j == 0 {
          assert blocks[0].lo == 0;
        }
      }
    }
  }

  /** When no piece after the first carries `tag`, the first piece alone decides. */
  lemma {:induction false} LastDataOfHead(block: seq<DataPiece>, tag: string)
    requires |block| > 0
    requires forall j :: 0 < j < |block| ==> block[j].dataType != tag
    ensures LastData(block, tag) == (if block[0].dataType == tag then block[0].data else "")
  {
    if |block| > 1 {
      var front := block[..|block| - 1];
      LastDataOfHead(front, tag);
    }
  }

  /** Since a block holds no prompt after its first piece, a question's text is that
      piece's data when it is a prompt, and "" otherwise; every block after the first
      opens at a prompt, so its question's text is that prompt's data. */
  lemma QuestionText(pieces: seq<DataPiece>, blocks: seq<Block>, k: nat)
    requires IsPromptPartition(pieces, blocks) && |pieces| > 0 && k < |blocks|
    ensures BlockQuestion(pieces[blocks[k].lo..blocks[k].hi]).text
            == (if IsPrompt(pieces[blocks[k].lo]) then pieces[blocks[k].lo].data else "")
    ensures 0 < k ==> IsPrompt(pieces[blocks[k].lo])
                      && BlockQuestion(pieces[blocks[k].lo..blocks[k].hi]).text == pieces[blocks[k].lo].data
  {
    var b := blocks[k];
    assert WellCut(pieces, b);
    var block := pieces[b.lo..b.hi];
    forall j | 0 < j < |block|
      ensures block[j].dataType != PromptTag
    {
      assert block[j] == pieces[b.lo + j];
    }
    LastDataOfHead(block, PromptTag);
    if 0 < k {
      assert blocks[k - 1].hi == b.lo;
      assert WellCut(pieces, blocks[k - 1]);
    }
  }

  /** A block holding one prompt, one correct answer and one incorrect answer becomes the
      question with exactly those texts. */
  lemma OneQuestionScenario()
    ensures BlockQuestion([DataPiece(PromptTag, "Q1"), DataPiece(CorrectTag, "A"), DataPiece(IncorrectTag, "B")])
            == Question("Q1", "A", ["B"])
  {
    var b := [DataPiece(PromptTag, "Q1"), DataPiece(CorrectTag, "A"), DataPiece(IncorrectTag, "B")];
    assert PromptTag != CorrectTag && PromptTag != IncorrectTag && CorrectTag != IncorrectTag;
    assert b[..2] == [b[0], b[1]];
    assert b[..2][..1] == [b[0]];
    assert [b[0]][..0] == [];
    assert LastData([b[0]], PromptTag) == "Q1";
    assert LastData(b[..2], PromptTag) == "Q1";
    assert LastData(b, PromptTag) == "Q1";
    assert LastData(b, CorrectTag) == "A";
    assert AllData([b[0]], IncorrectTag) == [];
    assert AllData(b[..2], IncorrectTag) == [];
  }
}
