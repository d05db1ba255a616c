/** Fragment extraction: the fold of the markup reader's events into a list of data
    pieces (parse_data in src/main.rs). The reader itself is replaced by the sequence of
    items it yields. */
module Parse {
  import opened Types

  /** One item yielded by the markup reader. Element names are local names. */
  datatype ReaderEvent =
    | Start(name: string)
    | End(name: string)
    | Chars(text: string)
    | Other               // document start/end, comments, whitespace, CDATA, processing instructions
    | Err(message: string)

  /** Name of the most recent start tag, or "" before the first one. */
  function LastStartName(events: seq<ReaderEvent>): string
  {
    if |events| == 0 then ""
    else if events[|events| - 1].Start? then events[|events| - 1].name
    else LastStartName(events[..|events| - 1])
  }

  /** Text of the most recent characters event, or "" before the first one. */
  function LastText(events: seq<ReaderEvent>): string
  {
    if |events| == 0 then ""
    else if events[|events| - 1].Chars? then events[|events| - 1].text
    else LastText(events[..|events| - 1])
  }

  /** The event at position i is an end tag naming the most recently opened element. */
  predicate Emits(events: seq<ReaderEvent>, i: nat)
    requires i < |events|
  {
    events[i].End? && events[i].name == LastStartName(events[..i])
  }

  /** The piece an emitting end tag produces: its name and the latest text before it. */
  function PieceAt(events: seq<ReaderEvent>, i: nat): DataPiece
    requires i < |events| && Emits(events, i)
  {
    DataPiece(events[i].name, LastText(events[..i]))
  }

  /** Reference definition: one piece per emitting end tag, in event order. */
  function Pieces(events: seq<ReaderEvent>): seq<DataPiece>
  {
    if |events| == 0 then []
    else
      var i := |events| - 1;
      Pieces(events[..i]) + (if Emits(events, i) then [PieceAt(events, i)] else [])
  }

  predicate HasError(events: seq<ReaderEvent>)
  {
    exists i :: 0 <= i < |events| && events[i].Err?
  }

  /** Message of the earliest error item, or "" when there is none. */
  function FirstErrorMessage(events: seq<ReaderEvent>): string
  {
    if |events| == 0 then ""
    else if events[0].Err? then events[0].message
    else FirstErrorMessage(events[1..])
  }

  function CountEnds(events: seq<ReaderEvent>): nat
  {
    if |events| == 0 then 0
    else CountEnds(events[..|events| - 1]) + (if events[|events| - 1].End? then 1 else 0)
  }

  /** parse_data: the state is the last start-tag name and the last text, both initially
      empty; the text is replaced on every characters event and never cleared. Any reader
      error ends the whole run and no pieces survive it. */
  method ParseData(events: seq<ReaderEvent>) returns (r: Result<seq<DataPiece>, Error>)
    ensures r.Failure? <==> HasError(events)
    ensures r.Failure? ==> r.error == MalformedXml(FirstErrorMessage(events))
    ensures r.Success? ==> r.value == Pieces(events)
  {
    var data: seq<DataPiece> := [];
    var dataType := "";
    var dataText := "";
    for i := 0 to |events|
      invariant !HasError(events[..i])
      invariant dataType == LastStartName(events[..i])
      invariant dataText == LastText(events[..i])
      invariant data == Pieces(events[..i])
    {
      assert events[..i + 1][..i] == events[..i];
      match events[i]
      case Start(name) =>
        dataType := name;
      case End(name) =>
        if dataType == name {
          data := data + [DataPiece(dataType, dataText)];
        }
      case Chars(s) =>
        dataText := s;
      case Other =>
      case Err(message) =>
        FirstErrorAt(events, i);
        return Failure(MalformedXml(message));
    }
    assert events[..|events|] == events;
    return Success(data);
  }

  /** The earliest error decides the message. */
  lemma {:induction false} FirstErrorAt(events: seq<ReaderEvent>, i: nat)
    requires i < |events| && events[i].Err?
    requires !HasError(events[..i])
    ensures FirstErrorMessage(events) == events[i].message
  {
    if i > 0 {
      assert events[0] == events[..i][0];
      assert events[1..][..i - 1] == events[..i][1..];
      FirstErrorAt(events[1..], i - 1);
    }
  }

  /** At most one piece per end tag. */
  lemma {:induction false} PiecesBound(events: seq<ReaderEvent>)
    ensures |Pieces(events)| <= CountEnds(events)
  {
    if |events| > 0 {
      PiecesBound(events[..|events| - 1]);
    }
  }

  /** Reading further events only appends pieces: output order follows event order. */
  lemma {:induction false} PiecesPrefix(events: seq<ReaderEvent>, j: nat)
    requires j <= |events|
    ensures Pieces(events[..j]) <= Pieces(events)
  {
    if j < |events| {
      var k := |events| - 1;
      assert events[..k][..j] == events[..j];
      PiecesPrefix(events[..k], j);
    } else {
      assert events[..j] == events;
    }
  }

  /** A piece is in the output exactly when some end tag closes the most recently opened
      name, and it then carries that name and the latest text before that end tag. */
  lemma {:induction false} PiecesOrigin(events: seq<ReaderEvent>, p: DataPiece)
    ensures p in Pieces(events) <==>
              exists i :: 0 <= i < |events| && Emits(events, i) && PieceAt(events, i) == p
  {
    if |events| > 0 {
      var k := |events| - 1;
      var front := events[..k];
      PiecesOrigin(front, p);
      forall i | 0 <= i < k
        ensures Emits(front, i) == Emits(events, i)
        ensures Emits(events, i) ==> PieceAt(front, i) == PieceAt(events, i)
      {
        assert front[..i] == events[..i];
      }
      if p in Pieces(events) && p !in Pieces(front) {
        assert Emits(events, k) && PieceAt(events, k) == p;
      }
      if exists i :: 0 <= i < |events| && Emits(events, i) && PieceAt(events, i) == p {
        var i :| 0 <= i < |events| && Emits(events, i) && PieceAt(events, i) == p;
        if i < k {
          assert Emits(front, i) && PieceAt(front, i) == p;
        }
      }
    }
  }

  /** An event other than a start tag, an end tag or text changes neither the reader
      state nor the output. */
  lemma {:induction false} OtherIsInert(a: seq<ReaderEvent>, b: seq<ReaderEvent>)
    ensures LastStartName(a + [Other] + b) == LastStartName(a + b)
    ensures LastText(a + [Other] + b) == LastText(a + b)
    ensures Pieces(a + [Other] + b) == Pieces(a + b)
  {
    var with := a + [Other] + b;
    var without := a + b;
    if |b| == 0 {
      assert with[..|with| - 1] == without;
    } else {
      var b' := b[..|b| - 1];
      assert with[..|with| - 1] == a + [Other] + b';
      assert without[..|without| - 1] == a + b';
      OtherIsInert(a, b');
    }
  }

  /** A leaf element closes the name it opened and yields its own text. */
  lemma LeafElement(before: seq<ReaderEvent>, name: string, text: string)
    ensures Pieces(before + [Start(name), Chars(text), End(name)]) == Pieces(before) + [DataPiece(name, text)]
  {
    var e := before + [Start(name), Chars(text), End(name)];
    var e2 := before + [Start(name), Chars(text)];
    var e1 := before + [Start(name)];
    assert e[..|e| - 1] == e2;
    assert e2[..|e2| - 1] == e1;
    assert e1[..|e1| - 1] == before;
    assert LastStartName(e1) == name;
    assert LastStartName(e2) == name;
    assert LastText(e2) == text;
    assert Pieces(e1) == Pieces(before);
    assert Pieces(e2) == Pieces(e1);
  }

  /** The text is never cleared: an element with no text of its own yields a piece
      carrying the latest text seen before it. */
  lemma EmptyElementKeepsText(before: seq<ReaderEvent>, name: string)
    ensures Pieces(before + [Start(name), End(name)])
            == Pieces(before) + [DataPiece(name, LastText(before))]
  {
    var e := before + [Start(name), End(name)];
    assert e[..|e| - 1] == before + [Start(name)];
    assert (before + [Start(name)])[..|before|] == before;
  }

  /** An end tag that does not name the most recently opened element, such as the end of
      an enclosing element, yields no piece. */
  lemma EnclosingEndIsSkipped(before: seq<ReaderEvent>, name: string)
    requires LastStartName(before) != name
    ensures Pieces(before + [End(name)]) == Pieces(before)
  {
    var e := before + [End(name)];
    assert e[..|e| - 1] == before;
  }

  /** Both effects at once: the element "b" has no text and repeats "x", and the enclosing
      element "q" yields nothing. */
  lemma StaleTextAndNesting()
    ensures Pieces([Start("q"), Start("a"), Chars("x"), End("a"), Start("b"), End("b"), End("q")])
            == [DataPiece("a", "x"), DataPiece("b", "x")]
  {
    var e := [Start("q"), Start("a"), Chars("x"), End("a"), Start("b"), End("b"), End("q")];
    var p := [Start("q"), Start("a"), Chars("x"), End("a")];
    LeafElement([Start("q")], "a", "x");
    assert Pieces([Start("q")]) == [] by {
      assert [Start("q")][..0] == [];
    }
    assert p == [Start("q")] + [Start("a"), Chars("x"), End("a")];
    assert Pieces(p) == [DataPiece("a", "x")];
    assert LastText(p) == "x";
    assert LastText(p + [Start("b")]) == "x" by {
      assert (p + [Start("b")])[..4] == p;
    }
    assert e[..5] == p + [Start("b")];
    assert e[..6] == p + [Start("b"), End("b")];
    assert e[..6][..5] == e[..5];
    assert e[..5][..4] == p;
    assert Pieces(e[..5]) == Pieces(p);
    assert Pieces(e[..6]) == Pieces(p) + [DataPiece("b", "x")];
    assert LastStartName(e[..6]) == "b";
  }
}
