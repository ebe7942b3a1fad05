/** What holds over whole runs of the board: the facts every reachable
    board keeps, and the one-way switches of a session: the initial
    selection of a segment happens at most once, and each segment is
    completed at most once. */
module BoardRuns {
  import opened Wrappers
  import opened BoardState
  import opened BoardEvents
  import opened BoardHint
  import opened JsMap

  /** The facts every reachable board keeps: the text index stays in
      `TEXT_ORDER`; during the initial selection no segment is active and
      no batch or zoom is in flight; a batch in flight means the board is
      animating. */
  predicate Inv(b: Board) {
    && b.textIndex < |TextOrder|
    && (b.initialPhase ==> b.active == None && b.batch == None && b.zooms == [])
    && (b.batch.Some? ==> b.animating)
  }

  /** A freshly built board keeps the invariant. */
  lemma InitialInv(level: Level)
    requires ValidLevel(level)
    ensures Inv(Initial(level))
  {
  }

  lemma {:induction false} StepPreservesInv(b: Board, e: Event)
    requires Inv(b)
    ensures Inv(Step(b, e))
  {
    StepFacts(b, e);
  }

  /** What each event keeps: the invariant, no return to the initial
      selection, and an active segment stays active. */
  predicate Keeps(b: Board, r: Board) {
    && (Inv(b) ==> Inv(r))
    && (r.initialPhase ==> b.initialPhase)
    && (b.active.Some? ==> r.active.Some?)
  }

  lemma StepFacts(b: Board, e: Event)
    ensures Keeps(b, Step(b, e))
  {
    match e
    case SegmentClicked(n) => SegmentClickFacts(b, n);
    case StackClicked(n) => StackClickFacts(b, n);
    case GemClicked(g) => GemClickFacts(b, g);
    case CellClicked(c) => CellClickFacts(b, c);
    case BatchFinished => BatchFacts(b);
    case TextFinished => TextFacts(b);
    case ZoomFinished(i) => ZoomFacts(b, i);
  }

  lemma SegmentClickFacts(b: Board, n: SegmentNo)
    ensures Keeps(b, SegmentClick(b, n))
  {
  }

  lemma StackClickFacts(b: Board, n: SegmentNo)
    ensures Keeps(b, StackClick(b, n))
  {
  }

  lemma GemClickFacts(b: Board, g: nat)
    ensures Keeps(b, GemClick(b, g))
  {
  }

  lemma CellClickFacts(b: Board, c: nat)
    ensures Keeps(b, CellClick(b, c))
  {
  }

  lemma BatchFacts(b: Board)
    ensures Keeps(b, BatchDone(b))
  {
    BatchIsOneWay(b);
  }

  lemma TextFacts(b: Board)
    ensures Keeps(b, TextDone(b))
  {
  }

  lemma ZoomFacts(b: Board, i: nat)
    ensures Keeps(b, ZoomDone(b, i))
  {
  }

  lemma {:induction false} RunPreservesInv(b: Board, events: seq<Event>)
    requires Inv(b)
    ensures Inv(Run(b, events))
    decreases |events|
  {
    if |events| > 0 {
      StepPreservesInv(b, events[0]);
      RunPreservesInv(Step(b, events[0]), events[1..]);
    }
  }

  /** No event returns the board to the initial selection, and once a
      segment is active some segment stays active. */
  lemma {:induction false} StepIsOneWay(b: Board, e: Event)
    ensures Step(b, e).initialPhase ==> b.initialPhase
    ensures b.active.Some? ==> Step(b, e).active.Some?
  {
    StepFacts(b, e);
  }

  /** A completed segment stays completed, and a segment is completed only
      by the batch whose placement brings its counter to seven. */
  lemma {:induction false} StepCompletion(b: Board, e: Event, n: SegmentNo)
    ensures Seg(b, n).completed ==> Seg(Step(b, e), n).completed
    ensures !Seg(b, n).completed && Seg(Step(b, e), n).completed ==>
              e == BatchFinished && Seg(Step(b, e), n).counter == Misfills
  {
    match e
    case SegmentClicked(m) => SegmentClickKeepsSegments(b, m, n);
    case StackClicked(m) => StackClickKeepsCompletion(b, m, n);
    case GemClicked(g) => GemClickKeepsSegments(b, g, n);
    case CellClicked(c) => CellClickKeepsSegments(b, c, n);
    case BatchFinished => BatchCompletion(b, n);
    case TextFinished => TextDoneKeepsSegments(b, n);
    case ZoomFinished(i) => ZoomDoneKeepsSegments(b, i, n);
  }

  lemma StackClickKeepsCompletion(b: Board, m: SegmentNo, n: SegmentNo)
    ensures Seg(StackClick(b, m), n).completed == Seg(b, n).completed
  {
    if n != m {
      assert n == Other(m);
    }
  }

  lemma BatchCompletion(b: Board, n: SegmentNo)
    ensures Seg(b, n).completed ==> Seg(BatchDone(b), n).completed
    ensures !Seg(b, n).completed && Seg(BatchDone(b), n).completed ==> Seg(BatchDone(b), n).counter == Misfills
  {
    match b.batch
    case None =>
    case Some(ToStack(m, moved)) => StackBatchKeeps(b, m, moved, n);
    case Some(ToCells(m, group, correct, copy, moved)) => CellBatchCompletion(b, m, group, correct, copy, moved, n);
  }

  /** A batch into a stack keeps every segment's misfill keys and completion. */
  lemma StackBatchKeeps(b: Board, m: SegmentNo, moved: seq<nat>, n: SegmentNo)
    requires b.batch == Some(ToStack(m, moved))
    ensures var r := BatchDone(b);
            Keys(Seg(r, n).misfilled) == Keys(Seg(b, n).misfilled) && Seg(r, n).completed == Seg(b, n).completed
  {
    assert BatchDone(b) == StackDone(b, m, moved);
    if n != m {
      assert n == Other(m);
    }
  }

  /** A batch into cells keeps every segment's misfill keys; it completes a
      segment only when that segment's counter reaches seven. */
  lemma CellBatchCompletion(b: Board, m: SegmentNo, group: seq<nat>, correct: string, copy: string, moved: seq<nat>, n: SegmentNo)
    requires b.batch == Some(ToCells(m, group, correct, copy, moved))
    ensures var r := BatchDone(b);
            && Keys(Seg(r, n).misfilled) == Keys(Seg(b, n).misfilled)
            && (Seg(b, n).completed ==> Seg(r, n).completed)
            && (!Seg(b, n).completed && Seg(r, n).completed ==> Seg(r, n).counter == Misfills)
  {
    if |moved| <= |group| {
      assert BatchDone(b) == CellsDone(b, m, group, correct, copy, moved);
      if n != m {
        assert n == Other(m);
      }
    } else {
      assert BatchDone(b) == b.(batch := None);
    }
  }

  /** How many events of a run ended the initial selection. */
  function Selections(b: Board, events: seq<Event>): nat
    decreases |events|
  {
    if |events| == 0 then 0
    else
      var b' := Step(b, events[0]);
      (if b.initialPhase && !b'.initialPhase then 1 else 0) + Selections(b', events[1..])
  }

  /** How many events of a run completed segment `n`. */
  function Completions(b: Board, events: seq<Event>, n: SegmentNo): nat
    decreases |events|
  {
    if |events| == 0 then 0
    else
      var b' := Step(b, events[0]);
      (if !Seg(b, n).completed && Seg(b', n).completed then 1 else 0) + Completions(b', events[1..], n)
  }

  lemma {:induction false} NoSelectionAfterward(b: Board, events: seq<Event>)
    requires !b.initialPhase
    ensures Selections(b, events) == 0
    decreases |events|
  {
    if |events| > 0 {
      StepIsOneWay(b, events[0]);
      NoSelectionAfterward(Step(b, events[0]), events[1..]);
    }
  }

  /** Over any run the player selects a segment from the overview at most once. */
  lemma {:induction false} SelectionAtMostOnce(b: Board, events: seq<Event>)
    ensures Selections(b, events) <= 1
    decreases |events|
  {
    if |events| > 0 {
      var b' := Step(b, events[0]);
      if b.initialPhase && !b'.initialPhase {
        NoSelectionAfterward(b', events[1..]);
      } else {
        SelectionAtMostOnce(b', events[1..]);
      }
    }
  }

  lemma {:induction false} NoCompletionAfterward(b: Board, events: seq<Event>, n: SegmentNo)
    requires Seg(b, n).completed
    ensures Completions(b, events, n) == 0
    decreases |events|
  {
    if |events| > 0 {
      StepCompletion(b, events[0], n);
      NoCompletionAfterward(Step(b, events[0]), events[1..], n);
    }
  }

  /** Over any run each segment is completed at most once, so its zoom out
      (and the end of the game) is started at most once per segment. */
  lemma {:induction false} CompletionAtMostOnce(b: Board, events: seq<Event>, n: SegmentNo)
    ensures Completions(b, events, n) <= 1
    decreases |events|
  {
    if |events| > 0 {
      var b' := Step(b, events[0]);
      if !Seg(b, n).completed && Seg(b', n).completed {
        NoCompletionAfterward(b', events[1..], n);
      } else {
        CompletionAtMostOnce(b', events[1..], n);
      }
    }
  }

  // ---------------------------------------------------------------------------
  // misfill keys and the hint
  // ---------------------------------------------------------------------------

  /** Every event keeps a segment's misfill keys or clears the map. */
  lemma {:induction false} StepKeepsMisfillKeys(b: Board, e: Event, n: SegmentNo)
    ensures Keys(Seg(Step(b, e), n).misfilled) == Keys(Seg(b, n).misfilled) || Seg(Step(b, e), n).misfilled == []
  {
    match e
    case SegmentClicked(m) => SegmentClickKeepsSegments(b, m, n);
    case StackClicked(m) => StackClickKeepsCompletion(b, m, n);
    case GemClicked(g) => GemClickKeepsSegments(b, g, n);
    case CellClicked(c) => CellClickKeepsSegments(b, c, n);
    case BatchFinished => BatchKeepsMisfillKeys(b, n);
    case TextFinished => TextDoneKeepsSegments(b, n);
    case ZoomFinished(i) => ZoomDoneKeepsSegments(b, i, n);
  }

  /** The events other than a stack click and the end of a batch leave both
      segments alone, except that the zoom ending the game clears their maps
      and stacks. */
  lemma SegmentClickKeepsSegments(b: Board, m: SegmentNo, n: SegmentNo)
    ensures Seg(SegmentClick(b, m), n) == Seg(b, n)
  {
  }

  lemma GemClickKeepsSegments(b: Board, g: nat, n: SegmentNo)
    ensures Seg(GemClick(b, g), n) == Seg(b, n)
  {
  }

  lemma CellClickKeepsSegments(b: Board, c: nat, n: SegmentNo)
    ensures Seg(CellClick(b, c), n) == Seg(b, n)
  {
  }

  lemma TextDoneKeepsSegments(b: Board, n: SegmentNo)
    ensures Seg(TextDone(b), n) == Seg(b, n)
  {
  }

  lemma ZoomDoneKeepsSegments(b: Board, i: nat, n: SegmentNo)
    ensures Seg(ZoomDone(b, i), n) == Seg(b, n) || Seg(ZoomDone(b, i), n) == Seg(b, n).(misfilled := [], stack := [])
  {
  }

  lemma BatchKeepsMisfillKeys(b: Board, n: SegmentNo)
    ensures Keys(Seg(BatchDone(b), n).misfilled) == Keys(Seg(b, n).misfilled)
  {
    match b.batch
    case None =>
    case Some(ToStack(m, moved)) => StackBatchKeeps(b, m, moved, n);
    case Some(ToCells(m, group, correct, copy, moved)) => CellBatchCompletion(b, m, group, correct, copy, moved, n);
  }

  lemma {:induction false} RunKeepsCellKeys(b: Board, events: seq<Event>, n: SegmentNo)
    requires CellKeys(Seg(b, n).misfilled)
    ensures CellKeys(Seg(Run(b, events), n).misfilled)
    decreases |events|
  {
    if |events| > 0 {
      StepKeepsMisfillKeys(b, events[0], n);
      RunKeepsCellKeys(Step(b, events[0]), events[1..], n);
    }
  }

  /** On every board reached from a freshly built one, the hint's loop over
      the stack never finds an entry: stack keys are numbers, misfill keys
      are `x;y`. */
  lemma {:induction false} StackKeyLoopDeadOnRuns(level: Level, events: seq<Event>, n: SegmentNo, colorOf: string -> Option<string>)
    requires ValidLevel(level)
    ensures StackKeyEntry(Run(Initial(level), events), n, colorOf) == None
  {
    InitialCellKeys(level);
    RunKeepsCellKeys(Initial(level), events, n);
    StackKeyLoopIsDead(Run(Initial(level), events), n, colorOf);
  }
}
